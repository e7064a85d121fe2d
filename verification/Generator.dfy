/** The pattern generator of fuzz/pcre2_differential.cpp: recursive methods that build pattern text from a stream
    of random numbers and record facts beside it. Each method also returns, as a ghost, the term it printed. */
module Generator {
  import opened Decimal
  import opened Regex
  import opened TermFacts
  import GroupReport

  datatype Mode = Ascii | Multiline | UnicodeIcase

  datatype Piece = Piece(text: string, nullable: bool)

  const UNBOUNDED_CHOICES: seq<string> := ["", "", "", "+", "*", "?", "{1,2}", "{2}", "+?", "*?", "??", "{0,2}"]
  const BOUNDED_CHOICES: seq<string> := ["", "", "", "?", "{1,2}", "{2}", "??", "{0,2}"]
  const ASCII_LITERALS: seq<string> := ["a", "b", "x", "ab", "ba", "aa", "\\n"]
  const UNICODE_LITERALS: seq<string> :=
    ["\U{C3}\U{A9}", "\U{C3}\U{89}", "k", "K", "\U{E2}\U{84}\U{AA}", "s", "\U{C5}\U{BF}", "\U{C3}\U{9F}", "ss"]

  /** What a drawn quantifier means; `Once` for the empty text. */
  datatype Drawn = Once | Times(op: Op, lazy: bool)

  const UNBOUNDED_DRAWN: seq<Drawn> :=
    [Once, Once, Once, Times(Plus, false), Times(Star, false), Times(Opt, false), Times(Between(1, 2), false),
     Times(Exactly(2), false), Times(Plus, true), Times(Star, true), Times(Opt, true), Times(Between(0, 2), false)]
  const BOUNDED_DRAWN: seq<Drawn> :=
    [Once, Once, Once, Times(Opt, false), Times(Between(1, 2), false), Times(Exactly(2), false), Times(Opt, true),
     Times(Between(0, 2), false)]

  function DrawnText(d: Drawn): string { if d.Once? then "" else OpText(d.op) + LazyText(d.lazy) }

  function Quantify(d: Drawn, a: Regex): Regex { if d.Once? then a else Rep(a, d.op, d.lazy) }

  predicate Finite(op: Op) { op.Opt? || op.Exactly? || op.Between? }

  /** The tables of texts and of meanings agree, entry by entry. */
  lemma DrawnTexts()
    ensures |UNBOUNDED_CHOICES| == |UNBOUNDED_DRAWN| == 12 && |BOUNDED_CHOICES| == |BOUNDED_DRAWN| == 8
    ensures forall k :: 0 <= k < 12 ==> UNBOUNDED_CHOICES[k] == DrawnText(UNBOUNDED_DRAWN[k])
    ensures forall k :: 0 <= k < 8 ==> BOUNDED_CHOICES[k] == DrawnText(BOUNDED_DRAWN[k])
  {
    assert Numeral(0) == "0" && Numeral(1) == "1" && Numeral(2) == "2";
  }

  predicate ZeroMinimum(q: string) {
    q != "" && (q[0] == '*' || q[0] == '?' || (|q| >= 2 && q[0] == '{' && q[1] == '0'))
  }

  /** The three tests the generator makes on a quantifier's text are right for every quantifier it can draw. */
  lemma DrawnTests(d: Drawn)
    requires d in UNBOUNDED_DRAWN || d in BOUNDED_DRAWN
    ensures DrawnText(d) == "" <==> d.Once?
    ensures d.Times? ==> (MinZero(d.op) <==> ZeroMinimum(DrawnText(d)))
    ensures d.Times? ==> (CanIterateTwice(d.op) <==> DrawnText(d) != "?" && DrawnText(d) != "??")
    ensures d.Times? && d.op.Between? ==> d.op.n <= d.op.m
    ensures d in BOUNDED_DRAWN && d.Times? ==> Finite(d.op)
  {
  }

  /** What a piece says about its term. */
  ghost predicate Describes(p: Piece, r: Regex) { Valid(r) && p.text == Print(r) && p.nullable == Nullable(r) }

  lemma LitTerm(c: char)
    requires Plain(c) && c < '\U{80}'
    ensures Valid(Lit([c])) && Print(Lit([c])) == [c]
  {
  }

  lemma ClassTerm(items: string)
    requires |items| == 2 && items[0] != '\\' && items[0] != ']' && items[1] != '\\' && items[1] != ']'
    ensures Valid(Class(items)) && Print(Class(items)) == "[" + items + "]"
  {
    assert ClassText(items[1..]);
  }

  lemma SingleTerms()
    ensures Valid(Class("ab")) && Print(Class("ab")) == "[ab]" && Valid(Class("^a")) && Print(Class("^a")) == "[^a]"
    ensures Valid(Lit(".")) && Print(Lit(".")) == "." && Valid(Lit("x")) && Print(Lit("x")) == "x"
    ensures Valid(Lit("a")) && Print(Lit("a")) == "a"
    ensures Valid(Esc('w')) && Print(Esc('w')) == "\\w" && Valid(Esc('s')) && Print(Esc('s')) == "\\s"
  {
    ClassTerm("ab");
    ClassTerm("^a");
    LitTerm('.');
    LitTerm('x');
    LitTerm('a');
  }

  /** The shape of everything generated: groups nest at most `levels` deep, lookarounds do not nest and have
      bounded bodies, and inside one every term is bounded. */
  ghost predicate Shaped(r: Regex, levels: nat, inLook: bool) {
    Nesting(r) <= levels && LooksBounded(r, inLook) && (inLook ==> Bounded(r))
  }

  lemma ShapedMore(r: Regex, a: nat, b: nat, inLook: bool)
    requires Shaped(r, a, inLook) && a <= b
    ensures Shaped(r, b, inLook)
  {
  }

  /** A term with no group and no repeat has nothing to record. */
  predicate Leaf(r: Regex) {
    match r
    case Cat(a, b) => a.Lit? && b.Lit?
    case Or(_, _) => false
    case Group(_, _) => false
    case Rep(_, _, _) => false
    case _ => true
  }

  lemma LeafFacts(r: Regex, inLook: bool)
    requires Leaf(r)
    ensures Shaped(r, 0, inLook) && Captures(r, inLook) == [] && !HasLoop(r)
  {
  }

  lemma NothingYet(levels: nat, inLook: bool)
    ensures Describes(Piece("", true), Eps) && Shaped(Eps, levels, inLook) && Captures(Eps, inLook) == [] && !HasLoop(Eps)
  {
  }

  lemma CatFacts(x: Piece, a: Regex, y: Piece, b: Regex, levels: nat, inLook: bool)
    requires Describes(x, a) && Describes(y, b) && !a.Or? && !b.Or?
    requires Shaped(a, levels, inLook) && Shaped(b, levels, inLook)
    ensures Describes(Piece(x.text + y.text, x.nullable && y.nullable), Cat(a, b))
    ensures Shaped(Cat(a, b), levels, inLook) && HasLoop(Cat(a, b)) == (HasLoop(a) || HasLoop(b))
    ensures Captures(Cat(a, b), inLook) == Captures(a, inLook) + Captures(b, inLook)
  {
  }

  lemma OrFacts(x: Piece, a: Regex, y: Piece, b: Regex, levels: nat, inLook: bool)
    requires Describes(x, a) && Describes(y, b)
    requires Shaped(a, levels, inLook) && Shaped(b, levels, inLook)
    ensures Describes(Piece(x.text + "|" + y.text, x.nullable || y.nullable), Or(a, b))
    ensures Shaped(Or(a, b), levels, inLook) && HasLoop(Or(a, b)) == (HasLoop(a) || HasLoop(b))
    ensures Captures(Or(a, b), inLook) == Captures(a, inLook) + Captures(b, inLook)
  {
  }

  lemma GroupFacts(o: Open, x: Piece, b: Regex, levels: nat, inLook: bool)
    requires Describes(x, b) && Shaped(b, levels, inLook) && (o.Capture? || o.NonCapture?)
    ensures var a := Regex.Group(o, b);
            Valid(a) && Describes(Piece(OpenText(o) + x.text + ")", x.nullable), a) && Shaped(a, levels + 1, inLook) &&
            HasLoop(a) == HasLoop(b) &&
            Captures(a, inLook) == (if o.Capture? then [inLook] else []) + Captures(b, inLook)
  {
  }

  /** A quantified atom: what the drawn quantifier adds to the piece and to the records. */
  lemma QuantifyFacts(p: Piece, a: Regex, d: Drawn, inLook: bool)
    requires Describes(p, a) && IsAtom(a) && (a.Lit? ==> |a.text| == 1)
    requires if inLook then d in BOUNDED_DRAWN else d in UNBOUNDED_DRAWN
    ensures var r := Quantify(d, a);
            && !r.Or? && Captures(r, inLook) == Captures(a, inLook)
            && Describes(Piece(p.text + DrawnText(d), p.nullable || (d.Times? && MinZero(d.op))), r)
            && (HasLoop(r) <==> HasLoop(a) || (d.Times? && CanIterateTwice(d.op) && p.nullable))
            && forall levels :: Shaped(a, levels, inLook) ==> Shaped(r, levels, inLook)
  {
    hide Describes, Shaped, Captures, HasLoop, OpText, LazyText, UNBOUNDED_DRAWN, BOUNDED_DRAWN;
    DrawnTests(d);
    assert p.text + "" == p.text && Piece(p.text, p.nullable) == p;
    if d.Times? { RepFacts(p, a, d.op, d.lazy, inLook); }
  }

  lemma RepFacts(p: Piece, a: Regex, op: Op, lazy: bool, inLook: bool)
    requires Describes(p, a) && IsAtom(a) && (a.Lit? ==> |a.text| == 1)
    requires (op.Between? ==> op.n <= op.m) && (inLook ==> Finite(op))
    ensures var r := Rep(a, op, lazy);
            && Captures(r, inLook) == Captures(a, inLook)
            && Describes(Piece(p.text + (OpText(op) + LazyText(lazy)), p.nullable || MinZero(op)), r)
            && (HasLoop(r) <==> HasLoop(a) || (CanIterateTwice(op) && p.nullable))
            && forall levels :: Shaped(a, levels, inLook) ==> Shaped(r, levels, inLook)
  {
    hide OneCharacter, OpText, LazyText;
    assert p.text + (OpText(op) + LazyText(lazy)) == p.text + OpText(op) + LazyText(lazy);
  }

  /** The terms of the two literal tables. */
  const ASCII_TERMS: seq<Regex> :=
    [Lit("a"), Lit("b"), Lit("x"), Cat(Lit("a"), Lit("b")), Cat(Lit("b"), Lit("a")), Cat(Lit("a"), Lit("a")), Esc('n')]
  const UNICODE_TERMS: seq<Regex> :=
    [Lit("\U{C3}\U{A9}"), Lit("\U{C3}\U{89}"), Lit("k"), Lit("K"), Lit("\U{E2}\U{84}\U{AA}"), Lit("s"),
     Lit("\U{C5}\U{BF}"), Lit("\U{C3}\U{9F}"), Cat(Lit("s"), Lit("s"))]

  ghost predicate LiteralOf(text: string, r: Regex) {
    Describes(Piece(text, false), r) && Leaf(r) && (|text| == 1 ==> r.Lit? && r.text == text)
  }

  lemma LiteralOne(text: string)
    requires OneCharacter(text)
    ensures LiteralOf(text, Lit(text))
  {
  }

  lemma LiteralTwo(text: string, a: char, b: char)
    requires Plain(a) && Plain(b) && a < '\U{80}' && b < '\U{80}' && text == [a, b]
    ensures LiteralOf(text, Cat(Lit([a]), Lit([b])))
  {
  }

  lemma LiteralNewline()
    ensures LiteralOf("\\n", Esc('n'))
  {
  }

  lemma AsciiLiteral(k: nat)
    requires k < 7
    ensures |ASCII_LITERALS| == |ASCII_TERMS| == 7 && LiteralOf(ASCII_LITERALS[k], ASCII_TERMS[k])
  {
    hide LiteralOf;
    match k {
      case 3 => LiteralTwo("ab", 'a', 'b');
      case 4 => LiteralTwo("ba", 'b', 'a');
      case 5 => LiteralTwo("aa", 'a', 'a');
      case 6 => LiteralNewline();
      case _ => LiteralOne(ASCII_LITERALS[k]);
    }
  }

  lemma UnicodeLiteral(k: nat)
    requires k < 9
    ensures |UNICODE_LITERALS| == |UNICODE_TERMS| == 9 && LiteralOf(UNICODE_LITERALS[k], UNICODE_TERMS[k])
  {
    hide LiteralOf, OneCharacter;
    match k {
      case 0 => TwoBytes('\U{C3}', '\U{A9}');
      case 1 => TwoBytes('\U{C3}', '\U{89}');
      case 4 => ThreeBytes('\U{E2}', '\U{84}', '\U{AA}');
      case 6 => TwoBytes('\U{C5}', '\U{BF}');
      case 7 => TwoBytes('\U{C3}', '\U{9F}');
      case 8 => LiteralTwo("ss", 's', 's');
      case _ => OneByte(UNICODE_LITERALS[k]);
    }
  }

  lemma OneByte(text: string)
    requires |text| == 1 && Plain(text[0]) && text[0] < '\U{80}'
    ensures LiteralOf(text, Lit(text))
  {
    LiteralOne(text);
  }

  lemma TwoBytes(a: char, b: char)
    requires '\U{C2}' <= a <= '\U{DF}' && Continues(b)
    ensures LiteralOf([a, b], Lit([a, b]))
  {
    LiteralOne([a, b]);
  }

  lemma ThreeBytes(a: char, b: char, c: char)
    requires '\U{E1}' <= a <= '\U{EC}' && Continues(b) && Continues(c)
    ensures LiteralOf([a, b, c], Lit([a, b, c]))
  {
    LiteralOne([a, b, c]);
  }

  // ---------------------------------------------------------------- which number draws what

  /** The quantifier that a number draws. */
  function DrawQuantifier(n: nat, inLook: bool): (d: Drawn)
    ensures if inLook then d in BOUNDED_DRAWN else d in UNBOUNDED_DRAWN
  {
    if inLook then BOUNDED_DRAWN[n % 8] else UNBOUNDED_DRAWN[n % 12]
  }

  /** A term with what a number draws behind it. */
  function Drawing(a: Regex, n: nat, inLook: bool): Regex { Quantify(DrawQuantifier(n, inLook), a) }

  /** The literal that a number draws; one of a single byte has what the next number draws behind it. */
  function DrawLiteral(mode: Mode, n: nat, m: nat, inLook: bool): Regex {
    var a := if mode.UnicodeIcase? then UNICODE_TERMS[n % 9] else ASCII_TERMS[n % 7];
    if a.Lit? && |a.text| == 1 then Drawing(a, m, inLook) else a
  }

  predicate Opened(r: Regex, o: Open) { if r.Rep? then r.atom.Group? && r.atom.open == o else r.Group? && r.open == o }

  /** The atom that the number `x` and those after it draw: three chances in twenty-two of a literal, one each of the
      classes, escapes, anchors and characters, and above the innermost depth two of a capture group, one of a plain
      group and five of a lookaround, or of a plain group inside one. */
  predicate Chosen(r: Regex, x: nat, y: nat, z: nat, depth: nat, inLook: bool, mode: Mode) {
    match x % if depth > 1 then 14 else 22
    case 0 => r == DrawLiteral(mode, y, z, inLook)
    case 1 => r == DrawLiteral(mode, y, z, inLook)
    case 2 => r == DrawLiteral(mode, y, z, inLook)
    case 3 => r == Drawing(Class("ab"), y, inLook)
    case 4 => r == Drawing(Class("^a"), y, inLook)
    case 5 => r == Drawing(Lit("."), y, inLook)
    case 6 => r == Drawing(Esc('w'), y, inLook)
    case 7 => r == Anchor("\\b")
    case 8 => r == Anchor("\\B")
    case 9 => r == Anchor("^")
    case 10 => r == Anchor("$")
    case 11 => r == if y % 2 != 0 then Anchor("\\A") else Drawing(Esc('s'), z, inLook)
    case 12 => r == Drawing(Lit("x"), y, inLook)
    case 13 => r == Drawing(Lit("a"), y, inLook)
    case 14 => Opened(r, Capture)
    case 15 => Opened(r, Capture)
    case 16 => Opened(r, NonCapture)
    case _ => if inLook then Opened(r, NonCapture) else r.Group? && r.open == Look(y % 4 < 2, y % 4 % 2 == 1)
  }

  /** How many atoms a sequence strings together. */
  function Atoms(r: Regex): nat { if r.Cat? then Atoms(r.a) + 1 else 0 }

  function Levels(depth: nat): nat { if depth < 2 then 2 - depth else 0 }

  class Generator {
    const numbers: nat -> nat // what the random engine yields, draw by draw
    const mode: Mode
    var drawn: nat
    var groupInLookaround: seq<bool>
    var nullableLoop: bool

    constructor (numbers: nat -> nat, mode: Mode)
      ensures this.numbers == numbers && this.mode == mode && drawn == 0 && !nullableLoop
    {
      this.numbers, this.mode, drawn, groupInLookaround, nullableLoop := numbers, mode, 0, [], false;
    }

    /** The facts recorded so far, extended by a term's own. */
    twostate predicate Recorded(r: Regex, inLook: bool)
      reads this
    {
      groupInLookaround == old(groupInLookaround) + Captures(r, inLook) &&
      nullableLoop == (old(nullableLoop) || HasLoop(r))
    }

    method Below(n: nat) returns (k: nat)
      requires n > 0
      modifies this`drawn
      ensures k < n && k == numbers(old(drawn)) % n && drawn == old(drawn) + 1
    {
      k := numbers(drawn) % n;
      drawn := drawn + 1;
    }

    method Quantifier(inLookaround: bool) returns (q: string, ghost d: Drawn)
      modifies this`drawn
      ensures d == DrawQuantifier(numbers(old(drawn)), inLookaround) && q == DrawnText(d) && drawn == old(drawn) + 1
    {
      DrawnTexts();
      if inLookaround {
        var k := Below(8);
        q, d := BOUNDED_CHOICES[k], BOUNDED_DRAWN[k];
      } else {
        var k := Below(12);
        q, d := UNBOUNDED_CHOICES[k], UNBOUNDED_DRAWN[k];
      }
    }

    /** A piece with a drawn quantifier behind it, or none. A minimum of zero makes it nullable; the loop flag goes up
        when a body that can be empty may be taken more than once. */
    method Quantified(base: Piece, inLookaround: bool, ghost a: Regex) returns (p: Piece, ghost r: Regex)
      requires Describes(base, a) && IsAtom(a) && (a.Lit? ==> |a.text| == 1)
      requires HasLoop(a) ==> nullableLoop
      modifies this`drawn, this`nullableLoop
      ensures Describes(p, r) && !r.Or? && (HasLoop(a) ==> HasLoop(r))
      ensures forall levels :: Shaped(a, levels, inLookaround) ==> Shaped(r, levels, inLookaround)
      ensures Captures(r, inLookaround) == Captures(a, inLookaround)
      ensures nullableLoop == (old(nullableLoop) || HasLoop(r))
      ensures r == Drawing(a, numbers(old(drawn)), inLookaround) && drawn == old(drawn) + 1
    {
      hide Describes, Shaped, Captures, HasLoop;
      var q;
      ghost var d;
      q, d := Quantifier(inLookaround);
      r := Quantify(d, a);
      DrawnTests(d);
      QuantifyFacts(base, a, d, inLookaround);
      if q == "" {
        return base, r;
      }
      var repeats := q != "?" && q != "??";
      var zeroMin := ZeroMinimum(q);
      if repeats && base.nullable {
        nullableLoop := true;
      }
      p := Piece(base.text + q, base.nullable || zeroMin);
    }

    /** A literal from the table of the mode; only one of a single byte is offered a quantifier. */
    method Literal(inLookaround: bool) returns (p: Piece, ghost r: Regex)
      modifies this
      ensures Describes(p, r) && Shaped(r, 0, inLookaround) && !r.Or? && Recorded(r, inLookaround)
      ensures r == DrawLiteral(mode, numbers(old(drawn)), numbers(old(drawn) + 1), inLookaround)
    {
      hide ASCII_TERMS, UNICODE_TERMS, ASCII_LITERALS, UNICODE_LITERALS;
      var text;
      if mode.UnicodeIcase? {
        var k := Below(9);
        UnicodeLiteral(k);
        text, r := UNICODE_LITERALS[k], UNICODE_TERMS[k];
      } else {
        var k := Below(7);
        AsciiLiteral(k);
        text, r := ASCII_LITERALS[k], ASCII_TERMS[k];
      }
      LeafFacts(r, inLookaround);
      if |text| == 1 {
        p, r := Quantified(Piece(text, false), inLookaround, r);
      } else {
        p := Piece(text, false);
      }
    }

    /** A one-character atom under a quantifier. */
    method Single(text: string, inLookaround: bool, ghost a: Regex) returns (p: Piece, ghost r: Regex)
      requires (a.Lit? && |a.text| == 1) || a.Esc? || a.Class?
      requires Valid(a) && Print(a) == text
      modifies this
      ensures Describes(p, r) && Shaped(r, 0, inLookaround) && !r.Or? && Recorded(r, inLookaround)
      ensures r == Drawing(a, numbers(old(drawn)), inLookaround)
    {
      LeafFacts(a, inLookaround);
      p, r := Quantified(Piece(text, false), inLookaround, a);
    }

    /** An assertion: it matches empty and records nothing. */
    method Assertion(text: string, inLookaround: bool) returns (p: Piece, ghost r: Regex)
      requires AnchorText(text)
      ensures Describes(p, r) && Shaped(r, 0, inLookaround) && !r.Or?
      ensures Captures(r, inLookaround) == [] && !HasLoop(r) && r == Anchor(text)
    {
      p, r := Piece(text, true), Anchor(text);
    }

    method Sequence(depth: nat, inLookaround: bool) returns (out: Piece, ghost r: Regex)
      modifies this
      ensures Describes(out, r) && Shaped(r, Levels(depth), inLookaround) && !r.Or? && Recorded(r, inLookaround)
      ensures Atoms(r) == 1 + numbers(old(drawn)) % 3
      decreases Levels(depth), 2
    {
      hide Shaped, Captures, HasLoop, Describes;
      out, r := Piece("", true), Eps;
      NothingYet(Levels(depth), inLookaround);
      var draw := Below(3);
      var n := 1 + draw;
      while n > 0
        invariant Describes(out, r) && Shaped(r, Levels(depth), inLookaround) && !r.Or?
        invariant groupInLookaround == old(groupInLookaround) + Captures(r, inLookaround)
        invariant nullableLoop == (old(nullableLoop) || HasLoop(r))
        invariant Atoms(r) + n == 1 + draw
      {
        ghost var q;
        var p;
        p, q := Atom(depth, inLookaround);
        CatFacts(out, r, p, q, Levels(depth), inLookaround);
        assert groupInLookaround == old(groupInLookaround) + (Captures(r, inLookaround) + Captures(q, inLookaround));
        out, r := Piece(out.text + p.text, out.nullable && p.nullable), Cat(r, q);
        n := n - 1;
      }
    }

    method Alternation(depth: nat, inLookaround: bool) returns (out: Piece, ghost r: Regex)
      modifies this
      ensures Describes(out, r) && Shaped(r, Levels(depth), inLookaround) && Recorded(r, inLookaround)
      decreases Levels(depth), 3
    {
      hide Shaped, Captures, HasLoop, Describes;
      out, r := Sequence(depth, inLookaround);
      var k := Below(3);
      if k == 0 {
        ghost var q;
        var other;
        other, q := Sequence(depth, inLookaround);
        OrFacts(out, r, other, q, Levels(depth), inLookaround);
        out, r := Piece(out.text + "|" + other.text, out.nullable || other.nullable), Or(r, q);
      }
    }

    method Group(depth: nat, inLookaround: bool, open: string) returns (p: Piece, ghost r: Regex)
      requires depth <= 1 && (open == "(" || open == "(?:")
      modifies this
      ensures Describes(p, r) && Shaped(r, Levels(depth), inLookaround) && !r.Or? && Recorded(r, inLookaround)
      ensures Opened(r, if open == "(" then Capture else NonCapture)
      decreases Levels(depth), 0
    {
      hide Shaped, Captures, HasLoop, Describes, Valid;
      if open == "(" {
        groupInLookaround := groupInLookaround + [inLookaround];
      }
      ghost var b;
      var body;
      body, b := Alternation(depth + 1, inLookaround);
      ghost var o := if open == "(" then Capture else NonCapture;
      ghost var a := Regex.Group(o, b);
      GroupFacts(o, body, b, Levels(depth + 1), inLookaround);
      p, r := Quantified(Piece(open + body.text + ")", body.nullable), inLookaround, a);
    }

    method Atom(depth: nat, inLookaround: bool) returns (p: Piece, ghost r: Regex)
      modifies this
      ensures Describes(p, r) && Shaped(r, Levels(depth), inLookaround) && !r.Or? && Recorded(r, inLookaround)
      ensures Chosen(r, numbers(old(drawn)), numbers(old(drawn) + 1), numbers(old(drawn) + 2), depth, inLookaround, mode)
      decreases Levels(depth), 1
    {
      hide Shaped, Captures, HasLoop, Describes, Print, Valid, Drawing, DrawLiteral, Opened;
      SingleTerms();
      var k := Below(if depth > 1 then 14 else 22);
      if k >= 14 {
        if k <= 15 {
          p, r := Group(depth, inLookaround, "(");
        } else if k == 16 || inLookaround {
          p, r := Group(depth, inLookaround, "(?:");
        } else {
          p, r := Lookaround(depth);
        }
        return;
      }
      match k {
      case 3 => p, r := Single("[ab]", inLookaround, Class("ab"));
      case 4 => p, r := Single("[^a]", inLookaround, Class("^a"));
      case 5 => p, r := Single(".", inLookaround, Lit("."));
      case 6 => p, r := Single("\\w", inLookaround, Esc('w'));
      case 7 => p, r := Assertion("\\b", inLookaround);
      case 8 => p, r := Assertion("\\B", inLookaround);
      case 9 => p, r := Assertion("^", inLookaround);
      case 10 => p, r := Assertion("$", inLookaround);
      case 11 =>
        var coin := Below(2);
        if coin != 0 {
          p, r := Assertion("\\A", inLookaround);
        } else {
          p, r := Single("\\s", inLookaround, Esc('s'));
        }
      case 12 => p, r := Single("x", inLookaround, Lit("x"));
      case 13 => p, r := Single("a", inLookaround, Lit("a"));
      case _ => p, r := Literal(inLookaround);
      }
      ShapedMore(r, 0, Levels(depth), inLookaround);
    }

    /** A lookaround, outside any other: its body is drawn as one, and it is never quantified. */
    method Lookaround(depth: nat) returns (p: Piece, ghost r: Regex)
      requires depth <= 1
      modifies this
      ensures Describes(p, r) && Shaped(r, Levels(depth), false) && !r.Or? && Recorded(r, false)
      ensures r.Group? && var k := numbers(old(drawn)) % 4; r.open == Look(k < 2, k % 2 == 1)
      decreases Levels(depth), 0
    {
      var k := Below(4);
      var open := ["(?=", "(?!", "(?<=", "(?<!"][k];
      ghost var b;
      var body;
      body, b := Alternation(depth + 1, true);
      p, r := Piece(open + body.text + ")", true), Regex.Group(Look(k < 2, k % 2 == 1), b);
    }

    /** One pattern. The fields afterwards hold its capture groups and its loop flag. */
    method Pattern() returns (text: string, ghost r: Regex)
      modifies this
      ensures Valid(r) && text == Print(r)
      ensures groupInLookaround == [false] + Captures(r, false)
      ensures nullableLoop == HasLoop(r)
      ensures Nesting(r) <= 2 && LooksBounded(r, false)
    {
      groupInLookaround := [false];
      nullableLoop := false;
      var p;
      p, r := Alternation(0, false);
      text := p.text;
    }

    /** The recorded groups with the lookaround mark, as the printed list. */
    method LookaroundGroups() returns (out: string)
      ensures out == GroupReport.Report(groupInLookaround)
    {
      out := "";
      var g := 1;
      while g < |groupInLookaround|
        invariant 1 <= g && (g <= |groupInLookaround| || groupInLookaround == [])
        invariant out == if groupInLookaround == [] then "" else GroupReport.Joined(groupInLookaround, g)
      {
        if groupInLookaround[g] {
          out := out + (if out == "" then "" else ",") + Numeral(g);
        }
        g := g + 1;
      }
      if out == "" {
        return "-";
      }
    }
  }
}

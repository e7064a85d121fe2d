/** `quantified_nullable_group` of fuzz/fuzz_compat.cpp: one pass over pattern text, two stacks of flags. */
module NullableScan {
  import opened Regex
  import opened Text

  /** Whether the text after an atom makes the atom optional. */
  predicate OptionalAfter(s: string) {
    s != "" && (s[0] == '?' || s[0] == '*' || (s[0] == '{' && |s| >= 2 && s[1] == '0'))
  }

  function Top(st: seq<bool>): bool
    requires st != []
  {
    st[|st| - 1]
  }

  function SetTop(st: seq<bool>, v: bool): (r: seq<bool>)
    requires st != []
    ensures |r| == |st|
  {
    st[|st| - 1 := v]
  }

  /** An atom ends: the innermost branch holds a character, unless the atom turns out optional. */
  function Mandatory(be: seq<bool>, rest: string): (r: seq<bool>)
    requires be != []
    ensures |r| == |be|
  {
    if OptionalAfter(rest) then be else SetTop(be, false)
  }

  /** Two flags per open group: `be` for the branch being read, `ge` for those already closed, set while empty. */
  datatype State = State(be: seq<bool>, ge: seq<bool>, inClass: bool) {
    predicate Ok() { be != [] && |be| == |ge| }
  }

  /** One turn of the loop at the head of the remaining text: the new state and how much text it takes. */
  function Step(s: string, st: State): (x: Next<State>)
    requires s != "" && st.Ok()
    ensures x.Go? ==> x.st.Ok() && x.n > 0
  {
    var State(be, ge, inClass) := st;
    var c := s[0];
    if inClass then
      if c == '\\' then Go(st, 2)
      else if c == ']' then Go(State(Mandatory(be, s[1..]), ge, false), 1)
      else Go(st, 1)
    else if c == '\\' then Go(State(Mandatory(be, Drop(s, 2)), ge, false), 2)
    else if c == '[' then Go(State(be, ge, true), 1)
    else if c == '(' then Go(State(be + [true], ge + [false], false), 1)
    else if c == '|' then Go(State(SetTop(be, true), SetTop(ge, Top(ge) || Top(be)), false), 1)
    else if c == ')' then
      var nullable := Top(ge) || Top(be);
      var be' := if |be| > 1 then be[..|be| - 1] else be;
      var ge' := if |ge| > 1 then ge[..|ge| - 1] else ge;
      if nullable && RepeatAfter(s[1..]) then Found
      else Go(State(if nullable then be' else Mandatory(be', s[1..]), ge', false), 1)
    else if c == '{' then Go(st, Find(s, '}', 0) + 1)
    else if c in "*+?^$" then Go(st, 1)
    else Go(State(Mandatory(be, s[1..]), ge, false), 1)
  }

  function Scan(s: string, st: State): bool
    requires st.Ok()
    decreases |s|
  {
    if s == "" then false
    else match Step(s, st)
      case Found => true
      case Go(st', n) => Scan(Drop(s, n), st')
  }

  lemma ScanStep(s: string, i: nat, st: State)
    requires i < |s| && st.Ok()
    ensures match Step(Drop(s, i), st)
            case Found => Scan(Drop(s, i), st)
            case Go(st', n) => Scan(Drop(s, i), st) == Scan(Drop(s, i + n), st')
  {
    hide Step;
    match Step(Drop(s, i), st)
    case Found =>
    case Go(_, n) => DropDrop(s, i, n);
  }

  lemma ScanEnd(s: string, i: nat, st: State)
    requires i >= |s| && st.Ok()
    ensures !Scan(Drop(s, i), st)
  {
  }

  const START := State([true], [false], false)

  /** The scanner itself, over every text. */
  method QuantifiedNullableGroup(pat: string) returns (found: bool)
    ensures found == Scan(pat, START)
  {
    hide Scan, OptionalAfter, RepeatAfter, Top, SetTop, Drop;
    DropNone(pat);
    var branchEmpty := [true];
    var groupEmpty := [false];
    var inClass := false;
    var i := 0;
    while i < |pat|
      invariant State(branchEmpty, groupEmpty, inClass).Ok()
      invariant Scan(Drop(pat, i), State(branchEmpty, groupEmpty, inClass)) == Scan(pat, START)
      decreases |pat| - i
    {
      DropAt(pat, i);
      ghost var i0, next := i, Step(Drop(pat, i), State(branchEmpty, groupEmpty, inClass));
      ScanStep(pat, i, State(branchEmpty, groupEmpty, inClass));
      var c := pat[i];
      if inClass {
        if c == '\\' {
          i := i + 1;
        } else if c == ']' {
          inClass := false;
          if !OptionalAfter(Drop(pat, i + 1)) {
            branchEmpty := SetTop(branchEmpty, false); // a class takes a character
          }
        }
      } else if c == '\\' {
        if !OptionalAfter(Drop(pat, i + 2)) {
          branchEmpty := SetTop(branchEmpty, false);
        }
        i := i + 1;
      } else if c == '[' {
        inClass := true;
      } else if c == '(' {
        branchEmpty := branchEmpty + [true];
        groupEmpty := groupEmpty + [false];
      } else if c == '|' {
        groupEmpty := SetTop(groupEmpty, Top(groupEmpty) || Top(branchEmpty));
        branchEmpty := SetTop(branchEmpty, true);
      } else if c == ')' {
        var nullable := Top(groupEmpty) || Top(branchEmpty);
        if |branchEmpty| > 1 {
          branchEmpty := branchEmpty[..|branchEmpty| - 1];
          groupEmpty := groupEmpty[..|groupEmpty| - 1];
        }
        if nullable && RepeatAfter(Drop(pat, i + 1)) {
          return true; // a repeated group with an empty way through
        }
        if !nullable && !OptionalAfter(Drop(pat, i + 1)) {
          branchEmpty := SetTop(branchEmpty, false); // the enclosing branch now takes a character
        }
      } else if c == '{' {
        FindInSuffix(pat, '}', i);
        i := Find(pat, '}', i); // skip to the closing brace
      } else if c != '*' && c != '+' && c != '?' && c != '^' && c != '$' {
        if !OptionalAfter(Drop(pat, i + 1)) {
          branchEmpty := SetTop(branchEmpty, false);
        }
      }
      i := i + 1;
      assert next.Go? && next.n == i - i0 && next.st == State(branchEmpty, groupEmpty, inClass);
    }
    ScanEnd(pat, i, State(branchEmpty, groupEmpty, inClass));
    return false;
  }

  // ---------------------------------------------------------------- what the scan sees of a term

  /** The two flags of one open group. */
  datatype Flags = Flags(some: bool, cur: bool)

  /** The flags after the text of `r`, from the flags before it. */
  function After(r: Regex, f: Flags): Flags
    decreases r, 0
  {
    match r
    case Cat(a, b) => After(b, After(a, f))
    case Or(a, b) => var x := After(a, f); After(b, Flags(x.some || x.cur, true))
    case Eps => f
    case Lit(_) => f.(cur := false)
    case Esc(_) => f.(cur := false)
    case Class(_) => f.(cur := false)
    case Anchor(text) => if text == "^" || text == "$" then f else f.(cur := false)
    case Group(o, body) => f.(cur := f.cur && SeenEmpty(o, body))
    case Rep(a, op, _) => if MinZero(op) then f else After(a, f)
  }

  /** Whether a group is nullable to the scan. The characters after `(?` count as mandatory atoms of the first
      branch. */
  function SeenEmpty(o: Open, body: Regex): bool
    decreases body, 1
  {
    var x := After(body, Flags(false, o.Capture?));
    x.some || x.cur
  }

  /** A repeated group (`*`, `+` or braces) that the scan takes for one that can match empty. */
  predicate SeenRepeat(r: Regex) {
    match r
    case Cat(a, b) => SeenRepeat(a) || SeenRepeat(b)
    case Or(a, b) => SeenRepeat(a) || SeenRepeat(b)
    case Group(_, body) => SeenRepeat(body)
    case Rep(a, op, _) => SeenRepeat(a) || (a.Group? && !op.Opt? && SeenEmpty(a.open, a.body))
    case _ => false
  }

  function Stacked(be: seq<bool>, ge: seq<bool>, f: Flags): State { State(be + [f.cur], ge + [f.some], false) }

  // ---------------------------------------------------------------- the scan of one construct

  lemma ScanOne(s: string, st: State, st': State, n: nat, rest: string)
    requires s != "" && st.Ok() && Step(s, st) == Go(st', n) && Drop(s, n) == rest
    ensures st'.Ok() && Scan(s, st) == Scan(rest, st')
  {
  }

  lemma MandatoryTop(be: seq<bool>, cur: bool, rest: string)
    ensures Mandatory(be + [cur], rest) == be + [cur && OptionalAfter(rest)]
  {
  }

  lemma {:induction false} ScanPlain(text: string, rest: string, be: seq<bool>, ge: seq<bool>, f: Flags)
    requires text != "" && AllPlain(text) && |be| == |ge|
    requires |text| == 1 || !OptionalAfter(rest)
    ensures Scan(text + rest, Stacked(be, ge, f)) ==
            Scan(rest, Stacked(be, ge, f.(cur := f.cur && OptionalAfter(rest))))
    decreases |text|
  {
    hide Scan;
    assert Plain(text[0]);
    var tail := text[1..] + rest;
    assert (text + rest)[1..] == tail;
    MandatoryTop(be, f.cur, tail);
    var g := f.(cur := f.cur && OptionalAfter(tail));
    ScanOne(text + rest, Stacked(be, ge, f), Stacked(be, ge, g), 1, tail);
    if |text| == 1 {
      assert tail == rest;
    } else {
      assert Plain(text[1]);
      ScanPlain(text[1..], rest, be, ge, g);
    }
  }

  lemma {:induction false} ScanClass(items: string, rest: string, be: seq<bool>, ge: seq<bool>, f: Flags)
    requires ClassText(items) && |be| == |ge|
    ensures Scan(items + "]" + rest, Stacked(be, ge, f).(inClass := true)) ==
            Scan(rest, Stacked(be, ge, f.(cur := f.cur && OptionalAfter(rest))))
    decreases |items|
  {
    hide Scan;
    var s, st := items + "]" + rest, Stacked(be, ge, f).(inClass := true);
    if items == "" {
      MandatoryTop(be, f.cur, rest);
      assert s[1..] == rest;
      ScanOne(s, st, Stacked(be, ge, f.(cur := f.cur && OptionalAfter(rest))), 1, rest);
    } else {
      var n := if items[0] == '\\' then 2 else 1;
      assert Drop(s, n) == items[n..] + "]" + rest;
      ScanOne(s, st, st, n, items[n..] + "]" + rest);
      ScanClass(items[n..], rest, be, ge, f);
    }
  }

  lemma StepQuantifier(op: Op, tail: string, st: State)
    requires st.Ok() && !st.inClass
    ensures Step(OpText(op) + tail, st) == Go(st, |OpText(op)|)
  {
    var s, n := OpText(op) + tail, |OpText(op)|;
    assert s[0] == OpText(op)[0];
    if s[0] == '{' {
      BraceClose(op);
      assert s[..n] == OpText(op);
      FindUnique(s, '}', 0, n - 1);
    }
  }

  /** The text of a quantifier leaves the flags alone. */
  lemma ScanQuantifier(op: Op, lazy: bool, rest: string, be: seq<bool>, ge: seq<bool>, f: Flags)
    requires |be| == |ge|
    ensures Scan(OpText(op) + LazyText(lazy) + rest, Stacked(be, ge, f)) == Scan(rest, Stacked(be, ge, f))
  {
    hide Scan, OpText;
    var st, tail := Stacked(be, ge, f), LazyText(lazy) + rest;
    var s := OpText(op) + tail;
    assert OpText(op) + LazyText(lazy) + rest == s;
    StepQuantifier(op, tail, st);
    assert Drop(s, |OpText(op)|) == tail;
    ScanOne(s, st, st, |OpText(op)|, tail);
    if lazy {
      assert tail[1..] == rest;
      ScanOne(tail, st, st, 1, rest);
    } else {
      assert tail == rest;
    }
  }

  lemma BraceClose(op: Op)
    requires OpText(op)[0] == '{'
    ensures var t := OpText(op); t[|t| - 1] == '}' && forall k :: 0 <= k < |t| - 1 ==> t[k] != '}'
    ensures OpText(op)[1] == '0' <==> op.n == 0
  {
  }

  /** What follows an atom makes it optional exactly when it is an operator whose minimum is zero. */
  lemma QuantifierIsOptional(op: Op, rest: string)
    ensures OptionalAfter(OpText(op) + rest) <==> MinZero(op)
    ensures RepeatAfter(OpText(op) + rest) <==> !op.Opt?
  {
    if OpText(op)[0] == '{' { BraceClose(op); }
  }

  lemma ScanOpen(o: Open, rest: string, be: seq<bool>, ge: seq<bool>, f: Flags)
    requires |be| == |ge| && (o.Named? ==> NameText(o.name)) && Unquantified(rest)
    ensures Scan(OpenText(o) + rest, Stacked(be, ge, f)) ==
            Scan(rest, Stacked(be + [f.cur], ge + [f.some], Flags(false, o.Capture?)))
  {
    hide Scan;
    var s, st, inner := OpenText(o) + rest, Stacked(be, ge, f), Stacked(be + [f.cur], ge + [f.some], Flags(false, true));
    var tail := OpenText(o)[1..] + rest;
    assert s[1..] == tail;
    ScanOne(s, st, inner, 1, tail);
    if o.Capture? { assert tail == rest; } else { ScanOpener(o, rest, be + [f.cur], ge + [f.some]); }
  }

  /** What follows the parenthesis of a group that is not plain reads as mandatory characters. */
  lemma ScanOpener(o: Open, rest: string, be: seq<bool>, ge: seq<bool>)
    requires |be| == |ge| && !o.Capture? && (o.Named? ==> NameText(o.name)) && Unquantified(rest)
    ensures Scan(OpenText(o)[1..] + rest, Stacked(be, ge, Flags(false, true))) ==
            Scan(rest, Stacked(be, ge, Flags(false, false)))
  {
    hide Scan;
    var tail, text, inner := OpenText(o)[1..] + rest, OpenText(o)[2..], Stacked(be, ge, Flags(false, true));
    assert AllPlain(text) by { OpenerPlain(o); }
    assert tail[1..] == text + rest;
    ScanOne(tail, inner, inner, 1, text + rest);
    ScanPlain(text, rest, be, ge, Flags(false, true));
  }

  lemma ScanClose(rest: string, be: seq<bool>, ge: seq<bool>, f: Flags, x: Flags)
    requires |be| == |ge|
    ensures var nullable := x.some || x.cur;
            Scan(")" + rest, Stacked(be + [f.cur], ge + [f.some], x)) ==
            ((nullable && RepeatAfter(rest)) ||
             Scan(rest, Stacked(be, ge, f.(cur := f.cur && (nullable || OptionalAfter(rest))))))
  {
    hide Scan;
    var s, st, nullable := ")" + rest, Stacked(be + [f.cur], ge + [f.some], x), x.some || x.cur;
    assert s[1..] == rest;
    assert st.be[..|st.be| - 1] == be + [f.cur] && st.ge[..|st.ge| - 1] == ge + [f.some];
    MandatoryTop(be, f.cur, rest);
    if nullable && RepeatAfter(rest) {
      ScanFound(s, st);
    } else {
      ScanOne(s, st, Stacked(be, ge, f.(cur := f.cur && (nullable || OptionalAfter(rest)))), 1, rest);
    }
  }

  lemma ScanFound(s: string, st: State)
    requires s != "" && st.Ok() && Step(s, st).Found?
    ensures Scan(s, st)
  {
  }

  lemma ScanAnchor(text: string, rest: string, be: seq<bool>, ge: seq<bool>, f: Flags)
    requires AnchorText(text) && Unquantified(rest) && |be| == |ge|
    ensures Scan(text + rest, Stacked(be, ge, f)) == Scan(rest, Stacked(be, ge, After(Anchor(text), f)))
  {
    hide Scan;
    MandatoryTop(be, f.cur, rest);
    assert Drop(text + rest, |text|) == rest && (text + rest)[..|text|] == text;
    ScanOne(text + rest, Stacked(be, ge, f), Stacked(be, ge, After(Anchor(text), f)), |text|, rest);
  }

  lemma ScanBar(rest: string, be: seq<bool>, ge: seq<bool>, x: Flags)
    requires |be| == |ge|
    ensures Scan("|" + rest, Stacked(be, ge, x)) == Scan(rest, Stacked(be, ge, Flags(x.some || x.cur, true)))
  {
    hide Scan;
    assert ("|" + rest)[1..] == rest;
    assert SetTop(be + [x.cur], true) == be + [true] && SetTop(ge + [x.some], x.some || x.cur) == ge + [x.some || x.cur];
    ScanOne("|" + rest, Stacked(be, ge, x), Stacked(be, ge, Flags(x.some || x.cur, true)), 1, rest);
  }

  // ---------------------------------------------------------------- the scan of a whole term

  predicate SeenAtomEmpty(r: Regex) { r.Group? && SeenEmpty(r.open, r.body) }

  /** An atom, with whatever follows it: the text after the atom decides whether it is optional or repeated. */
  lemma {:induction false} ScanAtom(r: Regex, rest: string, be: seq<bool>, ge: seq<bool>, f: Flags)
    requires Valid(r) && IsAtom(r) && |be| == |ge|
    requires (r.Lit? && |r.text| > 1) ==> !OptionalAfter(rest)
    ensures Scan(Print(r) + rest, Stacked(be, ge, f)) ==
            (SeenRepeat(r) || (SeenAtomEmpty(r) && RepeatAfter(rest)) ||
             Scan(rest, Stacked(be, ge, f.(cur := f.cur && (SeenAtomEmpty(r) || OptionalAfter(rest))))))
    decreases r, 0
  {
    hide OneCharacter, Scan, OptionalAfter, RepeatAfter;
    if r.Group? {
      var o, body := r.open, r.body;
      var inner := Print(body) + (")" + rest);
      assert Print(r) + rest == OpenText(o) + inner;
      PrintUnquantified(body);
      ScanOpen(o, inner, be, ge, f);
      ScanRegex(body, ")" + rest, be + [f.cur], ge + [f.some], Flags(false, o.Capture?));
      ScanClose(rest, be, ge, f, After(body, Flags(false, o.Capture?)));
    } else {
      ScanSingle(r, rest, be, ge, f);
    }
  }

  /** An atom that is no group is optional, or else mandatory. */
  lemma ScanSingle(r: Regex, rest: string, be: seq<bool>, ge: seq<bool>, f: Flags)
    requires Valid(r) && (r.Lit? || r.Esc? || r.Class?) && |be| == |ge|
    requires (r.Lit? && |r.text| > 1) ==> !OptionalAfter(rest)
    ensures Scan(Print(r) + rest, Stacked(be, ge, f)) ==
            Scan(rest, Stacked(be, ge, f.(cur := f.cur && OptionalAfter(rest))))
  {
    hide OneCharacter, Scan;
    var s, st := Print(r) + rest, Stacked(be, ge, f);
    match r
    case Lit(text) => CharacterPlain(text); ScanPlain(text, rest, be, ge, f);
    case Esc(c) =>
      MandatoryTop(be, f.cur, rest);
      assert Drop(s, 2) == rest;
      ScanOne(s, st, Stacked(be, ge, f.(cur := f.cur && OptionalAfter(rest))), 2, rest);
    case Class(items) =>
      assert s[1..] == items + "]" + rest;
      ScanOne(s, st, st.(inClass := true), 1, items + "]" + rest);
      ScanClass(items, rest, be, ge, f);
  }

  lemma {:induction false} ScanRep(r: Regex, rest: string, be: seq<bool>, ge: seq<bool>, f: Flags)
    requires Valid(r) && r.Rep? && |be| == |ge|
    ensures Scan(Print(r) + rest, Stacked(be, ge, f)) == (SeenRepeat(r) || Scan(rest, Stacked(be, ge, After(r, f))))
    decreases r, 0
  {
    hide OneCharacter, Scan, OpText, LazyText, OptionalAfter, RepeatAfter;
    var tail := OpText(r.op) + (LazyText(r.lazy) + rest);
    assert Print(r) + rest == Print(r.atom) + tail && tail == OpText(r.op) + LazyText(r.lazy) + rest;
    QuantifierIsOptional(r.op, LazyText(r.lazy) + rest);
    ScanAtom(r.atom, tail, be, ge, f);
    ScanQuantifier(r.op, r.lazy, rest, be, ge, After(r, f));
  }

  lemma {:induction false} ScanRegex(r: Regex, rest: string, be: seq<bool>, ge: seq<bool>, f: Flags)
    requires Valid(r) && Unquantified(rest) && |be| == |ge|
    ensures Scan(Print(r) + rest, Stacked(be, ge, f)) == (SeenRepeat(r) || Scan(rest, Stacked(be, ge, After(r, f))))
    decreases r, 1
  {
    hide OneCharacter, Scan;
    var s := Print(r) + rest;
    match r
    case Eps => assert s == rest;
    case Anchor(text) => ScanAnchor(text, rest, be, ge, f);
    case Cat(a, b) =>
      PartsText(a, b, rest);
      PrintUnquantified(b);
      ScanRegex(a, Print(b) + rest, be, ge, f);
      ScanRegex(b, rest, be, ge, After(a, f));
    case Or(a, b) =>
      var x, tail := After(a, f), "|" + (Print(b) + rest);
      PartsText(a, b, rest);
      ScanRegex(a, tail, be, ge, f);
      ScanBar(Print(b) + rest, be, ge, x);
      ScanRegex(b, rest, be, ge, Flags(x.some || x.cur, true));
    case Rep(_, _, _) => ScanRep(r, rest, be, ge, f);
    case _ => ScanAtom(r, rest, be, ge, f);
  }

  // ---------------------------------------------------------------- the groups it finds, without the flags

  /** A term with a way through that takes no character, asserts nothing but `^` and `$`, and enters no first
      alternative of a group opened by `(?`. */
  predicate Blank(r: Regex)
    decreases r, 0
  {
    match r
    case Eps => true
    case Anchor(text) => text == "^" || text == "$"
    case Cat(a, b) => Blank(a) && Blank(b)
    case Or(a, b) => Blank(a) || Blank(b)
    case Group(o, body) => BlankGroup(o, body)
    case Rep(a, op, _) => MinZero(op) || Blank(a)
    case _ => false
  }

  /** Some alternative is blank; the first one counts for a plain group only. */
  predicate BlankGroup(o: Open, body: Regex)
    decreases body, 1
  {
    if o.Capture? then Blank(body) else BlankLater(body)
  }

  /** An alternative after the first is blank. */
  predicate BlankLater(body: Regex)
    decreases body, 0
  {
    body.Or? && (BlankLater(body.a) || Blank(body.b))
  }

  /** A blank group under `*`, `+` or braces. */
  predicate BlankRepeat(r: Regex) {
    match r
    case Cat(a, b) => BlankRepeat(a) || BlankRepeat(b)
    case Or(a, b) => BlankRepeat(a) || BlankRepeat(b)
    case Group(_, body) => BlankRepeat(body)
    case Rep(a, op, _) => BlankRepeat(a) || (a.Group? && !op.Opt? && BlankGroup(a.open, a.body))
    case _ => false
  }

  /** The flags after a term: outside an alternation the current branch stays empty past a blank term only; at the
      end of a body some branch was empty when a later alternative is blank, or the first one where it counts. */
  lemma {:induction false} FlagsAreBlank(r: Regex, f: Flags)
    requires Valid(r)
    ensures var x := After(r, f);
            && (!r.Or? ==> x == Flags(f.some, f.cur && Blank(r)))
            && ((x.some || x.cur) == (f.some || BlankLater(r) || (f.cur && Blank(r))))
            && (BlankLater(r) ==> Blank(r))
    decreases r
  {
    match r
    case Cat(a, b) => FlagsAreBlank(a, f); FlagsAreBlank(b, After(a, f));
    case Or(a, b) =>
      var x := After(a, f);
      FlagsAreBlank(a, f);
      FlagsAreBlank(b, Flags(x.some || x.cur, true));
    case Group(o, body) => FlagsAreBlank(body, Flags(false, o.Capture?));
    case Rep(a, op, _) => FlagsAreBlank(a, f);
    case _ =>
  }

  lemma {:induction false} SeenIsBlank(r: Regex)
    requires Valid(r)
    ensures SeenRepeat(r) == BlankRepeat(r)
    decreases r
  {
    match r
    case Cat(a, b) => SeenIsBlank(a); SeenIsBlank(b);
    case Or(a, b) => SeenIsBlank(a); SeenIsBlank(b);
    case Group(_, body) => SeenIsBlank(body);
    case Rep(a, op, _) =>
      SeenIsBlank(a);
      if a.Group? { FlagsAreBlank(a.body, Flags(false, a.open.Capture?)); }
    case _ =>
  }

  /** The scan of a printed term, in full: it answers true exactly when a blank group is repeated. */
  lemma ScanPrinted(r: Regex)
    requires Valid(r)
    ensures Scan(Print(r), START) <==> BlankRepeat(r)
  {
    ScanRegex(r, "", [], [], Flags(false, true));
    assert Print(r) + "" == Print(r);
    assert Stacked([], [], Flags(false, true)) == START;
    SeenIsBlank(r);
  }

  // ---------------------------------------------------------------- the scan and the meaning

  /** Some group under `*`, `+` or braces matches the empty word. */
  ghost predicate RepeatsEmpty(I: Interp, r: Regex) {
    match r
    case Cat(a, b) => RepeatsEmpty(I, a) || RepeatsEmpty(I, b)
    case Or(a, b) => RepeatsEmpty(I, a) || RepeatsEmpty(I, b)
    case Group(_, body) => RepeatsEmpty(I, body)
    case Rep(a, op, _) => RepeatsEmpty(I, a) || (a.Group? && !op.Opt? && MatchesEmpty(I, a))
    case _ => false
  }

  /** Only plain `(` groups, and no anchor but `^` and `$`: the shapes the scanner's comment speaks of. */
  predicate PlainGroups(r: Regex) {
    match r
    case Anchor(text) => text == "^" || text == "$"
    case Cat(a, b) => PlainGroups(a) && PlainGroups(b)
    case Or(a, b) => PlainGroups(a) && PlainGroups(b)
    case Group(o, body) => o.Capture? && PlainGroups(body)
    case Rep(a, _, _) => PlainGroups(a)
    case _ => true
  }

  /** Blank terms can match empty; where every group is plain nothing else can. */
  lemma {:induction false} BlankMeans(r: Regex)
    requires Valid(r)
    ensures Blank(r) || BlankLater(r) ==> Nullable(r)
    ensures PlainGroups(r) ==> Blank(r) == Nullable(r)
    decreases r
  {
    match r
    case Cat(a, b) => BlankMeans(a); BlankMeans(b);
    case Or(a, b) => BlankMeans(a); BlankMeans(b);
    case Group(o, body) => BlankMeans(body); assert Blank(r) == BlankGroup(o, body);
    case Rep(a, _, _) => BlankMeans(a);
    case _ =>
  }

  lemma {:induction false} BlankRepeatMeans(I: Interp, r: Regex)
    requires Valid(r) && I.lenient
    ensures BlankRepeat(r) ==> RepeatsEmpty(I, r)
    ensures PlainGroups(r) && RepeatsEmpty(I, r) ==> BlankRepeat(r)
    decreases r
  {
    match r
    case Cat(a, b) => BlankRepeatMeans(I, a); BlankRepeatMeans(I, b);
    case Or(a, b) => BlankRepeatMeans(I, a); BlankRepeatMeans(I, b);
    case Group(_, body) => BlankRepeatMeans(I, body);
    case Rep(a, op, _) =>
      BlankRepeatMeans(I, a);
      if a.Group? {
        EmptyWordIffNullable(I, a);
        BlankMeans(a);
      }
    case _ =>
  }

  /** When the scan is right, on every valid pattern: exactly when a repeated group that matches the empty word comes
      with a repeated group that is blank. */
  lemma ScanIsRightIff(I: Interp, r: Regex)
    requires Valid(r) && I.lenient
    ensures (Scan(Print(r), START) <==> RepeatsEmpty(I, r)) <==> (RepeatsEmpty(I, r) ==> BlankRepeat(r))
  {
    ScanPrinted(r);
    BlankRepeatMeans(I, r);
  }

  /** On every pattern of plain groups the one-pass scanner answers true exactly when some group under `*`, `+`
      or braces matches the empty word, whatever the classes and escapes match. */
  lemma ScanDecidesRepeatedEmptyGroups(I: Interp, r: Regex)
    requires Valid(r) && PlainGroups(r) && I.lenient
    ensures Scan(Print(r), START) <==> RepeatsEmpty(I, r)
  {
    ScanPrinted(r);
    BlankRepeatMeans(I, r);
  }

  /** The groups of a term under `*`, `+` or braces. */
  function RepeatedGroups(r: Regex): set<Regex> {
    match r
    case Cat(a, b) => RepeatedGroups(a) + RepeatedGroups(b)
    case Or(a, b) => RepeatedGroups(a) + RepeatedGroups(b)
    case Group(_, body) => RepeatedGroups(body)
    case Rep(a, op, _) => RepeatedGroups(a) + if a.Group? && !op.Opt? then {a} else {}
    case _ => {}
  }

  lemma {:induction false} RepeatsEmptyMember(I: Interp, r: Regex, g: Regex)
    requires Valid(r) && g in RepeatedGroups(r)
    ensures Valid(g) && (MatchesEmpty(I, g) ==> RepeatsEmpty(I, r))
    decreases r
  {
    match r
    case Cat(a, b) => if g in RepeatedGroups(a) { RepeatsEmptyMember(I, a, g); } else { RepeatsEmptyMember(I, b, g); }
    case Or(a, b) => if g in RepeatedGroups(a) { RepeatsEmptyMember(I, a, g); } else { RepeatsEmptyMember(I, b, g); }
    case Group(_, body) => RepeatsEmptyMember(I, body, g);
    case Rep(a, op, _) => if g in RepeatedGroups(a) { RepeatsEmptyMember(I, a, g); }
  }

  /** What a pattern the scan lets through promises a backtracker: no repeated group ever iterates more often than it
      takes characters, on any subject and whatever the anchors do. */
  lemma PassedPatternsIterateOnText(I: Interp, r: Regex, g: Regex, n: nat, s: string, i: int, j: int)
    requires Valid(r) && PlainGroups(r) && !Scan(Print(r), START) && g in RepeatedGroups(r)
    requires 0 <= i <= j <= |s| && MatchTimes(I, g, n, s, i, j)
    ensures n <= j - i
  {
    var J := I.(lenient := true);
    ScanDecidesRepeatedEmptyGroups(J, r);
    RepeatsEmptyMember(J, r, g);
    EmptyWordIffNullable(J, g);
    IterationsConsume(I, g, n, s, i, j);
  }

  /** With every kind of group and anchor a positive answer is still right: there is no false positive. */
  lemma ScanHasNoFalsePositive(I: Interp, r: Regex)
    requires Valid(r) && I.lenient && Scan(Print(r), START)
    ensures RepeatsEmpty(I, r)
  {
    ScanPrinted(r);
    BlankRepeatMeans(I, r);
  }

  /** Outside plain groups it can miss: in `(?:b?)+` the scan reads the colon as a mandatory literal. */
  lemma ScanMissesNonCaptureGroup(I: Interp)
    requires I.lenient
    ensures var r := Rep(Group(NonCapture, Rep(Lit("b"), Opt, false)), Plus, false);
            Valid(r) && Print(r) == "(?:b?)+" && RepeatsEmpty(I, r) && !Scan(Print(r), START)
  {
    hide Scan;
    var r := Rep(Group(NonCapture, Rep(Lit("b"), Opt, false)), Plus, false);
    EmptyWordIffNullable(I, r.atom);
    ScanPrinted(r);
  }

  /** The other alternatives of such a group do count: `(?:b|)+` is found. */
  lemma ScanFindsLaterAlternative()
    ensures var r := Rep(Group(NonCapture, Or(Lit("b"), Eps)), Plus, false);
            Valid(r) && Print(r) == "(?:b|)+" && Scan(Print(r), START)
  {
    hide Scan;
    ScanPrinted(Rep(Group(NonCapture, Or(Lit("b"), Eps)), Plus, false));
  }
}

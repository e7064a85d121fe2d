/** Structural facts about a term that the generator keeps beside its text, and what they mean. */
module TermFacts {
  import opened Regex
  import opened Text

  // ---------------------------------------------------------------- capture groups and lookarounds

  /** One entry per capture group, by opening parenthesis: whether it opens inside a lookaround. */
  function Captures(r: Regex, inLook: bool): seq<bool> {
    match r
    case Cat(a, b) => Captures(a, inLook) + Captures(b, inLook)
    case Or(a, b) => Captures(a, inLook) + Captures(b, inLook)
    case Group(Look(_, _), body) => Captures(body, true)
    case Group(NonCapture, body) => Captures(body, inLook)
    case Group(_, body) => [inLook] + Captures(body, inLook)
    case Rep(a, _, _) => Captures(a, inLook)
    case _ => []
  }

  /** The groups a reader of the text finds: `look` holds, per open parenthesis, whether it is in a lookaround. */
  function FromText(s: string, look: seq<bool>, inClass: bool): seq<bool>
    requires look != []
    decreases |s|
  {
    if s == "" then []
    else
      var c, here := s[0], look[|look| - 1];
      if c == '\\' then FromText(Drop(s, 2), look, inClass)
      else if inClass then FromText(s[1..], look, c != ']')
      else if c == '[' then FromText(s[1..], look, true)
      else if c == ')' then FromText(s[1..], if |look| > 1 then look[..|look| - 1] else look, false)
      else if c != '(' then FromText(s[1..], look, false)
      else if |s| < 3 || s[1] != '?' then [here] + FromText(s[1..], look + [here], false)
      else if s[2] == ':' then FromText(s[1..], look + [here], false)
      else if s[2] == '<' && |s| > 3 && s[3] != '=' && s[3] != '!' then
        [here] + FromText(s[1..], look + [here], false)
      else FromText(s[1..], look + [true], false)
  }

  predicate Inert(s: string) { forall k :: 0 <= k < |s| ==> s[k] !in "\\[()" }

  lemma {:induction false} TextInert(text: string, rest: string, look: seq<bool>)
    requires Inert(text) && look != []
    ensures FromText(text + rest, look, false) == FromText(rest, look, false)
    decreases |text|
  {
    if text == "" {
      assert text + rest == rest;
    } else {
      assert text[0] !in "\\[()";
      assert (text + rest)[1..] == text[1..] + rest;
      TextInert(text[1..], rest, look);
    }
  }

  lemma {:induction false} TextClass(items: string, rest: string, look: seq<bool>)
    requires ClassText(items) && look != []
    ensures FromText(items + "]" + rest, look, true) == FromText(rest, look, false)
    decreases |items|
  {
    var s := items + "]" + rest;
    if items == "" {
      assert s[1..] == rest;
    } else {
      var n := if items[0] == '\\' then 2 else 1;
      assert Drop(s, n) == items[n..] + "]" + rest && (n == 1 ==> s[1..] == Drop(s, 1));
      TextClass(items[n..], rest, look);
    }
  }

  lemma TextOpen(o: Open, rest: string, look: seq<bool>, here: bool)
    requires (o.Named? ==> NameText(o.name)) && Unquantified(rest)
    ensures FromText(OpenText(o) + rest, look + [here], false) ==
            (if o.Capture? || o.Named? then [here] else []) +
            FromText(rest, look + [here] + [if o.Look? then true else here], false)
  {
    hide FromText;
    var s, tail := OpenText(o) + rest, OpenText(o)[1..];
    assert s[1..] == tail + rest;
    TextOpenHead(o, rest, look, here);
    assert Inert(tail) by { OpenerPlain(o); }
    TextInert(tail, rest, look + [here] + [if o.Look? then true else here]);
  }

  lemma TextOpenHead(o: Open, rest: string, look: seq<bool>, here: bool)
    requires (o.Named? ==> NameText(o.name)) && Unquantified(rest)
    ensures FromText(OpenText(o) + rest, look + [here], false) ==
            (if o.Capture? || o.Named? then [here] else []) +
            FromText((OpenText(o) + rest)[1..], look + [here] + [if o.Look? then true else here], false)
  {
    var s := OpenText(o) + rest;
    if o.Named? { NameChar(o.name[0]); assert s[3] == o.name[0] != '='; }
    else if o.Capture? { assert |s| > 1 ==> s[1] == rest[0]; }
  }

  /** Reading the printed text recovers the capture groups, and which of them lie inside a lookaround. */
  lemma {:induction false} TextHasCaptures(r: Regex, rest: string, look: seq<bool>, here: bool)
    requires Valid(r) && (IsAtom(r) || Unquantified(rest))
    ensures FromText(Print(r) + rest, look + [here], false) ==
            Captures(r, here) + FromText(rest, look + [here], false)
    decreases r, 1
  {
    hide FromText, Print, OneCharacter, NameText;
    match r
    case Cat(a, b) =>
      PartsText(a, b, rest);
      PrintUnquantified(b);
      TextHasCaptures(a, Print(b) + rest, look, here);
      TextHasCaptures(b, rest, look, here);
    case Or(a, b) =>
      var tail := "|" + (Print(b) + rest);
      PartsText(a, b, rest);
      TextHasCaptures(a, tail, look, here);
      TextInert("|", Print(b) + rest, look + [here]);
      TextHasCaptures(b, rest, look, here);
    case Group(_, _) => TextGroup(r, rest, look, here);
    case Rep(_, _, _) => TextRep(r, rest, look, here);
    case _ => TextLeaf(r, rest, look + [here]);
  }

  lemma TextLeaf(r: Regex, rest: string, look: seq<bool>)
    requires Valid(r) && (r.Eps? || r.Lit? || r.Esc? || r.Class? || r.Anchor?) && look != []
    ensures FromText(Print(r) + rest, look, false) == FromText(rest, look, false)
  {
    hide FromText;
    var s := Print(r) + rest;
    match r
    case Eps => assert s == rest;
    case Lit(text) => TextInert(text, rest, look);
    case Esc(_) => TextEscape(s, look, rest);
    case Class(items) => TextClassOpen(items, rest, look);
    case Anchor(text) => if text[0] == '\\' { TextEscape(s, look, rest); } else { TextInert(text, rest, look); }
  }

  lemma {:induction false} TextGroup(r: Regex, rest: string, look: seq<bool>, here: bool)
    requires Valid(r) && r.Group?
    ensures FromText(Print(r) + rest, look + [here], false) ==
            Captures(r, here) + FromText(rest, look + [here], false)
    decreases r, 0
  {
    hide FromText;
    var o, body := r.open, r.body;
    var inner := if o.Look? then true else here;
    assert Print(r) + rest == OpenText(o) + (Print(body) + (")" + rest));
    PrintUnquantified(body);
    TextOpen(o, Print(body) + (")" + rest), look, here);
    TextHasCaptures(body, ")" + rest, look + [here], inner);
    TextClose(rest, look, here, inner);
  }

  lemma {:induction false} TextRep(r: Regex, rest: string, look: seq<bool>, here: bool)
    requires Valid(r) && r.Rep?
    ensures FromText(Print(r) + rest, look + [here], false) ==
            Captures(r, here) + FromText(rest, look + [here], false)
    decreases r, 0
  {
    hide FromText;
    var q := OpText(r.op) + LazyText(r.lazy);
    assert Print(r) + rest == Print(r.atom) + (q + rest);
    TextHasCaptures(r.atom, q + rest, look, here);
    OpInert(r.op, r.lazy);
    TextInert(q, rest, look + [here]);
  }

  lemma OpInert(op: Op, lazy: bool)
    ensures Inert(OpText(op) + LazyText(lazy))
  {
    QuantifierChars(op, lazy);
  }

  lemma TextEscape(s: string, look: seq<bool>, rest: string)
    requires |s| >= 2 && s[0] == '\\' && s[2..] == rest && look != []
    ensures FromText(s, look, false) == FromText(rest, look, false)
  {
  }

  lemma TextClassOpen(items: string, rest: string, look: seq<bool>)
    requires ClassText(items) && look != []
    ensures FromText("[" + items + "]" + rest, look, false) == FromText(rest, look, false)
  {
    assert ("[" + items + "]" + rest)[1..] == items + "]" + rest;
    TextClass(items, rest, look);
  }

  lemma TextClose(rest: string, look: seq<bool>, here: bool, inner: bool)
    ensures FromText(")" + rest, look + [here] + [inner], false) == FromText(rest, look + [here], false)
  {
    assert (")" + rest)[1..] == rest;
    var l := look + [here] + [inner];
    assert l[..|l| - 1] == look + [here];
  }

  // ---------------------------------------------------------------- nullable loops

  predicate CanIterateTwice(op: Op) {
    match op
    case Star => true
    case Plus => true
    case Opt => false
    case Exactly(n) => n >= 2
    case AtLeast(_) => true
    case Between(_, m) => m >= 2
  }

  lemma TwiceIsAllowed(op: Op)
    requires op.Between? ==> op.n <= op.m
    ensures CanIterateTwice(op) <==> exists n: nat :: n >= 2 && Allowed(op, n)
  {
    if CanIterateTwice(op) {
      var n: nat := match op case Star => 2 case Plus => 2 case Opt => 2 case Exactly(k) => k
                             case AtLeast(k) => k + 2 case Between(_, m) => m;
      assert n >= 2 && Allowed(op, n);
    }
  }

  /** A repeat able to iterate twice over a nullable body. */
  predicate HasLoop(r: Regex) {
    match r
    case Cat(a, b) => HasLoop(a) || HasLoop(b)
    case Or(a, b) => HasLoop(a) || HasLoop(b)
    case Group(_, body) => HasLoop(body)
    case Rep(a, op, _) => HasLoop(a) || (CanIterateTwice(op) && Nullable(a))
    case _ => false
  }

  /** A repeat that allows two iterations or more of a body whose language contains the empty word. */
  ghost predicate LoopsOnEmpty(I: Interp, r: Regex) {
    match r
    case Cat(a, b) => LoopsOnEmpty(I, a) || LoopsOnEmpty(I, b)
    case Or(a, b) => LoopsOnEmpty(I, a) || LoopsOnEmpty(I, b)
    case Group(_, body) => LoopsOnEmpty(I, body)
    case Rep(a, op, _) => LoopsOnEmpty(I, a) || ((exists n: nat :: n >= 2 && Allowed(op, n)) && MatchesEmpty(I, a))
    case _ => false
  }

  lemma {:induction false} LoopMeansEmpty(I: Interp, r: Regex)
    requires Valid(r) && I.lenient
    ensures HasLoop(r) <==> LoopsOnEmpty(I, r)
    decreases r
  {
    match r
    case Cat(a, b) => LoopMeansEmpty(I, a); LoopMeansEmpty(I, b);
    case Or(a, b) => LoopMeansEmpty(I, a); LoopMeansEmpty(I, b);
    case Group(_, body) => LoopMeansEmpty(I, body);
    case Rep(a, op, _) =>
      LoopMeansEmpty(I, a);
      TwiceIsAllowed(op);
      EmptyWordIffNullable(I, a);
    case _ =>
  }

  // ---------------------------------------------------------------- bounded terms

  /** No repeat without a finite maximum. */
  predicate Bounded(r: Regex) {
    match r
    case Cat(a, b) => Bounded(a) && Bounded(b)
    case Or(a, b) => Bounded(a) && Bounded(b)
    case Group(o, body) => o.Look? || Bounded(body)
    case Rep(a, op, _) => (op.Opt? || op.Exactly? || op.Between?) && Bounded(a)
    case _ => true
  }

  function Most(op: Op): nat { match op case Exactly(n) => n case Between(_, m) => m case _ => 1 }

  /** The longest text a bounded term matches. */
  function Width(r: Regex): nat {
    match r
    case Eps => 0
    case Anchor(_) => 0
    case Cat(a, b) => Width(a) + Width(b)
    case Or(a, b) => if Width(a) < Width(b) then Width(b) else Width(a)
    case Group(o, body) => if o.Look? then 0 else Width(body)
    case Rep(a, op, _) => Most(op) * Width(a)
    case _ => 1
  }

  /** On every subject, and however assertions evaluate, a bounded term matches no more than its width. */
  lemma {:induction false} WidthBounds(I: Interp, r: Regex, s: string, i: int, j: int)
    requires 0 <= i <= j <= |s| && Bounded(r) && Match(I, r, s, i, j)
    ensures j - i <= Width(r)
    decreases r, 0
  {
    match r
    case Cat(a, b) =>
      var k :| i <= k <= j && Match(I, a, s, i, k) && Match(I, b, s, k, j);
      WidthBounds(I, a, s, i, k);
      WidthBounds(I, b, s, k, j);
    case Or(a, b) => if Match(I, a, s, i, j) { WidthBounds(I, a, s, i, j); } else { WidthBounds(I, b, s, i, j); }
    case Group(o, body) => if !o.Look? { WidthBounds(I, body, s, i, j); }
    case Rep(a, op, _) =>
      var n: nat :| Allowed(op, n) && MatchTimes(I, a, n, s, i, j);
      WidthTimes(I, a, n, s, i, j);
      MulMonotone(n, Most(op), Width(a));
    case _ =>
  }

  lemma {:induction false} WidthTimes(I: Interp, r: Regex, n: nat, s: string, i: int, j: int)
    requires 0 <= i <= j <= |s| && Bounded(r) && MatchTimes(I, r, n, s, i, j)
    ensures j - i <= n * Width(r)
    decreases r, n + 1
  {
    if n > 0 {
      var k :| i <= k <= j && Match(I, r, s, i, k) && MatchTimes(I, r, n - 1, s, k, j);
      WidthBounds(I, r, s, i, k);
      WidthTimes(I, r, n - 1, s, k, j);
      assert n * Width(r) == (n - 1) * Width(r) + Width(r);
    }
  }

  lemma MulMonotone(a: nat, b: nat, w: nat)
    requires a <= b
    ensures a * w <= b * w
  {
  }

  /** Every lookaround has a bounded body with no lookaround inside it. */
  predicate LooksBounded(r: Regex, inLook: bool) {
    match r
    case Cat(a, b) => LooksBounded(a, inLook) && LooksBounded(b, inLook)
    case Or(a, b) => LooksBounded(a, inLook) && LooksBounded(b, inLook)
    case Group(Look(_, _), body) => !inLook && Bounded(body) && LooksBounded(body, true)
    case Group(_, body) => LooksBounded(body, inLook)
    case Rep(a, _, _) => LooksBounded(a, inLook)
    case _ => true
  }

  /** The bodies of the lookarounds in a term. */
  function LookBodies(r: Regex): set<Regex> {
    match r
    case Cat(a, b) => LookBodies(a) + LookBodies(b)
    case Or(a, b) => LookBodies(a) + LookBodies(b)
    case Group(o, body) => (if o.Look? then {body} else {}) + LookBodies(body)
    case Rep(a, _, _) => LookBodies(a)
    case _ => {}
  }

  lemma {:induction false} LookBodiesBounded(r: Regex, inLook: bool, body: Regex)
    requires LooksBounded(r, inLook) && body in LookBodies(r)
    ensures Bounded(body) && LookBodies(body) == {}
    decreases r
  {
    match r
    case Cat(a, b) =>
      if body in LookBodies(a) { LookBodiesBounded(a, inLook, body); } else { LookBodiesBounded(b, inLook, body); }
    case Or(a, b) =>
      if body in LookBodies(a) { LookBodiesBounded(a, inLook, body); } else { LookBodiesBounded(b, inLook, body); }
    case Group(o, b) =>
      if o.Look? { NoInnerLook(b); } else { LookBodiesBounded(b, inLook, body); }
    case Rep(a, _, _) => LookBodiesBounded(a, inLook, body);
  }

  lemma {:induction false} NoInnerLook(r: Regex)
    requires LooksBounded(r, true)
    ensures LookBodies(r) == {}
    decreases r
  {
    match r
    case Cat(a, b) => NoInnerLook(a); NoInnerLook(b);
    case Or(a, b) => NoInnerLook(a); NoInnerLook(b);
    case Group(_, body) => NoInnerLook(body);
    case Rep(a, _, _) => NoInnerLook(a);
    case _ =>
  }

  /** In a term whose lookarounds are bounded, a lookaround's body reaches no further than a computable length,
      on every subject and wherever it is tried. */
  lemma LookaroundReach(I: Interp, r: Regex, body: Regex, s: string, i: int, j: int)
    requires LooksBounded(r, false) && body in LookBodies(r)
    requires 0 <= i <= j <= |s| && Match(I, body, s, i, j)
    ensures j - i <= Width(body)
  {
    LookBodiesBounded(r, false, body);
    WidthBounds(I, body, s, i, j);
  }

  /** How deep groups nest. */
  function Nesting(r: Regex): nat {
    match r
    case Cat(a, b) => if Nesting(a) < Nesting(b) then Nesting(b) else Nesting(a)
    case Or(a, b) => if Nesting(a) < Nesting(b) then Nesting(b) else Nesting(a)
    case Group(_, body) => 1 + Nesting(body)
    case Rep(a, _, _) => Nesting(a)
    case _ => 0
  }
}

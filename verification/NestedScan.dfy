/** `nested_unbounded_quantifier` of fuzz/fuzz_compat.cpp: one pass over pattern text, one integer for a stack. */
module NestedScan {
  import opened Decimal
  import opened Regex
  import opened Text

  /** `quantAt` is the depth of the latest `*` or `+`; -1 before the first. */
  datatype State = State(depth: nat, quantAt: int, inClass: bool)

  /** One turn of the loop at the head of the remaining text: the new state and how much text it takes. */
  function Step(s: string, st: State): (x: Next<State>)
    requires s != ""
    ensures x.Go? ==> x.n > 0
  {
    var c := s[0];
    if c == '\\' then Go(st, 2)
    else if st.inClass then Go(st.(inClass := c != ']'), 1)
    else if c == '[' then Go(st.(inClass := true), 1)
    else if c == '(' then Go(st.(depth := st.depth + 1), 1)
    else if c == ')' then
      if RepeatAfter(s[1..]) && st.quantAt >= st.depth then Found
      else Go(State(if st.depth > 0 then st.depth - 1 else 0,
                    if st.quantAt >= st.depth then st.depth - 1 else st.quantAt, false), 1)
    else if c == '*' || c == '+' then Go(st.(quantAt := st.depth), 1)
    else Go(st, 1)
  }

  function Scan(s: string, st: State): bool
    decreases |s|
  {
    if s == "" then false
    else match Step(s, st)
      case Found => true
      case Go(st', n) => Scan(Drop(s, n), st')
  }

  lemma ScanStep(s: string, i: nat, st: State)
    requires i < |s|
    ensures match Step(Drop(s, i), st)
            case Found => Scan(Drop(s, i), st)
            case Go(st', n) => Scan(Drop(s, i), st) == Scan(Drop(s, i + n), st')
  {
    hide Step;
    match Step(Drop(s, i), st)
    case Found =>
    case Go(_, n) => DropDrop(s, i, n);
  }

  const START := State(0, -1, false)

  /** The scanner itself, over every text. */
  method NestedUnboundedQuantifier(pat: string) returns (found: bool)
    ensures found == Scan(pat, START)
  {
    hide Scan;
    var depth := 0;
    var quantAt := -1;
    var inClass := false;
    var i := 0;
    while i < |pat|
      invariant 0 <= depth
      invariant Scan(Drop(pat, i), State(depth, quantAt, inClass)) == Scan(pat, START)
      decreases |pat| - i
    {
      ghost var i0, next := i, Step(Drop(pat, i), State(depth, quantAt, inClass));
      ScanStep(pat, i, State(depth, quantAt, inClass));
      var c := pat[i];
      assert Drop(pat, i)[1..] == Drop(pat, i + 1);
      if c == '\\' {
        i := i + 1;
      } else if inClass {
        inClass := c != ']';
      } else if c == '[' {
        inClass := true;
      } else if c == '(' {
        depth := depth + 1;
      } else if c == ')' {
        var quantified := i + 1 < |pat| && (pat[i + 1] == '*' || pat[i + 1] == '+' || pat[i + 1] == '{');
        if quantified && quantAt >= depth {
          return true; // the repeated group held a star or plus
        }
        if quantAt >= depth {
          quantAt := depth - 1; // the mark passes to the enclosing group
        }
        if depth > 0 {
          depth := depth - 1;
        }
      } else if c == '*' || c == '+' {
        quantAt := depth;
      }
      i := i + 1;
      assert next == Go(State(depth, quantAt, inClass), i - i0);
    }
    ScanEnd(pat, i, State(depth, quantAt, inClass));
    return false;
  }

  lemma ScanEnd(s: string, i: nat, st: State)
    requires i >= |s|
    ensures !Scan(Drop(s, i), st)
  {
  }

  // ---------------------------------------------------------------- the integer stands for a stack

  /** The stack the integer replaces: per open group, whether a `*` or `+` has been seen inside it. Closing a
      group hands its flag down; a stray `)` clears the bottom one. */
  datatype Seen = Seen(open: seq<bool>, inClass: bool)

  function StackStep(s: string, st: Seen): (x: Next<Seen>)
    requires s != "" && st.open != []
    ensures x.Go? ==> x.n > 0 && x.st.open != []
  {
    var c, d := s[0], |st.open| - 1;
    if c == '\\' then Go(st, 2)
    else if st.inClass then Go(st.(inClass := c != ']'), 1)
    else if c == '[' then Go(st.(inClass := true), 1)
    else if c == '(' then Go(st.(open := st.open + [false]), 1)
    else if c == ')' then
      if RepeatAfter(s[1..]) && st.open[d] then Found
      else if d == 0 then Go(st.(open := [false]), 1)
      else Go(st.(open := st.open[..d - 1] + [st.open[d - 1] || st.open[d]]), 1)
    else if c == '*' || c == '+' then Go(st.(open := st.open[d := true]), 1)
    else Go(st, 1)
  }

  function StackScan(s: string, st: Seen): bool
    requires st.open != []
    decreases |s|
  {
    if s == "" then false
    else match StackStep(s, st)
      case Found => true
      case Go(st', n) => StackScan(Drop(s, n), st')
  }

  /** The innermost open group whose flag is set, -1 for none. */
  function Innermost(open: seq<bool>): (k: int)
    ensures -1 <= k < |open|
    ensures k >= 0 ==> open[k]
    ensures forall m :: k < m < |open| ==> !open[m]
  {
    if open == [] then -1 else if open[|open| - 1] then |open| - 1 else Innermost(open[..|open| - 1])
  }

  function Compress(st: Seen): State
    requires st.open != []
  {
    State(|st.open| - 1, Innermost(st.open), st.inClass)
  }

  lemma InnermostIs(open: seq<bool>, k: int)
    requires -1 <= k < |open| && (k >= 0 ==> open[k]) && forall m :: k < m < |open| ==> !open[m]
    ensures Innermost(open) == k
  {
  }

  /** Opening, marking and closing on the stack, as the integer sees them. */
  lemma InnermostMoves(open: seq<bool>)
    requires open != []
    ensures var d := |open| - 1;
            && Innermost(open + [false]) == Innermost(open)
            && Innermost(open[d := true]) == d
            && (open[d] <==> Innermost(open) == d)
            && (d > 0 ==> Innermost(open[..d - 1] + [open[d - 1] || open[d]]) ==
                          if open[d] then d - 1 else Innermost(open))
  {
    var d, k := |open| - 1, Innermost(open);
    InnermostIs(open + [false], k);
    InnermostIs(open[d := true], d);
    if d > 0 { InnermostIs(open[..d - 1] + [open[d - 1] || open[d]], if open[d] then d - 1 else k); }
  }

  /** One step on the stack compresses to one step on the integer. */
  lemma StepCompresses(s: string, st: Seen)
    requires s != "" && st.open != []
    ensures Step(s, Compress(st)) == match StackStep(s, st)
                                     case Found => Next<State>.Found
                                     case Go(st', n) => Go(Compress(st'), n)
  {
    hide Innermost;
    InnermostMoves(st.open);
    if s[0] == ')' && !st.inClass { CloseCompresses(s, st); }
  }

  lemma CloseCompresses(s: string, st: Seen)
    requires s != "" && st.open != [] && s[0] == ')' && !st.inClass
    ensures Step(s, Compress(st)) == match StackStep(s, st)
                                     case Found => Next<State>.Found
                                     case Go(st', n) => Go(Compress(st'), n)
  {
    hide RepeatAfter, Innermost;
    InnermostMoves(st.open);
    InnermostIs([false], -1);
  }

  /** On every text, balanced or not, the integer answers as the stack does. */
  lemma {:induction false} IntegerIsFaithful(s: string, st: Seen)
    requires st.open != []
    ensures Scan(s, Compress(st)) == StackScan(s, st)
    decreases |s|
  {
    hide Step, StackStep, Compress;
    if s != "" {
      StepCompresses(s, st);
      match StackStep(s, st)
      case Found =>
      case Go(st', n) => IntegerIsFaithful(Drop(s, n), st');
    }
  }

  // ---------------------------------------------------------------- what the scan decides

  predicate Starred(op: Op) { op.Star? || op.Plus? }

  /** A `*` or `+` (`braces` false), or an open-ended `{n,}` (`braces` true), at any depth. */
  predicate Contains(r: Regex, braces: bool) {
    match r
    case Cat(a, b) => Contains(a, braces) || Contains(b, braces)
    case Or(a, b) => Contains(a, braces) || Contains(b, braces)
    case Group(_, body) => Contains(body, braces)
    case Rep(a, op, _) => (if braces then op.AtLeast? else Starred(op)) || Contains(a, braces)
    case _ => false
  }

  /** A group under `*`, `+` or braces contains such a quantifier. */
  predicate Nested(r: Regex, braces: bool) {
    match r
    case Cat(a, b) => Nested(a, braces) || Nested(b, braces)
    case Or(a, b) => Nested(a, braces) || Nested(b, braces)
    case Group(_, body) => Nested(body, braces)
    case Rep(a, op, _) => Nested(a, braces) || (a.Group? && !op.Opt? && Contains(a.body, braces))
    case _ => false
  }

  lemma ScanOne(s: string, st: State, st': State, n: nat, rest: string)
    requires s != "" && Step(s, st) == Go(st', n) && Drop(s, n) == rest
    ensures Scan(s, st) == Scan(rest, st')
  {
  }

  /** Characters the scan has no rule for. */
  predicate Inert(s: string) { forall k :: 0 <= k < |s| ==> s[k] !in "\\[()*+" }

  lemma {:induction false} ScanInert(text: string, rest: string, st: State)
    requires Inert(text) && !st.inClass
    ensures Scan(text + rest, st) == Scan(rest, st)
    decreases |text|
  {
    hide Scan;
    if text == "" {
      assert text + rest == rest;
    } else {
      assert text[0] !in "\\[()*+";
      assert (text + rest)[1..] == text[1..] + rest;
      ScanOne(text + rest, st, st, 1, text[1..] + rest);
      ScanInert(text[1..], rest, st);
    }
  }

  lemma {:induction false} ScanClass(items: string, rest: string, st: State)
    requires ClassText(items) && !st.inClass
    ensures Scan(items + "]" + rest, st.(inClass := true)) == Scan(rest, st)
    decreases |items|
  {
    hide Scan;
    var s, inside := items + "]" + rest, st.(inClass := true);
    if items == "" {
      assert s[1..] == rest;
      ScanOne(s, inside, st, 1, rest);
    } else {
      var n := if items[0] == '\\' then 2 else 1;
      assert Drop(s, n) == items[n..] + "]" + rest;
      ScanOne(s, inside, inside, n, items[n..] + "]" + rest);
      ScanClass(items[n..], rest, st);
    }
  }

  lemma ScanQuantifier(op: Op, lazy: bool, rest: string, st: State)
    requires !st.inClass
    ensures Scan(OpText(op) + LazyText(lazy) + rest, st) ==
            Scan(rest, if Starred(op) then st.(quantAt := st.depth) else st)
  {
    hide Scan;
    if Starred(op) {
      var st' := st.(quantAt := st.depth);
      var tail := LazyText(lazy) + rest;
      assert (OpText(op) + LazyText(lazy) + rest)[1..] == tail;
      ScanOne(OpText(op) + LazyText(lazy) + rest, st, st', 1, tail);
      ScanInert(LazyText(lazy), rest, st');
    } else {
      assert Inert(OpText(op) + LazyText(lazy)) by { QuantifierChars(op, lazy); }
      ScanInert(OpText(op) + LazyText(lazy), rest, st);
    }
  }

  lemma ScanOpen(o: Open, rest: string, st: State)
    requires !st.inClass && (o.Named? ==> NameText(o.name))
    ensures Scan(OpenText(o) + rest, st) == Scan(rest, st.(depth := st.depth + 1))
  {
    hide Scan;
    var tail := OpenText(o)[1..];
    assert (OpenText(o) + rest)[1..] == tail + rest;
    ScanOne(OpenText(o) + rest, st, st.(depth := st.depth + 1), 1, tail + rest);
    assert Inert(tail) by { OpenerPlain(o); }
    ScanInert(tail, rest, st.(depth := st.depth + 1));
  }

  /** The state after text that holds a `*` or `+`, or does not. */
  function Mark(st: State, seen: bool): State { if seen then st.(quantAt := st.depth) else st }

  lemma {:induction false} ScanAtom(r: Regex, rest: string, st: State)
    requires Valid(r) && IsAtom(r) && !st.inClass && st.quantAt <= st.depth
    ensures Scan(Print(r) + rest, st) ==
            (Nested(r, false) || (r.Group? && Contains(r, false) && RepeatAfter(rest)) ||
             Scan(rest, Mark(st, Contains(r, false))))
    decreases r, 0
  {
    hide OneCharacter, Scan;
    var s := Print(r) + rest;
    match r
    case Lit(text) => CharacterPlain(text); ScanInert(text, rest, st);
    case Esc(_) =>
      assert Drop(s, 2) == rest;
      ScanOne(s, st, st, 2, rest);
    case Class(items) =>
      assert s[1..] == items + "]" + rest;
      ScanOne(s, st, st.(inClass := true), 1, items + "]" + rest);
      ScanClass(items, rest, st);
    case Group(o, body) =>
      var inner := st.(depth := st.depth + 1);
      assert s == OpenText(o) + (Print(body) + (")" + rest));
      ScanOpen(o, Print(body) + (")" + rest), st);
      ScanRegex(body, ")" + rest, inner);
      ScanClose(rest, st, Contains(body, false));
  }

  lemma ScanClose(rest: string, st: State, seen: bool)
    requires !st.inClass && st.quantAt <= st.depth
    ensures Scan(")" + rest, Mark(st.(depth := st.depth + 1), seen)) ==
            ((seen && RepeatAfter(rest)) || Scan(rest, Mark(st, seen)))
  {
    hide Scan;
    var s, inner := ")" + rest, Mark(st.(depth := st.depth + 1), seen);
    assert s[1..] == rest;
    if seen && RepeatAfter(rest) {
      ScanFound(s, inner);
    } else {
      ScanOne(s, inner, Mark(st, seen), 1, rest);
    }
  }

  lemma ScanFound(s: string, st: State)
    requires s != "" && Step(s, st).Found?
    ensures Scan(s, st)
  {
  }

  lemma ScanAnchor(text: string, rest: string, st: State)
    requires AnchorText(text) && !st.inClass
    ensures Scan(text + rest, st) == Scan(rest, st)
  {
    hide Scan;
    if text[0] == '\\' {
      assert Drop(text + rest, 2) == rest;
      ScanOne(text + rest, st, st, 2, rest);
    } else {
      ScanInert(text, rest, st);
    }
  }

  lemma {:induction false} ScanRep(r: Regex, rest: string, st: State)
    requires Valid(r) && r.Rep? && Unquantified(rest) && !st.inClass && st.quantAt <= st.depth
    ensures Scan(Print(r) + rest, st) == (Nested(r, false) || Scan(rest, Mark(st, Contains(r, false))))
    decreases r, 0
  {
    hide OneCharacter, Scan;
    var tail := OpText(r.op) + (LazyText(r.lazy) + rest);
    assert Print(r) + rest == Print(r.atom) + tail && tail == OpText(r.op) + LazyText(r.lazy) + rest;
    ScanAtom(r.atom, tail, st);
    ScanQuantifier(r.op, r.lazy, rest, Mark(st, Contains(r.atom, false)));
  }

  lemma {:induction false} ScanRegex(r: Regex, rest: string, st: State)
    requires Valid(r) && Unquantified(rest) && !st.inClass && st.quantAt <= st.depth
    ensures Scan(Print(r) + rest, st) == (Nested(r, false) || Scan(rest, Mark(st, Contains(r, false))))
    decreases r, 1
  {
    hide OneCharacter, Scan;
    var s := Print(r) + rest;
    match r
    case Eps => assert s == rest;
    case Anchor(text) => ScanAnchor(text, rest, st);
    case Cat(a, b) =>
      PartsText(a, b, rest);
      PrintUnquantified(b);
      ScanRegex(a, Print(b) + rest, st);
      ScanRegex(b, rest, Mark(st, Contains(a, false)));
    case Or(a, b) =>
      var st' := Mark(st, Contains(a, false));
      PartsText(a, b, rest);
      ScanRegex(a, "|" + (Print(b) + rest), st);
      ScanInert("|", Print(b) + rest, st');
      ScanRegex(b, rest, st');
    case Rep(_, _, _) => ScanRep(r, rest, st);
    case _ => ScanAtom(r, rest, st);
  }

  /** On every valid pattern, with groups of every kind, the scan answers true exactly when some group under `*`,
      `+` or braces contains a `*` or `+` at any depth. */
  lemma ScanDecidesNesting(r: Regex)
    requires Valid(r)
    ensures Scan(Print(r), START) <==> Nested(r, false)
  {
    ScanRegex(r, "", START);
    assert Print(r) + "" == Print(r);
  }

  /** The whole promise: a repeated group or class with an unbounded quantifier inside. */
  predicate Promised(r: Regex) {
    match r
    case Cat(a, b) => Promised(a) || Promised(b)
    case Or(a, b) => Promised(a) || Promised(b)
    case Group(_, body) => Promised(body)
    case Rep(a, op, _) =>
      Promised(a) || ((a.Group? || a.Class?) && !op.Opt? && (Contains(a, false) || Contains(a, true)))
    case _ => false
  }

  /** Classes add nothing to it: whatever characters a class lists, it holds no quantifier. */
  lemma {:induction false} PromiseIsNesting(r: Regex)
    ensures Promised(r) <==> Nested(r, false) || Nested(r, true)
    decreases r
  {
    match r
    case Cat(a, b) => PromiseIsNesting(a); PromiseIsNesting(b);
    case Or(a, b) => PromiseIsNesting(a); PromiseIsNesting(b);
    case Group(_, body) => PromiseIsNesting(body);
    case Rep(a, _, _) => PromiseIsNesting(a);
    case _ =>
  }

  /** The promise is about every unbounded quantifier; the scan reads only `*` and `+`. It keeps the promise
      exactly when a repeated group holding `{n,}` comes with a repeated group holding `*` or `+`. */
  lemma ScanKeepsPromiseIff(r: Regex)
    requires Valid(r)
    ensures (Scan(Print(r), START) <==> Promised(r)) <==> (Nested(r, true) ==> Nested(r, false))
  {
    ScanDecidesNesting(r);
    PromiseIsNesting(r);
  }

  /** `(a{2,})+` breaks the promise. */
  lemma ScanMissesOpenEndedBraces()
    ensures var r := Rep(Group(Capture, Rep(Lit("a"), AtLeast(2), false)), Plus, false);
            Valid(r) && Print(r) == "(a{2,})+" && Promised(r) && !Scan(Print(r), START)
  {
    hide Scan, Valid, Print, Promised, Nested;
    var inner := Rep(Lit("a"), AtLeast(2), false);
    var r := Rep(Group(Capture, inner), Plus, false);
    OpenEndedTerm();
    RepeatedGroup(inner);
    ScanDecidesNesting(r);
    PromiseIsNesting(r);
  }

  lemma OpenEndedTerm()
    ensures var inner := Rep(Lit("a"), AtLeast(2), false);
            Valid(inner) && Print(inner) == "a{2,}" && Contains(inner, true) && !Contains(inner, false) && !Nested(inner, false)
  {
    assert Numeral(2) == "2";
  }

  lemma RepeatedGroup(body: Regex)
    requires Valid(body)
    ensures var r := Rep(Group(Capture, body), Plus, false);
            Valid(r) && Print(r) == "(" + Print(body) + ")+" &&
            forall braces :: Nested(r, braces) == (Nested(body, braces) || Contains(body, braces))
  {
  }
}

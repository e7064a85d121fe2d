/** `empty_alternatives_explode` of fuzz/fuzz_compat.cpp: per depth, how many alternatives hold no atom. */
module ExplodeScan {
  import opened Decimal
  import opened Regex
  import opened Text

  const MAX_PATHS := 100_000

  function Pow(k: nat, r: nat): nat { if r == 0 then 1 else k * Pow(k, r - 1) }

  function Max(a: nat, b: nat): nat { if a < b then b else a }

  predicate TooMany(k: nat, repeats: nat) { k >= 2 && Pow(k, repeats) > MAX_PATHS }

  /** `empty`: per open group, the alternatives closed so far that hold no atom; `blank`: the current one holds none. */
  datatype State = State(empty: seq<nat>, blank: seq<bool>, inClass: bool) {
    predicate Ok() { empty != [] && |empty| == |blank| }

    function Stale(): State
      requires Ok()
    {
      this.(blank := blank[|blank| - 1 := false])
    }

    /** Empty alternatives of the innermost open group, were it to close here. */
    function Total(): nat
      requires Ok()
    {
      empty[|empty| - 1] + if blank[|blank| - 1] then 1 else 0
    }
  }

  /** How often the quantifier at the head of `s` repeats at most; 2 stands for star and plus, 1 for none at all. */
  function RepeatsAfter(s: string): nat {
    if s == "" then 1
    else if s[0] == '*' || s[0] == '+' then 2
    else if s[0] != '{' then 1
    else
      var (n, k) := Read(s[1..], 0);
      var t := s[1 + k..];
      if t == "" || t[0] != ',' then n
      else if |t| > 1 && t[1] == '}' then n + 2
      else Max(n, Read(t[1..], 0).0)
  }

  /** First index at or after `k` that ends a group name or a lookbehind opener; `|s|` when there is none. */
  function NameEnd(s: string, k: nat): (m: nat)
    requires k <= |s|
    ensures k <= m <= |s|
    decreases |s| - k
  {
    if k == |s| || s[k] == '>' || s[k] == '=' || s[k] == '!' then k else NameEnd(s, k + 1)
  }

  /** How much text a group opener takes. */
  function OpenerLength(s: string): (n: nat)
    ensures n > 0
  {
    if |s| > 1 && s[1] == '?' then if |s| > 2 && s[2] == '<' then NameEnd(s, 2) + 1 else 3 else 1
  }

  /** One turn of the loop at the head of the remaining text: the new state and how much text it takes. */
  function Step(s: string, st: State): (x: Next<State>)
    requires s != "" && st.Ok()
    ensures x.Go? ==> x.st.Ok() && x.n > 0
  {
    var c, d := s[0], |st.empty| - 1;
    if st.inClass then if c == '\\' then Go(st, 2) else Go(st.(inClass := c != ']'), 1)
    else if c == '\\' then Go(st.Stale(), 2)
    else if c == '[' then Go(st.Stale().(inClass := true), 1)
    else if c == '(' then Go(State(st.empty + [0], st.Stale().blank + [true], false), OpenerLength(s))
    else if c == '|' then Go(State(st.empty[d := st.Total()], st.blank[d := true], false), 1)
    else if c == ')' && d > 0 then
      if TooMany(st.Total(), RepeatsAfter(s[1..])) then Found
      else Go(State(st.empty[..d], st.blank[..d], false), 1)
    else Go(st.Stale(), 1)
  }

  function Scan(s: string, st: State): bool
    requires st.Ok()
    decreases |s|
  {
    if s == "" then false
    else match Step(s, st)
      case Found => true
      case Go(st', n) => Scan(Drop(s, n), st')
  }

  lemma ScanStep(s: string, i: nat, st: State)
    requires i < |s| && st.Ok()
    ensures match Step(Drop(s, i), st)
            case Found => Scan(Drop(s, i), st)
            case Go(st', n) => Scan(Drop(s, i), st) == Scan(Drop(s, i + n), st')
  {
    hide Step;
    match Step(Drop(s, i), st)
    case Found =>
    case Go(_, n) => DropDrop(s, i, n);
  }

  lemma ScanEnd(s: string, i: nat, st: State)
    requires i >= |s| && st.Ok()
    ensures !Scan(Drop(s, i), st)
  {
  }

  const START := State([0], [true], false)

  lemma ReadStep(pat: string, k: nat, v: nat)
    requires k < |pat| && IsDigit(pat[k])
    ensures var x := Read(Drop(pat, k + 1), v * 10 + Digit(pat[k])); Read(Drop(pat, k), v) == (x.0, x.1 + 1)
  {
    assert Drop(pat, k)[1..] == Drop(pat, k + 1);
  }

  lemma ReadStops(pat: string, k: nat, v: nat)
    requires k <= |pat| && (k < |pat| ==> !IsDigit(pat[k]))
    ensures Read(Drop(pat, k), v) == (v, 0)
  {
  }

  /** Digits from `j` on, accumulated onto `acc`. */
  method ReadDigitsAt(pat: string, j: nat, acc: nat) returns (v: nat, k: nat)
    requires j <= |pat|
    ensures j <= k <= |pat| && (v, k - j) == Read(Drop(pat, j), acc)
  {
    hide Read, Drop;
    v, k := acc, j;
    ghost var all := Read(Drop(pat, j), acc);
    while k < |pat| && '0' <= pat[k] <= '9'
      invariant j <= k <= |pat|
      invariant Read(Drop(pat, k), v) == (all.0, all.1 - (k - j))
    {
      ReadStep(pat, k, v);
      v := v * 10 + (pat[k] as int - '0' as int);
      k := k + 1;
    }
    ReadStops(pat, k, v);
  }

  /** The repeat count of the group that closes at `i`. */
  method GroupRepeats(pat: string, i: nat) returns (repeats: nat)
    requires i < |pat|
    ensures repeats == RepeatsAfter(Drop(pat, i + 1))
  {
    hide Read;
    repeats := 1;
    if i + 1 < |pat| && (pat[i + 1] == '*' || pat[i + 1] == '+') {
      repeats := 2;
    } else if i + 1 < |pat| && pat[i + 1] == '{' {
      ghost var s := Drop(pat, i + 1);
      var n, j := ReadDigitsAt(pat, i + 2, 0);
      BraceAfter(pat, i, n, j);
      var upper := n;
      if j < |pat| && pat[j] == ',' {
        j := j + 1;
        upper := if j < |pat| && pat[j] == '}' then n + 2 else 0;
        upper, j := ReadDigitsAt(pat, j, upper);
      }
      repeats := Max(n, upper);
    }
  }

  lemma BraceAfter(pat: string, i: nat, n: nat, j: nat)
    requires i + 1 < |pat| && pat[i + 1] == '{' && i + 2 <= j <= |pat| && (n, j - i - 2) == Read(Drop(pat, i + 2), 0)
    ensures RepeatsAfter(Drop(pat, i + 1)) ==
            if j == |pat| || pat[j] != ',' then n
            else if j + 1 < |pat| && pat[j + 1] == '}' then n + 2
            else Max(n, Read(Drop(pat, j + 1), 0).0)
    ensures j + 1 < |pat| && pat[j + 1] == '}' ==> Read(Drop(pat, j + 1), n + 2) == (n + 2, 0)
  {
    hide Read, Max;
    var s := Drop(pat, i + 1);
    assert s[1..] == Drop(pat, i + 2);
    var t := s[1 + (j - i - 2)..];
    assert t == Drop(pat, j);
    if t != "" { assert t[1..] == Drop(pat, j + 1); }
    if j + 1 < |pat| && pat[j + 1] == '}' { ReadStops(pat, j + 1, n + 2); }
  }

  /** The end of a group name, or of a lookbehind's opener, from the `<` at `start` on. */
  method NameEndAt(pat: string, start: nat) returns (i: nat)
    requires 2 <= start < |pat|
    ensures start <= i <= |pat| && i == start - 2 + NameEnd(pat[start - 2..], 2)
  {
    i := start;
    ghost var s := pat[start - 2..];
    while i < |pat| && pat[i] != '>' && pat[i] != '=' && pat[i] != '!'
      invariant start <= i <= |pat|
      invariant NameEnd(s, 2) == NameEnd(s, i - start + 2)
    {
      i := i + 1;
    }
  }

  /** The scanner itself, over every text. */
  method EmptyAlternativesExplode(pat: string) returns (found: bool)
    ensures found == Scan(pat, START)
  {
    hide Scan, RepeatsAfter, TooMany, Drop, NameEnd;
    DropNone(pat);
    var empty: seq<nat> := [0];
    var blank := [true];
    var inClass := false;
    var i := 0;
    while i < |pat|
      invariant State(empty, blank, inClass).Ok()
      invariant Scan(Drop(pat, i), State(empty, blank, inClass)) == Scan(pat, START)
      decreases |pat| - i
    {
      DropAt(pat, i);
      ghost var i0, next := i, Step(Drop(pat, i), State(empty, blank, inClass));
      ScanStep(pat, i, State(empty, blank, inClass));
      var c, top := pat[i], |blank| - 1;
      if inClass {
        if c == '\\' {
          i := i + 1;
        } else if c == ']' {
          inClass := false;
        }
      } else if c == '\\' || c == '[' {
        inClass := c == '[';
        i := i + if c == '\\' then 1 else 0;
        blank := blank[top := false];
      } else if c == '(' {
        blank := blank[top := false];
        empty := empty + [0];
        blank := blank + [true];
        if i + 1 < |pat| && pat[i + 1] == '?' {
          i := i + 2;
          if i < |pat| && pat[i] == '<' {
            i := NameEndAt(pat, i);
          }
        }
      } else if c == '|' {
        empty := empty[top := empty[top] + if blank[top] then 1 else 0];
        blank := blank[top := true];
      } else if c == ')' && |empty| > 1 {
        var k := empty[top] + if blank[top] then 1 else 0;
        empty := empty[..top];
        blank := blank[..top];
        var repeats := GroupRepeats(pat, i);
        if TooMany(k, repeats) {
          return true;
        }
      } else {
        blank := blank[top := false];
      }
      i := i + 1;
      assert next == Go(State(empty, blank, inClass), i - i0);
    }
    ScanEnd(pat, i, State(empty, blank, inClass));
    return false;
  }

  // ---------------------------------------------------------------- what the scan counts

  /** The alternatives of a body that hold no atom at all. */
  function EmptyAlternatives(body: Regex): nat {
    match body
    case Or(a, b) => EmptyAlternatives(a) + EmptyAlternatives(b)
    case _ => if Print(body) == "" then 1 else 0
  }

  /** The largest count an operator allows; an open-ended one counts for two iterations past its minimum, as the
      scanner has it. */
  function Largest(op: Op): nat {
    match op
    case Star => 2
    case Plus => 2
    case Opt => 1
    case Exactly(n) => n
    case AtLeast(n) => n + 2
    case Between(_, m) => m
  }

  /** Some group has too many ways to spend its largest repeat on empty alternatives. */
  predicate Explodes(r: Regex) {
    match r
    case Cat(a, b) => Explodes(a) || Explodes(b)
    case Or(a, b) => Explodes(a) || Explodes(b)
    case Group(_, body) => Explodes(body) || TooMany(EmptyAlternatives(body), 1)
    case Rep(a, op, _) =>
      if a.Group? then Explodes(a.body) || TooMany(EmptyAlternatives(a.body), Largest(op)) else Explodes(a)
    case _ => false
  }

  /** The counters of one open group. */
  datatype Count = Count(closed: nat, blank: bool)

  function Total(f: Count): nat { f.closed + if f.blank then 1 else 0 }

  function After(r: Regex, f: Count): Count {
    match r
    case Eps => f
    case Cat(a, b) => After(b, After(a, f))
    case Or(a, b) => After(b, Count(Total(After(a, f)), true))
    case _ => f.(blank := false)
  }

  lemma {:induction false} AfterCounts(r: Regex, f: Count)
    requires Valid(r)
    ensures !r.Or? ==> After(r, f) == Count(f.closed, f.blank && Print(r) == "")
    ensures f.blank ==> Total(After(r, f)) == f.closed + EmptyAlternatives(r)
    decreases r
  {
    match r
    case Cat(a, b) => AfterCounts(a, f); AfterCounts(b, After(a, f));
    case Or(a, b) => AfterCounts(a, f); AfterCounts(b, Count(Total(After(a, f)), true));
    case Rep(a, _, _) => AtomStart(a);
    case _ =>
  }

  function Stacked(em: seq<nat>, bl: seq<bool>, f: Count): State { State(em + [f.closed], bl + [f.blank], false) }

  lemma ScanOne(s: string, st: State, st': State, n: nat, rest: string)
    requires s != "" && st.Ok() && Step(s, st) == Go(st', n) && Drop(s, n) == rest
    ensures st'.Ok() && Scan(s, st) == Scan(rest, st')
  {
  }

  lemma StaleTop(em: seq<nat>, bl: seq<bool>, f: Count)
    requires |em| == |bl|
    ensures Stacked(em, bl, f).Stale() == Stacked(em, bl, f.(blank := false))
  {
  }

  /** Characters that count as an atom, or as part of one. */
  predicate Solid(s: string) { forall k :: 0 <= k < |s| ==> s[k] !in "\\[()|" }

  lemma {:induction false} ScanSolid(text: string, rest: string, em: seq<nat>, bl: seq<bool>, f: Count)
    requires Solid(text) && |em| == |bl|
    ensures Scan(text + rest, Stacked(em, bl, f)) == Scan(rest, Stacked(em, bl, f.(blank := f.blank && text == "")))
    decreases |text|
  {
    hide Scan;
    if text == "" {
      assert text + rest == rest;
    } else {
      assert text[0] !in "\\[()|";
      StaleTop(em, bl, f);
      assert (text + rest)[1..] == text[1..] + rest;
      ScanOne(text + rest, Stacked(em, bl, f), Stacked(em, bl, f.(blank := false)), 1, text[1..] + rest);
      ScanSolid(text[1..], rest, em, bl, f.(blank := false));
    }
  }

  lemma {:induction false} ScanClass(items: string, rest: string, st: State)
    requires ClassText(items) && st.Ok() && !st.inClass
    ensures Scan(items + "]" + rest, st.(inClass := true)) == Scan(rest, st)
    decreases |items|
  {
    hide Scan;
    var s, inside := items + "]" + rest, st.(inClass := true);
    if items == "" {
      assert s[1..] == rest;
      ScanOne(s, inside, st, 1, rest);
    } else {
      var n := if items[0] == '\\' then 2 else 1;
      assert Drop(s, n) == items[n..] + "]" + rest;
      ScanOne(s, inside, inside, n, items[n..] + "]" + rest);
      ScanClass(items[n..], rest, st);
    }
  }

  lemma ScanOpen(o: Open, rest: string, em: seq<nat>, bl: seq<bool>, f: Count)
    requires |em| == |bl| && (o.Named? ==> NameText(o.name)) && Unquantified(rest)
    ensures Scan(OpenText(o) + rest, Stacked(em, bl, f)) ==
            Scan(rest, Stacked(em + [f.closed], bl + [false], Count(0, true)))
  {
    hide Scan;
    var s := OpenText(o) + rest;
    StaleTop(em, bl, f);
    OpenerIsWhole(o, rest);
    assert Drop(s, |OpenText(o)|) == rest;
    ScanOne(s, Stacked(em, bl, f), Stacked(em + [f.closed], bl + [false], Count(0, true)), |OpenText(o)|, rest);
  }

  /** The scan steps over an opener, name included, in one go. */
  lemma OpenerIsWhole(o: Open, rest: string)
    requires (o.Named? ==> NameText(o.name)) && Unquantified(rest)
    ensures OpenerLength(OpenText(o) + rest) == |OpenText(o)|
  {
    if o.Named? { NameEndIs(OpenText(o) + rest, 2, |OpenText(o)| - 1); }
    if o.Look? && !o.ahead { NameEndIs(OpenText(o) + rest, 2, 3); }
  }

  lemma {:induction false} NameEndIs(s: string, k: nat, m: nat)
    requires k <= m < |s| && s[m] in ">=!" && forall x :: k <= x < m ==> s[x] !in ">=!"
    ensures NameEnd(s, k) == m
    decreases m - k
  {
    if k < m { NameEndIs(s, k + 1, m); }
  }

  /** A braced count: the lower bound is read up to the brace or the comma, then the upper bound if there is one. */
  lemma BracedCount(n: nat, t: string)
    requires t != "" && !IsDigit(t[0])
    ensures RepeatsAfter("{" + Numeral(n) + t) ==
            if t[0] != ',' then n else if |t| > 1 && t[1] == '}' then n + 2 else Max(n, Read(t[1..], 0).0)
  {
    var s := "{" + Numeral(n) + t;
    assert s[1..] == Numeral(n) + t;
    ReadNumeral(n, t);
    assert s[1 + |Numeral(n)|..] == t;
  }

  lemma RepeatsExactly(n: nat, rest: string)
    ensures RepeatsAfter(OpText(Exactly(n)) + rest) == n
  {
    hide RepeatsAfter, Numeral;
    assert OpText(Exactly(n)) + rest == "{" + Numeral(n) + ("}" + rest);
    BracedCount(n, "}" + rest);
  }

  lemma RepeatsAtLeast(n: nat, rest: string)
    ensures RepeatsAfter(OpText(AtLeast(n)) + rest) == n + 2
  {
    hide RepeatsAfter, Numeral;
    assert OpText(AtLeast(n)) + rest == "{" + Numeral(n) + (",}" + rest);
    BracedCount(n, ",}" + rest);
  }

  lemma RepeatsBetween(n: nat, m: nat, rest: string)
    ensures RepeatsAfter(OpText(Between(n, m)) + rest) == Max(n, m)
  {
    hide RepeatsAfter, Numeral;
    var upper := Numeral(m) + ("}" + rest);
    assert OpText(Between(n, m)) + rest == "{" + Numeral(n) + ("," + upper);
    BracedCount(n, "," + upper);
    assert ("," + upper)[1..] == upper && IsDigit(upper[0]);
    ReadNumeral(m, "}" + rest);
  }

  /** The count read after a group is the operator's own. */
  lemma RepeatsOf(op: Op, rest: string)
    requires op.Between? ==> op.n <= op.m
    ensures RepeatsAfter(OpText(op) + rest) == Largest(op)
  {
    match op
    case Exactly(n) => RepeatsExactly(n, rest);
    case AtLeast(n) => RepeatsAtLeast(n, rest);
    case Between(n, m) => RepeatsBetween(n, m, rest);
    case _ => RepeatsSimple(op, rest);
  }

  lemma RepeatsSimple(op: Op, rest: string)
    requires op.Star? || op.Plus? || op.Opt?
    ensures RepeatsAfter(OpText(op) + rest) == Largest(op)
  {
  }

  lemma ScanClose(rest: string, em: seq<nat>, bl: seq<bool>, f: Count, x: Count)
    requires |em| == |bl|
    ensures Scan(")" + rest, Stacked(em + [f.closed], bl + [f.blank], x)) ==
            (TooMany(Total(x), RepeatsAfter(rest)) || Scan(rest, Stacked(em, bl, f)))
  {
    hide Scan, TooMany, RepeatsAfter;
    var s, st := ")" + rest, Stacked(em + [f.closed], bl + [f.blank], x);
    assert s[1..] == rest;
    assert st.empty[..|st.empty| - 1] == em + [f.closed] && st.blank[..|st.blank| - 1] == bl + [f.blank];
    if TooMany(Total(x), RepeatsAfter(rest)) {
      ScanFound(s, st);
    } else {
      ScanOne(s, st, Stacked(em, bl, f), 1, rest);
    }
  }

  lemma ScanFound(s: string, st: State)
    requires s != "" && st.Ok() && Step(s, st).Found?
    ensures Scan(s, st)
  {
  }

  lemma {:induction false} ScanGroup(o: Open, body: Regex, rest: string, em: seq<nat>, bl: seq<bool>, f: Count)
    requires Valid(Group(o, body)) && |em| == |bl|
    ensures Scan(Print(Group(o, body)) + rest, Stacked(em, bl, f)) ==
            (Explodes(body) || TooMany(EmptyAlternatives(body), RepeatsAfter(rest)) ||
             Scan(rest, Stacked(em, bl, f.(blank := false))))
    decreases body, 2
  {
    hide OneCharacter, Scan, TooMany, RepeatsAfter, After, Explodes, NameText, EmptyAlternatives;
    var s, inner := Print(Group(o, body)) + rest, Print(body) + (")" + rest);
    assert s == OpenText(o) + inner;
    PrintUnquantified(body);
    ScanOpen(o, inner, em, bl, f);
    ScanRegex(body, ")" + rest, em + [f.closed], bl + [false], Count(0, true));
    AfterCounts(body, Count(0, true));
    ScanClose(rest, em, bl, f.(blank := false), After(body, Count(0, true)));
  }

  lemma {:induction false} ScanAtom(r: Regex, rest: string, em: seq<nat>, bl: seq<bool>, f: Count)
    requires Valid(r) && IsAtom(r) && !r.Group? && |em| == |bl|
    ensures Scan(Print(r) + rest, Stacked(em, bl, f)) == Scan(rest, Stacked(em, bl, f.(blank := false)))
  {
    hide OneCharacter, Scan;
    var s, st, st' := Print(r) + rest, Stacked(em, bl, f), Stacked(em, bl, f.(blank := false));
    StaleTop(em, bl, f);
    match r
    case Lit(text) => CharacterPlain(text); ScanSolid(text, rest, em, bl, f);
    case Esc(_) =>
      assert Drop(s, 2) == rest;
      ScanOne(s, st, st', 2, rest);
    case Class(items) =>
      assert s[1..] == items + "]" + rest;
      ScanOne(s, st, st'.(inClass := true), 1, items + "]" + rest);
      ScanClass(items, rest, st');
  }

  lemma {:induction false} ScanRep(r: Regex, rest: string, em: seq<nat>, bl: seq<bool>, f: Count)
    requires Valid(r) && r.Rep? && |em| == |bl|
    ensures Scan(Print(r) + rest, Stacked(em, bl, f)) == (Explodes(r) || Scan(rest, Stacked(em, bl, After(r, f))))
    decreases r, 0
  {
    hide OneCharacter, Scan, TooMany, RepeatsAfter, Largest, OpText, LazyText, Solid, EmptyAlternatives;
    var q := OpText(r.op) + LazyText(r.lazy);
    var tail := OpText(r.op) + (LazyText(r.lazy) + rest);
    assert Print(r) + rest == Print(r.atom) + tail && tail == q + rest;
    if r.atom.Group? {
      RepeatsOf(r.op, LazyText(r.lazy) + rest);
      ScanGroup(r.atom.open, r.atom.body, tail, em, bl, f);
    } else {
      ScanAtom(r.atom, tail, em, bl, f);
    }
    QuantifierSolid(r.op, r.lazy);
    ScanSolid(q, rest, em, bl, f.(blank := false));
  }

  lemma QuantifierSolid(op: Op, lazy: bool)
    ensures Solid(OpText(op) + LazyText(lazy))
  {
    QuantifierChars(op, lazy);
  }

  lemma {:induction false} ScanRegex(r: Regex, rest: string, em: seq<nat>, bl: seq<bool>, f: Count)
    requires Valid(r) && Unquantified(rest) && |em| == |bl|
    ensures Scan(Print(r) + rest, Stacked(em, bl, f)) == (Explodes(r) || Scan(rest, Stacked(em, bl, After(r, f))))
    decreases r, 1
  {
    hide OneCharacter, Scan, TooMany, RepeatsAfter;
    var s := Print(r) + rest;
    match r
    case Eps => assert s == rest;
    case Anchor(text) => ScanAnchor(text, rest, em, bl, f);
    case Cat(a, b) =>
      PartsText(a, b, rest);
      PrintUnquantified(b);
      ScanRegex(a, Print(b) + rest, em, bl, f);
      ScanRegex(b, rest, em, bl, After(a, f));
    case Or(a, b) =>
      PartsText(a, b, rest);
      ScanRegex(a, "|" + (Print(b) + rest), em, bl, f);
      ScanBar(Print(b) + rest, em, bl, After(a, f));
      ScanRegex(b, rest, em, bl, Count(Total(After(a, f)), true));
    case Group(o, body) =>
      assert RepeatsAfter(rest) == 1 by { RepeatsUnquantified(rest); }
      ScanGroup(o, body, rest, em, bl, f);
    case Rep(_, _, _) => ScanRep(r, rest, em, bl, f);
    case _ => ScanAtom(r, rest, em, bl, f);
  }

  lemma ScanAnchor(text: string, rest: string, em: seq<nat>, bl: seq<bool>, f: Count)
    requires AnchorText(text) && |em| == |bl|
    ensures Scan(text + rest, Stacked(em, bl, f)) == Scan(rest, Stacked(em, bl, f.(blank := false)))
  {
    hide Scan;
    if text[0] == '\\' {
      StaleTop(em, bl, f);
      assert Drop(text + rest, 2) == rest;
      ScanOne(text + rest, Stacked(em, bl, f), Stacked(em, bl, f.(blank := false)), 2, rest);
    } else {
      ScanSolid(text, rest, em, bl, f);
    }
  }

  lemma RepeatsUnquantified(rest: string)
    requires Unquantified(rest)
    ensures RepeatsAfter(rest) == 1
  {
  }

  lemma ScanBar(rest: string, em: seq<nat>, bl: seq<bool>, x: Count)
    requires |em| == |bl|
    ensures Scan("|" + rest, Stacked(em, bl, x)) == Scan(rest, Stacked(em, bl, Count(Total(x), true)))
  {
    hide Scan;
    assert ("|" + rest)[1..] == rest;
    var d := |em|;
    assert (em + [x.closed])[d := Total(x)] == em + [Total(x)] && (bl + [x.blank])[d := true] == bl + [true];
    ScanOne("|" + rest, Stacked(em, bl, x), Stacked(em, bl, Count(Total(x), true)), 1, rest);
  }

  /** On every valid pattern, named groups and lookarounds included, the scan answers true exactly when some
      group has k >= 2 alternatives holding no atom and a largest repeat r with k to the r above the limit. */
  lemma ScanDecidesExplosion(r: Regex)
    requires Valid(r)
    ensures Scan(Print(r), START) <==> Explodes(r)
  {
    ScanRegex(r, "", [], [], Count(0, true));
    assert Print(r) + "" == Print(r);
    assert Stacked([], [], Count(0, true)) == START;
  }

  // ---------------------------------------------------------------- open-ended counts

  /** The count the scanner's comment speaks of: every operator without a maximum counts as two. */
  function Said(op: Op): nat { if op.AtLeast? then 2 else Largest(op) }

  predicate ExplodesAsSaid(r: Regex) {
    match r
    case Cat(a, b) => ExplodesAsSaid(a) || ExplodesAsSaid(b)
    case Or(a, b) => ExplodesAsSaid(a) || ExplodesAsSaid(b)
    case Group(_, body) => ExplodesAsSaid(body) || TooMany(EmptyAlternatives(body), 1)
    case Rep(a, op, _) =>
      if a.Group? then ExplodesAsSaid(a.body) || TooMany(EmptyAlternatives(a.body), Said(op)) else ExplodesAsSaid(a)
    case _ => false
  }

  /** A group under `{n,}` with too many ways to spend n + 2 iterations. */
  predicate Overcounts(r: Regex) {
    match r
    case Cat(a, b) => Overcounts(a) || Overcounts(b)
    case Or(a, b) => Overcounts(a) || Overcounts(b)
    case Group(_, body) => Overcounts(body)
    case Rep(a, op, _) =>
      if a.Group? then Overcounts(a.body) || (op.AtLeast? && TooMany(EmptyAlternatives(a.body), op.n + 2))
      else Overcounts(a)
    case _ => false
  }

  lemma {:induction false} MorePaths(k: nat, a: nat, b: nat)
    requires TooMany(k, a) && a <= b
    ensures TooMany(k, b)
    decreases b
  {
    if a < b {
      MorePaths(k, a, b - 1);
      assert Pow(k, b) == k * Pow(k, b - 1) >= Pow(k, b - 1);
    }
  }

  lemma {:induction false} SaidOrOver(r: Regex)
    ensures Explodes(r) <==> ExplodesAsSaid(r) || Overcounts(r)
    decreases r
  {
    hide TooMany;
    match r
    case Cat(a, b) => SaidOrOver(a); SaidOrOver(b);
    case Or(a, b) => SaidOrOver(a); SaidOrOver(b);
    case Group(_, body) => SaidOrOver(body);
    case Rep(a, op, _) =>
      SaidOrOver(a);
      if a.Group? {
        SaidOrOver(a.body);
        if op.AtLeast? && TooMany(EmptyAlternatives(a.body), 2) { MorePaths(EmptyAlternatives(a.body), 2, op.n + 2); }
      }
    case _ =>
  }

  /** The scan answers as its comment says exactly when a group overcounted under `{n,}` comes with a group that is
      too much by the comment's count; it never passes a pattern the comment condemns. */
  lemma ScanIsAsSaidIff(r: Regex)
    requires Valid(r)
    ensures ExplodesAsSaid(r) ==> Scan(Print(r), START)
    ensures (Scan(Print(r), START) <==> ExplodesAsSaid(r)) <==> (Overcounts(r) ==> ExplodesAsSaid(r))
  {
    ScanDecidesExplosion(r);
    SaidOrOver(r);
  }

  /** `n` bars: `n + 1` alternatives, all empty. */
  function Bars(n: nat): Regex { if n == 0 then Eps else Or(Bars(n - 1), Eps) }

  lemma {:induction false} BarsAreEmpty(n: nat)
    ensures Valid(Bars(n)) && EmptyAlternatives(Bars(n)) == n + 1
    ensures !ExplodesAsSaid(Bars(n)) && !Explodes(Bars(n)) && |Print(Bars(n))| == n
    ensures forall k :: 0 <= k < n ==> Print(Bars(n))[k] == '|'
    decreases n
  {
    if n > 0 { BarsAreEmpty(n - 1); }
  }

  /** Where the limit lies: two iterations are too many from 317 empty alternatives on, three from 47 on. */
  lemma LimitIs(n: nat)
    ensures var star, thrice := Rep(Group(Capture, Bars(n)), Star, false), Rep(Group(Capture, Bars(n)), Exactly(3), false);
            && Valid(star) && Valid(thrice)
            && (Scan(Print(star), START) <==> n + 1 >= 317) && (Scan(Print(thrice), START) <==> n + 1 >= 47)
  {
    hide Scan, Bars, Print, EmptyAlternatives, Pow;
    BarsAreEmpty(n);
    ScanDecidesExplosion(Rep(Group(Capture, Bars(n)), Star, false));
    ScanDecidesExplosion(Rep(Group(Capture, Bars(n)), Exactly(3), false));
    Powers(n + 1);
  }

  lemma Powers(k: nat)
    ensures Pow(k, 2) > 100_000 <==> k >= 317
    ensures Pow(k, 3) > 100_000 <==> k >= 47
  {
    assert Pow(k, 1) == k * Pow(k, 0) == k && Pow(k, 2) == k * Pow(k, 1) == k * k && Pow(k, 3) == k * (k * k);
    if k >= 317 { assert k * k >= 317 * 317; } else { Squares(k, 316); }
    if k >= 47 {
      Squares(47, k);
      assert k * (k * k) >= 47 * (47 * 47);
    } else {
      Squares(k, 46);
      assert k * (k * k) <= 46 * (46 * 46);
    }
  }

  lemma Squares(a: nat, b: nat)
    requires a <= b
    ensures a * a <= b * b && a * (a * a) <= b * (b * b)
  {
    assert a * a <= b * a <= b * b;
    assert a * (a * a) <= b * (a * a) <= b * (b * b);
  }

  /** Eleven empty alternatives under `{3,}` are refused, though two iterations of them stay far below the limit. */
  lemma ScanOvercountsOpenEnded()
    ensures var r := Rep(Group(Capture, Bars(10)), AtLeast(3), false);
            Valid(r) && Print(r) == "(||||||||||){3,}" && Scan(Print(r), START) && !ExplodesAsSaid(r)
  {
    hide Scan, Bars, EmptyAlternatives, ExplodesAsSaid, Explodes, Print, Valid;
    var body := Bars(10);
    BarsAreEmpty(10);
    assert Print(body) == "||||||||||";
    OpenEndedOver(body);
    ScanDecidesExplosion(Rep(Group(Capture, body), AtLeast(3), false));
  }

  lemma OpenEndedOver(body: Regex)
    requires Valid(body) && EmptyAlternatives(body) == 11 && !ExplodesAsSaid(body)
    ensures var r := Rep(Group(Capture, body), AtLeast(3), false);
            Valid(r) && Print(r) == "(" + Print(body) + "){3,}" && Explodes(r) && !ExplodesAsSaid(r)
  {
    Eleven();
    assert Numeral(3) == "3";
  }

  lemma Eleven()
    ensures Pow(11, 2) == 121 && Pow(11, 5) == 161_051
  {
    assert Pow(11, 1) == 11 * Pow(11, 0) && Pow(11, 3) == 11 * Pow(11, 2) && Pow(11, 4) == 11 * Pow(11, 3);
  }
}

/** `unbounded_quantifiers` of fuzz/fuzz_compat.cpp: counts the quantifiers with no maximum in pattern text. */
module CountScan {
  import opened Decimal
  import opened Regex
  import opened TermFacts
  import opened Text

  predicate Counted(s: string) { s != "" && (s[0] == '*' || s[0] == '+' || (s[0] == ',' && |s| > 1 && s[1] == '}')) }

  function Scan(s: string, inClass: bool): nat
    decreases |s|
  {
    if s == "" then 0
    else if s[0] == '\\' then Scan(Drop(s, 2), inClass)
    else if inClass then Scan(s[1..], s[0] != ']')
    else (if Counted(s) then 1 else 0) + Scan(s[1..], s[0] == '[')
  }

  /** The scanner itself, over every text. */
  method UnboundedQuantifiers(pat: string) returns (unbounded: nat)
    ensures unbounded == Scan(pat, false)
  {
    unbounded := 0;
    var inClass := false;
    var i := 0;
    while i < |pat|
      invariant unbounded + Scan(Drop(pat, i), inClass) == Scan(pat, false)
      decreases |pat| - i
    {
      var c := pat[i];
      assert Drop(pat, i)[1..] == Drop(pat, i + 1) && Drop(Drop(pat, i), 2) == Drop(pat, i + 2);
      if c == '\\' {
        i := i + 2;
        continue;
      }
      if inClass {
        inClass := c != ']';
      } else if c == '[' {
        inClass := true;
      } else if c == '*' || c == '+' || (c == ',' && i + 1 < |pat| && pat[i + 1] == '}') {
        unbounded := unbounded + 1;
      }
      i := i + 1;
    }
  }

  /** How many repeats of the term have no maximum. */
  function Unbounded(r: Regex): nat {
    match r
    case Cat(a, b) => Unbounded(a) + Unbounded(b)
    case Or(a, b) => Unbounded(a) + Unbounded(b)
    case Group(_, body) => Unbounded(body)
    case Rep(a, op, _) => Unbounded(a) + if op.Star? || op.Plus? || op.AtLeast? then 1 else 0
    case _ => 0
  }

  predicate Inert(s: string) { forall k :: 0 <= k < |s| ==> s[k] !in "\\[*+" }

  /** Text without a counted character counts nothing, as long as what follows cannot close a brace for it. */
  lemma {:induction false} ScanInert(text: string, rest: string)
    requires Inert(text) && (forall k :: 0 <= k < |text| - 1 ==> text[k] == ',' ==> text[k + 1] != '}')
    requires text != "" && text[|text| - 1] == ',' ==> rest == "" || rest[0] != '}'
    ensures Scan(text + rest, false) == Scan(rest, false)
    decreases |text|
  {
    if text == "" {
      assert text + rest == rest;
    } else {
      var s, tail := text + rest, text[1..];
      assert text[0] !in "\\[*+";
      assert s[1..] == tail + rest;
      assert !Counted(s) by { if |text| > 1 { assert s[1] == text[1]; } else { assert s[1..] == rest; } }
      forall k | 0 <= k < |tail| - 1 && tail[k] == ',' ensures tail[k + 1] != '}' { assert text[k + 1] == ','; }
      ScanInert(tail, rest);
    }
  }

  /** A single character that means nothing to the count, or none. */
  lemma ScanOne(text: string, rest: string)
    requires text in {"", "?", "|", ")"}
    ensures Scan(text + rest, false) == Scan(rest, false)
  {
    hide Scan;
    ScanInert(text, rest);
  }

  lemma {:induction false} ScanClass(items: string, rest: string)
    requires ClassText(items)
    ensures Scan(items + "]" + rest, true) == Scan(rest, false)
    decreases |items|
  {
    var s := items + "]" + rest;
    if items == "" {
      assert s[1..] == rest;
    } else {
      var n := if items[0] == '\\' then 2 else 1;
      assert Drop(s, n) == items[n..] + "]" + rest && (n == 1 ==> s[1..] == Drop(s, 1));
      ScanClass(items[n..], rest);
    }
  }

  lemma ScanOp(op: Op, rest: string)
    ensures Scan(OpText(op) + rest, false) ==
            (if op.Star? || op.Plus? || op.AtLeast? then 1 else 0) + Scan(rest, false)
  {
    var s := OpText(op) + rest;
    match op
    case Star => assert s[1..] == rest;
    case Plus => assert s[1..] == rest;
    case Opt => ScanInert("?", rest);
    case Exactly(n) => ScanInert(OpText(op), rest);
    case AtLeast(n) => ScanAtLeast(n, rest);
    case Between(n, m) => ScanBetween(n, m, rest);
  }

  lemma ScanAtLeast(n: nat, rest: string)
    ensures Scan(OpText(AtLeast(n)) + rest, false) == 1 + Scan(rest, false)
  {
    hide Numeral, Inert;
    var head, tail := "{" + Numeral(n), ",}" + rest;
    assert OpText(AtLeast(n)) + rest == head + tail;
    NumeralInert(n);
    ScanInert(head, tail);
    ScanCounted(rest);
  }

  lemma NumeralInert(n: nat)
    ensures var head := "{" + Numeral(n); Inert(head) && forall k :: 0 <= k < |head| ==> head[k] != ','
  {
    hide Numeral;
    assert forall k :: 1 <= k < |"{" + Numeral(n)| ==> IsDigit(("{" + Numeral(n))[k]);
  }

  lemma ScanCounted(rest: string)
    ensures Scan(",}" + rest, false) == 1 + Scan(rest, false)
  {
    var tail := ",}" + rest;
    assert tail[1..] == "}" + rest;
    ScanInert("}", rest);
  }

  lemma ScanBetween(n: nat, m: nat, rest: string)
    ensures Scan(OpText(Between(n, m)) + rest, false) == Scan(rest, false)
  {
    hide Scan, Inert, OpText;
    BetweenInert(n, m);
    ScanInert(OpText(Between(n, m)), rest);
  }

  lemma BetweenInert(n: nat, m: nat)
    ensures var text := OpText(Between(n, m));
            Inert(text) && (forall k :: 0 <= k < |text| - 1 ==> text[k] == ',' ==> text[k + 1] != '}') &&
            text[|text| - 1] == '}'
  {
    var a, b := Numeral(n), Numeral(m);
    var text := OpText(Between(n, m));
    assert text == "{" + a + "," + b + "}";
    forall k | 0 <= k < |text| - 1 && text[k] == ',' ensures text[k + 1] != '}' {
      assert forall m :: 0 <= m < |a| ==> text[1 + m] == a[m];
      assert forall m :: 0 <= m < |b| ==> text[|a| + 2 + m] == b[m];
      assert k == |a| + 1;
    }
  }

  /** Text that cannot be read as the end of a brace. */
  predicate NoClose(s: string) { s == "" || s[0] != '}' }

  lemma {:induction false} ScanLeaf(r: Regex, rest: string)
    requires Valid(r) && NoClose(rest) && (r.Eps? || r.Lit? || r.Esc? || r.Class? || r.Anchor?)
    ensures Scan(Print(r) + rest, false) == Scan(rest, false)
  {
    hide OneCharacter;
    var s := Print(r) + rest;
    match r
    case Eps => assert s == rest;
    case Lit(text) =>
      CharacterPlain(text);
      ScanInert(text, rest);
    case Esc(_) => assert Drop(s, 2) == rest;
    case Class(items) =>
      assert s[1..] == items + "]" + rest;
      ScanClass(items, rest);
    case Anchor(text) => if text[0] == '\\' { assert Drop(s, 2) == rest; } else { ScanInert(text, rest); }
  }

  lemma ScanOpen(o: Open, rest: string)
    requires (o.Named? ==> NameText(o.name))
    ensures Scan(OpenText(o) + rest, false) == Scan(rest, false)
  {
    ScanInert(OpenText(o), rest);
  }

  lemma {:induction false} ScanRegex(r: Regex, rest: string)
    requires Valid(r) && NoClose(rest)
    ensures Scan(Print(r) + rest, false) == Unbounded(r) + Scan(rest, false)
    decreases r, 1
  {
    hide Scan, Print, OneCharacter, NameText;
    match r
    case Cat(a, b) =>
      PartsText(a, b, rest);
      PrintUnquantified(b);
      ScanRegex(a, Print(b) + rest);
      ScanRegex(b, rest);
    case Or(a, b) =>
      PartsText(a, b, rest);
      ScanRegex(a, "|" + (Print(b) + rest));
      ScanOne("|", Print(b) + rest);
      ScanRegex(b, rest);
    case Group(_, _) => ScanGroup(r, rest);
    case Rep(_, _, _) => ScanRep(r, rest);
    case _ => ScanLeaf(r, rest);
  }

  lemma {:induction false} ScanGroup(r: Regex, rest: string)
    requires Valid(r) && r.Group? && NoClose(rest)
    ensures Scan(Print(r) + rest, false) == Unbounded(r) + Scan(rest, false)
    decreases r, 0
  {
    hide Scan, OneCharacter;
    var inner := Print(r.body) + (")" + rest);
    assert Print(r) + rest == OpenText(r.open) + inner;
    ScanOpen(r.open, inner);
    ScanRegex(r.body, ")" + rest);
    ScanOne(")", rest);
  }

  lemma {:induction false} ScanRep(r: Regex, rest: string)
    requires Valid(r) && r.Rep? && NoClose(rest)
    ensures Scan(Print(r) + rest, false) == Unbounded(r) + Scan(rest, false)
    decreases r, 0
  {
    hide Scan, OneCharacter, OpText;
    var tail := LazyText(r.lazy) + rest;
    assert Print(r) + rest == Print(r.atom) + (OpText(r.op) + tail);
    ScanRegex(r.atom, OpText(r.op) + tail);
    ScanOp(r.op, tail);
    ScanOne(LazyText(r.lazy), rest);
  }

  /** On every valid pattern the count is exact. */
  lemma ScanCountsUnbounded(r: Regex)
    requires Valid(r)
    ensures Scan(Print(r), false) == Unbounded(r)
  {
    ScanRegex(r, "");
    assert Print(r) + "" == Print(r);
  }

  /** A pattern counted zero has a longest match, on every subject. */
  lemma CountedZeroIsBounded(I: Interp, r: Regex, s: string, i: int, j: int)
    requires Valid(r) && Scan(Print(r), false) == 0
    requires 0 <= i <= j <= |s| && Match(I, r, s, i, j)
    ensures j - i <= Width(r)
  {
    ScanCountsUnbounded(r);
    NoneUnbounded(r);
    WidthBounds(I, r, s, i, j);
  }

  lemma {:induction false} NoneUnbounded(r: Regex)
    requires Unbounded(r) == 0
    ensures Bounded(r)
    decreases r
  {
    match r
    case Cat(a, b) => NoneUnbounded(a); NoneUnbounded(b);
    case Or(a, b) => NoneUnbounded(a); NoneUnbounded(b);
    case Group(_, body) => NoneUnbounded(body);
    case Rep(a, _, _) => NoneUnbounded(a);
    case _ =>
  }
}

/** The list of lookaround groups as it travels: written by the generator of fuzz/pcre2_differential.cpp, read
    back by fuzz/pcre2_arbiter.py. */
module GroupReport {
  import opened Wrappers
  import opened Decimal
  import opened Regex
  import opened TermFacts

  /** The numbers of the flagged groups below `n`, comma-separated. */
  function Joined(flags: seq<bool>, n: nat): string
    requires n <= |flags|
  {
    if n <= 1 then ""
    else
      var out := Joined(flags, n - 1);
      if !flags[n - 1] then out else out + (if out == "" then "" else ",") + Numeral(n - 1)
  }

  function Report(flags: seq<bool>): string {
    var out := Joined(flags, |flags|);
    if out == "" then "-" else out
  }

  /** The pieces of `s` between occurrences of `c`. */
  function Split(s: string, c: char): (parts: seq<string>)
    ensures parts != []
  {
    if s == "" then [""]
    else
      var parts := Split(s[1..], c);
      if s[0] == c then [""] + parts else [[s[0]] + parts[0]] + parts[1..]
  }

  lemma {:induction false} SplitNone(s: string, c: char)
    requires c !in s
    ensures Split(s, c) == [s]
    decreases |s|
  {
    if s != "" {
      SplitNone(s[1..], c);
      assert [s[0]] + s[1..] == s;
    }
  }

  lemma {:induction false} SplitLast(a: string, b: string, c: char)
    requires c !in b
    ensures Split(a + [c] + b, c) == Split(a, c) + [b]
    decreases |a|
  {
    var s := a + [c] + b;
    if a == "" {
      assert s[1..] == b;
      SplitNone(b, c);
    } else {
      assert s[1..] == a[1..] + [c] + b;
      SplitLast(a[1..], b, c);
    }
  }

  /** The numbers the arbiter reads; `None` where one of the pieces is not a number. */
  function Numbers(parts: seq<string>): Option<set<nat>> {
    if parts == [] then Some({})
    else
      var last := parts[|parts| - 1];
      if last == "" || (exists k :: 0 <= k < |last| && !IsDigit(last[k])) then None
      else match Numbers(parts[..|parts| - 1])
        case None => None
        case Some(g) => Some(g + {Value(last, 0)})
  }

  function ArbiterReads(text: string): Option<set<nat>> {
    if text == "-" then Some({}) else Numbers(Split(text, ','))
  }

  function Flagged(flags: seq<bool>, n: nat): set<nat>
    requires n <= |flags|
  {
    set g: nat | 1 <= g < n && flags[g]
  }

  lemma {:induction false} NumbersLast(parts: seq<string>, n: nat)
    ensures var x := Numbers(parts);
            Numbers(parts + [Numeral(n)]) == if x.None? then None else Some(x.value + {n})
  {
    var all := parts + [Numeral(n)];
    assert all[..|all| - 1] == parts;
    NumeralRoundTrip(n);
  }

  lemma {:induction false} JoinedReads(flags: seq<bool>, n: nat)
    requires n <= |flags|
    ensures var out := Joined(flags, n);
            (out == "" <==> Flagged(flags, n) == {}) && (out != "" ==> IsDigit(out[0])) &&
            (out != "" ==> Numbers(Split(out, ',')) == Some(Flagged(flags, n)))
    decreases n
  {
    hide Numbers, Split;
    if n > 1 {
      JoinedReads(flags, n - 1);
      if flags[n - 1] {
        var out, num := Joined(flags, n - 1), Numeral(n - 1);
        assert Flagged(flags, n) == Flagged(flags, n - 1) + {n - 1};
        assert n - 1 in Flagged(flags, n);
        if out == "" {
          SplitNone(num, ',');
          assert "" + num == num && [] + [num] == [num];
          NumbersNone();
          NumbersLast([], n - 1);
        } else {
          SplitLast(out, num, ',');
          assert out + "," + num == out + [','] + num;
          NumbersLast(Split(out, ','), n - 1);
        }
      } else {
        assert Flagged(flags, n) == Flagged(flags, n - 1);
      }
    }
  }

  lemma NumbersNone()
    ensures Numbers([]) == Some({})
  {
  }

  /** The arbiter reads exactly the groups the generator recorded. */
  lemma ReportRoundTrip(flags: seq<bool>)
    ensures ArbiterReads(Report(flags)) == Some(set g: nat | 1 <= g < |flags| && flags[g])
  {
    JoinedReads(flags, |flags|);
    assert Flagged(flags, |flags|) == set g: nat | 1 <= g < |flags| && flags[g];
  }

  /** Group `g`, counting from one. */
  predicate Inside(found: seq<bool>, g: nat) { 1 <= g <= |found| && found[g - 1] }

  lemma FromNothing()
    ensures FromText("", [false], false) == []
  {
  }

  /** End to end: for a pattern's text and the groups recorded with it, the arbiter sets aside exactly the capture
      groups that a reading of the text alone finds inside a lookaround. */
  lemma ArbiterMasksLookaroundGroups(r: Regex, flags: seq<bool>)
    requires Valid(r) && flags == [false] + Captures(r, false)
    ensures var found := FromText(Print(r), [false], false);
            ArbiterReads(Report(flags)) == Some(set g: nat | 1 <= g <= |found| && Inside(found, g))
  {
    hide FromText, Captures, Valid, Print, Joined, ArbiterReads;
    var found := FromText(Print(r), [false], false);
    TextHasCaptures(r, "", [], false);
    assert FromText("", [false], false) == [] by { FromNothing(); }
    assert Print(r) + "" == Print(r) && [] + [false] == [false];
    assert found == Captures(r, false);
    ReportRoundTrip(flags);
    assert forall g: nat :: 1 <= g <= |found| ==> flags[g] == Inside(found, g);
    assert (set g: nat | 1 <= g < |flags| && flags[g]) == set g: nat | 1 <= g <= |found| && Inside(found, g);
  }
}

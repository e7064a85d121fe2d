/** `coalesce` and `in_ranges` of tools/_gen_common.py: inclusive integer ranges in their minimal sorted form. */
module Ranges {

  type Range = (int, int)

  predicate Holds(r: Range, x: int) { r.0 <= x <= r.1 }

  /** Some range of the list holds `x`. */
  predicate Covers(rs: seq<Range>, x: int) { exists k :: 0 <= k < |rs| && Holds(rs[k], x) }

  predicate Proper(rs: seq<Range>) { forall k :: 0 <= k < |rs| ==> rs[k].0 <= rs[k].1 }

  ghost predicate SameCover(a: seq<Range>, b: seq<Range>) { forall x :: Covers(a, x) <==> Covers(b, x) }

  /** Sorted, disjoint. */
  predicate Separate(rs: seq<Range>) { Proper(rs) && forall i, j :: 0 <= i < j < |rs| ==> rs[i].1 < rs[j].0 }

  /** Sorted, disjoint, and no two ranges touch. */
  predicate Canonical(rs: seq<Range>) { Proper(rs) && forall i, j :: 0 <= i < j < |rs| ==> rs[i].1 + 1 < rs[j].0 }

  // ---------------------------------------------------------------- sorting

  /** The order of pairs: by lower end, then by upper end. */
  predicate AtMost(a: Range, b: Range) { a.0 < b.0 || (a.0 == b.0 && a.1 <= b.1) }

  predicate Ordered(rs: seq<Range>) { forall i, j :: 0 <= i < j < |rs| ==> AtMost(rs[i], rs[j]) }

  function Insert(r: Range, rs: seq<Range>): (s: seq<Range>)
    ensures multiset(s) == multiset{r} + multiset(rs)
  {
    if rs == [] || AtMost(r, rs[0]) then [r] + rs
    else
      assert rs == [rs[0]] + rs[1..];
      [rs[0]] + Insert(r, rs[1..])
  }

  lemma {:induction false} InsertOrdered(r: Range, rs: seq<Range>)
    requires Ordered(rs)
    ensures Ordered(Insert(r, rs))
    decreases |rs|
  {
    if rs != [] && !AtMost(r, rs[0]) {
      var s := Insert(r, rs[1..]);
      InsertOrdered(r, rs[1..]);
      forall k | 0 <= k < |s| ensures AtMost(rs[0], s[k]) {
        assert s[k] in multiset(s);
        if s[k] != r {
          assert s[k] in rs[1..];
        }
      }
    }
  }

  /** The sorted list: the same ranges, in order. */
  function Sorted(rs: seq<Range>): (s: seq<Range>)
    ensures multiset(s) == multiset(rs)
  {
    if rs == [] then [] else assert rs == [rs[0]] + rs[1..]; Insert(rs[0], Sorted(rs[1..]))
  }

  lemma {:induction false} SortedOrdered(rs: seq<Range>)
    ensures Ordered(Sorted(rs))
    decreases |rs|
  {
    if rs != [] {
      SortedOrdered(rs[1..]);
      InsertOrdered(rs[0], Sorted(rs[1..]));
    }
  }

  lemma SameElements(a: seq<Range>, b: seq<Range>)
    requires multiset(a) == multiset(b)
    ensures SameCover(a, b) && (Proper(a) <==> Proper(b))
  {
    assert forall r :: r in a <==> r in multiset(a);
    assert forall r :: r in b <==> r in multiset(b);
    forall x ensures Covers(a, x) <==> Covers(b, x) {
      CoversMember(a, x);
      CoversMember(b, x);
    }
    assert Proper(a) <==> forall r :: r in a ==> r.0 <= r.1;
    assert Proper(b) <==> forall r :: r in b ==> r.0 <= r.1;
  }

  lemma CoversMember(rs: seq<Range>, x: int)
    ensures Covers(rs, x) <==> exists r :: r in rs && Holds(r, x)
  {
    if r :| r in rs && Holds(r, x) {
      var k :| 0 <= k < |rs| && rs[k] == r;
      assert Holds(rs[k], x);
    }
  }

  // ---------------------------------------------------------------- coalescing

  /** The merge step: a range that starts inside the last one or right after it extends it. */
  function Merge(merged: seq<Range>, r: Range): seq<Range> {
    var last := |merged| - 1;
    if merged != [] && r.0 <= merged[last].1 + 1 then
      merged[last := (merged[last].0, if merged[last].1 < r.1 then r.1 else merged[last].1)]
    else merged + [r]
  }

  lemma MergeKeeps(merged: seq<Range>, r: Range)
    requires Canonical(merged) && r.0 <= r.1 && (merged != [] ==> merged[|merged| - 1].0 <= r.0)
    ensures Canonical(Merge(merged, r)) && Merge(merged, r)[|Merge(merged, r)| - 1].0 <= r.0
    ensures forall x :: Covers(Merge(merged, r), x) <==> Covers(merged, x) || Holds(r, x)
  {
    var m, last := Merge(merged, r), |merged| - 1;
    forall x ensures Covers(m, x) <==> Covers(merged, x) || Holds(r, x) {
      if Covers(merged, x) {
        var k :| 0 <= k < |merged| && Holds(merged[k], x);
        assert Holds(m[k], x);
      }
      if Holds(r, x) && !Covers(merged, x) {
        assert merged != [] ==> !Holds(merged[last], x);
        assert Holds(m[|m| - 1], x);
      }
      if Covers(m, x) {
        var k :| 0 <= k < |m| && Holds(m[k], x);
        if k < |merged| && !Holds(r, x) { assert Holds(merged[k], x); }
      }
    }
  }

  /** The output covers the same integers as the input, and is canonical: no other output would do (see
      `CanonicalIsUnique`). */
  method Coalesce(ranges: seq<Range>) returns (merged: seq<Range>)
    requires Proper(ranges)
    ensures Canonical(merged) && SameCover(merged, ranges)
  {
    var sorted := Sorted(ranges);
    SameElements(sorted, ranges);
    SortedOrdered(ranges);
    merged := [];
    for k := 0 to |sorted|
      invariant Canonical(merged)
      invariant merged != [] ==> k > 0 && merged[|merged| - 1].0 <= sorted[k - 1].0
      invariant forall x :: Covers(merged, x) <==> Covers(sorted[..k], x)
    {
      var (lo, hi) := sorted[k];
      assert k > 0 ==> AtMost(sorted[k - 1], sorted[k]);
      MergeKeeps(merged, sorted[k]);
      CoversOneMore(sorted, k);
      var last := |merged| - 1;
      if merged != [] && lo <= merged[last].1 + 1 {
        merged := merged[last := (merged[last].0, if merged[last].1 < hi then hi else merged[last].1)];
      } else {
        merged := merged + [(lo, hi)];
      }
    }
    assert sorted[..|sorted|] == sorted;
  }

  lemma CoversOneMore(rs: seq<Range>, k: nat)
    requires k < |rs|
    ensures forall x :: Covers(rs[..k + 1], x) <==> Covers(rs[..k], x) || Holds(rs[k], x)
  {
    forall x ensures Covers(rs[..k + 1], x) <==> Covers(rs[..k], x) || Holds(rs[k], x) {
      if Covers(rs[..k], x) {
        var m :| 0 <= m < k && Holds(rs[..k][m], x);
        assert Holds(rs[..k + 1][m], x);
      }
      if Holds(rs[k], x) { assert Holds(rs[..k + 1][k], x); }
      if Covers(rs[..k + 1], x) {
        var m :| 0 <= m < k + 1 && Holds(rs[..k + 1][m], x);
        if m < k { assert Holds(rs[..k][m], x); }
      }
    }
  }

  // ---------------------------------------------------------------- the canonical form

  lemma FirstHolds(rs: seq<Range>, x: int)
    requires Canonical(rs) && rs != []
    ensures Covers(rs, x) <==> Holds(rs[0], x) || Covers(rs[1..], x)
    ensures Covers(rs[1..], x) ==> rs[0].1 + 1 < x
    ensures Canonical(rs[1..])
  {
    if Covers(rs, x) {
      var k :| 0 <= k < |rs| && Holds(rs[k], x);
      if k > 0 { assert Holds(rs[1..][k - 1], x); }
    }
    if Covers(rs[1..], x) {
      var k :| 0 <= k < |rs[1..]| && Holds(rs[1..][k], x);
      assert Holds(rs[k + 1], x);
    }
    if Holds(rs[0], x) { assert Covers(rs, x); }
  }

  /** Canonical lists with the same cover start with the same range: its lower end is the least integer covered,
      its upper end the last before the first gap. */
  lemma SameFirst(a: seq<Range>, b: seq<Range>)
    requires Canonical(a) && Canonical(b) && SameCover(a, b) && a != [] && b != []
    ensures a[0].0 == b[0].0 ==> a[0].1 <= b[0].1
    ensures b[0].0 <= a[0].0
  {
    FirstHolds(a, a[0].0);
    FirstHolds(b, a[0].0);
    assert Holds(a[0], a[0].0);
    assert Covers(b, a[0].0);
    if a[0].0 == b[0].0 && b[0].1 < a[0].1 {
      var gap := b[0].1 + 1;
      assert Holds(a[0], gap);
      assert Covers(a, gap);
      FirstHolds(b, gap);
    }
  }

  lemma CoversFirst(a: seq<Range>)
    requires Proper(a) && a != []
    ensures Covers(a, a[0].0)
  {
    assert Holds(a[0], a[0].0);
  }

  /** Equal coverage gives equal canonical form. */
  lemma {:induction false} CanonicalIsUnique(a: seq<Range>, b: seq<Range>)
    requires Canonical(a) && Canonical(b) && SameCover(a, b)
    ensures a == b
    decreases |a|
  {
    if a == [] || b == [] {
      if a != [] { CoversFirst(a); }
      if b != [] { CoversFirst(b); }
    } else {
      SameFirst(a, b);
      SameFirst(b, a);
      forall x ensures Covers(a[1..], x) <==> Covers(b[1..], x) {
        FirstHolds(a, x);
        FirstHolds(b, x);
        assert Covers(a, x) <==> Covers(b, x);
      }
      FirstHolds(a, 0);
      FirstHolds(b, 0);
      CanonicalIsUnique(a[1..], b[1..]);
      assert a == [a[0]] + a[1..] && b == [b[0]] + b[1..];
    }
  }

  /** One range of any list with the same cover holds the lower end of at most one canonical range. */
  lemma OneLowerEnd(a: seq<Range>, b: seq<Range>, i: nat, j: nat, r: Range)
    requires Canonical(a) && SameCover(a, b) && r in b && i < j < |a|
    ensures !(Holds(r, a[i].0) && Holds(r, a[j].0))
  {
    if Holds(r, a[i].0) && Holds(r, a[j].0) {
      var gap := a[i].1 + 1;
      assert Holds(r, gap);
      CoversMember(b, gap);
      GapUncovered(a, i);
    }
  }

  lemma GapUncovered(a: seq<Range>, i: nat)
    requires Canonical(a) && i < |a| - 1
    ensures !Covers(a, a[i].1 + 1)
  {
    forall k | 0 <= k < |a| ensures !Holds(a[k], a[i].1 + 1) {
      if k < i { assert a[k].1 + 1 < a[i].0; }
    }
  }

  /** An injection of the first `n` numbers into the first `m`. */
  lemma {:induction false} Pigeonhole(f: seq<nat>, m: nat)
    requires forall i :: 0 <= i < |f| ==> f[i] < m
    requires forall i, j :: 0 <= i < j < |f| ==> f[i] != f[j]
    ensures |f| <= m
    decreases m
  {
    if f != [] {
      assert f[0] < m;
      if m - 1 in f {
        var k :| 0 <= k < |f| && f[k] == m - 1;
        Pigeonhole(f[..k] + f[k + 1..], m - 1);
      } else {
        Pigeonhole(f, m - 1);
      }
    }
  }

  /** No list with the same cover has fewer ranges than the canonical one. */
  lemma CanonicalIsFewest(a: seq<Range>, b: seq<Range>)
    requires Canonical(a) && SameCover(a, b)
    ensures |a| <= |b|
  {
    var f: seq<nat> := [];
    while |f| < |a|
      invariant |f| <= |a| && forall i :: 0 <= i < |f| ==> f[i] < |b| && Holds(b[f[i]], a[i].0)
      invariant forall i, j :: 0 <= i < j < |f| ==> f[i] != f[j]
      decreases |a| - |f|
    {
      var n := |f|;
      assert Holds(a[n], a[n].0);
      assert Covers(b, a[n].0);
      var k: nat :| k < |b| && Holds(b[k], a[n].0);
      forall i | 0 <= i < n ensures f[i] != k { OneLowerEnd(a, b, i, n, b[f[i]]); }
      f := f + [k];
    }
    Pigeonhole(f, |b|);
  }

  // ---------------------------------------------------------------- membership

  /** Binary search on sorted, disjoint ranges. */
  method InRanges(ranges: seq<Range>, cp: int) returns (found: bool)
    requires Separate(ranges)
    ensures found <==> Covers(ranges, cp)
  {
    var lo, hi := 0, |ranges|;
    while lo < hi
      invariant 0 <= lo <= hi <= |ranges|
      invariant forall k :: 0 <= k < lo ==> ranges[k].1 < cp
      invariant forall k :: hi <= k < |ranges| ==> cp <= ranges[k].1
    {
      var mid := (lo + hi) / 2;
      if ranges[mid].1 < cp {
        lo := mid + 1;
      } else {
        hi := mid;
      }
    }
    found := lo < |ranges| && ranges[lo].0 <= cp <= ranges[lo].1;
    if found { assert Holds(ranges[lo], cp); }
    if Covers(ranges, cp) {
      var k :| 0 <= k < |ranges| && Holds(ranges[k], cp);
      assert lo <= k;
      if lo < k { assert ranges[lo].1 < ranges[k].0; }
    }
  }

  /** Searching a coalesced table decides membership in the ranges it was made from. */
  method InCoalesced(ranges: seq<Range>, cp: int) returns (found: bool)
    requires Proper(ranges)
    ensures found <==> exists k :: 0 <= k < |ranges| && ranges[k].0 <= cp <= ranges[k].1
  {
    var table := Coalesce(ranges);
    found := InRanges(table, cp);
    assert found <==> Covers(ranges, cp);
    if k :| 0 <= k < |ranges| && ranges[k].0 <= cp <= ranges[k].1 { assert Holds(ranges[k], cp); }
  }
}

/** `floor_of` of benchmarks/bench_layout.py, over exact reals: the 0.95 quantile of the magnitudes of a list of
    deltas, linearly interpolated. */
module NoiseFloor {

  function Abs(x: real): (m: real)
    ensures m >= 0.0
  {
    if x < 0.0 then -x else x
  }

  function Magnitudes(ds: seq<real>): (ms: seq<real>)
    ensures |ms| == |ds| && forall k :: 0 <= k < |ds| ==> ms[k] == Abs(ds[k])
  {
    if ds == [] then [] else [Abs(ds[0])] + Magnitudes(ds[1..])
  }

  predicate Ordered(s: seq<real>) { forall i, j :: 0 <= i < j < |s| ==> s[i] <= s[j] }

  function Insert(x: real, s: seq<real>): (t: seq<real>)
    ensures |t| == |s| + 1 && multiset(t) == multiset{x} + multiset(s)
  {
    if s == [] || x <= s[0] then [x] + s
    else
      assert s == [s[0]] + s[1..];
      [s[0]] + Insert(x, s[1..])
  }

  function Sorted(s: seq<real>): (t: seq<real>)
    ensures |t| == |s| && multiset(t) == multiset(s)
  {
    if s == [] then [] else assert s == [s[0]] + s[1..]; Insert(s[0], Sorted(s[1..]))
  }

  lemma InsertMembers(x: real, s: seq<real>)
    ensures forall y :: y in Insert(x, s) <==> y == x || y in s
  {
    hide Insert;
    assert forall y :: y in Insert(x, s) <==> y in multiset(Insert(x, s));
  }

  lemma {:induction false} InsertOrdered(x: real, s: seq<real>)
    requires Ordered(s)
    ensures Ordered(Insert(x, s))
    decreases |s|
  {
    if s != [] && x > s[0] {
      InsertOrdered(x, s[1..]);
      InsertMembers(x, s[1..]);
      OrderedFirst(s[0], Insert(x, s[1..]));
    }
  }

  lemma OrderedFirst(x: real, t: seq<real>)
    requires Ordered(t) && forall y :: y in t ==> x <= y
    ensures Ordered([x] + t)
  {
    forall j | 0 < j < |[x] + t| ensures x <= ([x] + t)[j] { assert ([x] + t)[j] == t[j - 1] && t[j - 1] in t; }
  }

  lemma {:induction false} SortedOrdered(s: seq<real>)
    ensures Ordered(Sorted(s))
    decreases |s|
  {
    if s != [] {
      SortedOrdered(s[1..]);
      InsertOrdered(s[0], Sorted(s[1..]));
    }
  }

  /** The index below the quantile's position, and how far past it the position lies. */
  function LowIndex(n: nat): (lo: nat)
    requires n >= 1
    ensures lo <= n - 1 && (n >= 2 ==> lo < n - 1)
  {
    19 * (n - 1) / 20
  }

  function Fraction(n: nat): (f: real)
    requires n >= 1
    ensures 0.0 <= f < 1.0
  {
    var r := 19 * (n - 1) % 20;
    r as real / 20.0
  }

  /** Linear interpolation. */
  function Blend(a: real, b: real, f: real): real { a + Times(b - a, f) }

  /** A product, named so that a proof can keep it whole. */
  function Times(x: real, y: real): real { x * y }

  /** The quantile of a sorted list. */
  function Quantile(mags: seq<real>): real {
    var n := |mags|;
    if n == 0 then 0.0
    else if n == 1 then mags[0]
    else
      var lo := LowIndex(n);
      var hi := if lo + 1 < n - 1 then lo + 1 else n - 1;
      Blend(mags[lo], mags[hi], Fraction(n))
  }

  /** The floor of a list of deltas. */
  function FloorOf(deltas: seq<real>): real { Quantile(Sorted(Magnitudes(deltas))) }

  /** The position is 0.95 of the way along, split into its index and its fraction. */
  lemma PositionSplits(n: nat)
    requires n >= 1
    ensures LowIndex(n) as real + Fraction(n) == 0.95 * (n - 1) as real
  {
    Twentieths(n - 1, 19 * (n - 1) / 20, 19 * (n - 1) % 20);
  }

  lemma Twentieths(m: nat, q: nat, r: nat)
    requires 19 * m == 20 * q + r
    ensures q as real + r as real / 20.0 == 0.95 * m as real
  {
    assert 19.0 * m as real == (19 * m) as real == (20 * q + r) as real == 20.0 * q as real + r as real;
  }

  lemma TimesFacts(x: real, y: real, f: real)
    ensures Times(x - y, f) == Times(x, f) - Times(y, f)
    ensures Times(x, f) + Times(x, 1.0 - f) == x
  {
  }

  lemma TimesNonNegative(x: real, f: real)
    requires x >= 0.0 && f >= 0.0
    ensures Times(x, f) >= 0.0
  {
  }

  lemma BlendBetween(a: real, b: real, f: real)
    requires a <= b && 0.0 <= f < 1.0
    ensures a <= Blend(a, b, f) <= b
  {
    hide Times;
    TimesNonNegative(b - a, f);
    TimesNonNegative(b - a, 1.0 - f);
    TimesFacts(b - a, 0.0, f);
  }

  lemma BlendMonotone(a: real, b: real, c: real, d: real, f: real)
    requires a <= c && b <= d && 0.0 <= f < 1.0
    ensures Blend(a, b, f) <= Blend(c, d, f)
  {
    hide Times;
    TimesNonNegative(c - a, 1.0 - f);
    TimesNonNegative(d - b, f);
    TimesFacts(c - a, 0.0, f);
    TimesFacts(c, a, f);
    TimesFacts(d, b, f);
    TimesFacts(b, a, f);
    TimesFacts(d, c, f);
  }

  lemma QuantileBetween(mags: seq<real>)
    requires Ordered(mags) && mags != []
    ensures var lo := LowIndex(|mags|); mags[lo] <= Quantile(mags) <= mags[if lo + 1 < |mags| then lo + 1 else lo]
  {
    hide Blend, Fraction, LowIndex;
    if |mags| > 1 {
      var lo := LowIndex(|mags|);
      BlendBetween(mags[lo], mags[lo + 1], Fraction(|mags|));
    }
  }

  /** The floor lies between the two neighbouring order statistics. */
  lemma FloorBetween(deltas: seq<real>)
    requires deltas != []
    ensures var mags, lo := Sorted(Magnitudes(deltas)), LowIndex(|deltas|);
            mags[lo] <= FloorOf(deltas) <= mags[if lo + 1 < |deltas| then lo + 1 else lo]
  {
    hide Quantile, Sorted, Magnitudes, LowIndex, Ordered;
    SortedOrdered(Magnitudes(deltas));
    QuantileBetween(Sorted(Magnitudes(deltas)));
  }

  /** How many of the values exceed `x`. */
  function Above(s: seq<real>, x: real): nat { if s == [] then 0 else (if s[0] > x then 1 else 0) + Above(s[1..], x) }

  lemma {:induction false} AboveInsert(y: real, s: seq<real>, x: real)
    ensures Above(Insert(y, s), x) == Above([y], x) + Above(s, x)
    decreases |s|
  {
    assert [y][1..] == [];
    if s == [] || y <= s[0] {
      assert ([y] + s)[1..] == s;
    } else {
      AboveInsert(y, s[1..], x);
      assert Insert(y, s)[1..] == Insert(y, s[1..]);
    }
  }

  lemma {:induction false} AboveSorted(s: seq<real>, x: real)
    ensures Above(Sorted(s), x) == Above(s, x)
    decreases |s|
  {
    if s != [] {
      AboveSorted(s[1..], x);
      AboveInsert(s[0], Sorted(s[1..]), x);
      assert [s[0]][1..] == [];
    }
  }

  lemma {:induction false} AboveOrdered(s: seq<real>, x: real, k: nat)
    requires Ordered(s) && k < |s| && s[k] <= x
    ensures Above(s, x) <= |s| - 1 - k
    decreases |s|
  {
    if k > 0 { AboveOrdered(s[1..], x, k - 1); } else { AboveAtMost(s[1..], x); }
  }

  lemma {:induction false} AboveAtMost(s: seq<real>, x: real)
    ensures Above(s, x) <= |s|
    decreases |s|
  {
    if s != [] { AboveAtMost(s[1..], x); }
  }

  /** At most a twentieth of the magnitudes, rounded up, exceed the floor. */
  lemma FewExceed(deltas: seq<real>)
    requires deltas != []
    ensures Above(Magnitudes(deltas), FloorOf(deltas)) <= |deltas| - 1 - LowIndex(|deltas|)
  {
    var mags := Sorted(Magnitudes(deltas));
    SortedOrdered(Magnitudes(deltas));
    FloorBetween(deltas);
    AboveOrdered(mags, FloorOf(deltas), LowIndex(|deltas|));
    AboveSorted(Magnitudes(deltas), FloorOf(deltas));
  }

  // ---------------------------------------------------------------- what the floor is

  /** The magnitudes, in order: as many as there are deltas, each a delta with its sign dropped. */
  ghost predicate SortedMagnitudes(mags: seq<real>, deltas: seq<real>) {
    && |mags| == |deltas| && (forall i, j :: 0 <= i < j < |mags| ==> mags[i] <= mags[j])
    && multiset(mags) == multiset(seq(|deltas|, k requires 0 <= k < |deltas| => if deltas[k] < 0.0 then -deltas[k] else deltas[k]))
  }

  lemma MagnitudesSorted(mags: seq<real>, deltas: seq<real>)
    requires SortedMagnitudes(mags, deltas)
    ensures mags == Sorted(Magnitudes(deltas))
  {
    hide Sorted;
    var plain := seq(|deltas|, k requires 0 <= k < |deltas| => if deltas[k] < 0.0 then -deltas[k] else deltas[k]);
    assert plain == Magnitudes(deltas);
    SortedOrdered(Magnitudes(deltas));
    OrderedIsUnique(mags, Sorted(Magnitudes(deltas)));
  }

  /** The floor of two deltas or more: the position is 0.95 of the way along the sorted magnitudes, and the floor lies as
      far between its neighbours as the position does. No delta gives 0, and a single one its magnitude. */
  lemma FloorIs(deltas: seq<real>, mags: seq<real>, lo: nat)
    requires SortedMagnitudes(mags, deltas)
    ensures deltas == [] ==> FloorOf(deltas) == 0.0
    ensures |deltas| == 1 ==> FloorOf(deltas) == mags[0]
    ensures |deltas| >= 2 && lo as real <= 0.95 * (|deltas| - 1) as real < lo as real + 1.0 ==>
              lo + 1 < |mags| &&
              FloorOf(deltas) == mags[lo] + (mags[lo + 1] - mags[lo]) * (0.95 * (|deltas| - 1) as real - lo as real)
  {
    hide Sorted, Magnitudes, Quantile, SortedMagnitudes;
    MagnitudesSorted(mags, deltas);
    SameCount(mags, deltas);
    QuantileIs(mags, lo);
  }

  lemma SameCount(mags: seq<real>, deltas: seq<real>)
    requires SortedMagnitudes(mags, deltas)
    ensures |mags| == |deltas|
  {
  }

  lemma QuantileIs(mags: seq<real>, lo: nat)
    ensures mags == [] ==> Quantile(mags) == 0.0
    ensures |mags| == 1 ==> Quantile(mags) == mags[0]
    ensures |mags| >= 2 && lo as real <= 0.95 * (|mags| - 1) as real < lo as real + 1.0 ==>
              lo + 1 < |mags| &&
              Quantile(mags) == mags[lo] + (mags[lo + 1] - mags[lo]) * (0.95 * (|mags| - 1) as real - lo as real)
  {
    hide LowIndex, Fraction, Times;
    if |mags| >= 2 && lo as real <= 0.95 * (|mags| - 1) as real < lo as real + 1.0 {
      PositionSplits(|mags|);
      assert lo == LowIndex(|mags|) && Fraction(|mags|) == 0.95 * (|mags| - 1) as real - lo as real;
      TimesIs(mags[lo + 1] - mags[lo], Fraction(|mags|));
    }
  }

  lemma TimesIs(x: real, y: real)
    ensures Times(x, y) == x * y
  {
  }

  predicate EvenlySpaced(mags: seq<real>, a: real, d: real) {
    forall k :: 0 <= k < |mags| ==> mags[k] == a + Times(k as real, d)
  }

  /** Magnitudes spaced evenly have their floor on the same line, whatever the order and the signs of the deltas. */
  lemma EvenSpacing(deltas: seq<real>, mags: seq<real>, a: real, d: real)
    requires SortedMagnitudes(mags, deltas) && deltas != [] && EvenlySpaced(mags, a, d)
    ensures FloorOf(deltas) == a + Times(0.95 * (|deltas| - 1) as real, d)
  {
    hide Times, LowIndex, Fraction, FloorOf, SortedMagnitudes, EvenlySpaced;
    var n := |deltas|;
    var lo, pos := LowIndex(n), 0.95 * (n - 1) as real;
    PositionSplits(n);
    FloorIs(deltas, mags, lo);
    SpacedAt(mags, deltas, a, d, lo);
    if n >= 2 {
      SpacedAt(mags, deltas, a, d, lo + 1);
      Along(a, d, lo as real, pos - lo as real, mags[lo], mags[lo + 1]);
      assert lo as real + (pos - lo as real) == pos;
    } else {
      assert lo as real == 0.0 == pos;
    }
  }

  lemma SpacedAt(mags: seq<real>, deltas: seq<real>, a: real, d: real, k: nat)
    requires SortedMagnitudes(mags, deltas) && EvenlySpaced(mags, a, d) && k < |deltas|
    ensures |mags| == |deltas| && mags[k] == a + Times(k as real, d)
  {
    hide Times;
  }

  lemma Along(a: real, d: real, x: real, f: real, u: real, v: real)
    requires u == a + Times(x, d) && v == a + Times(x + 1.0, d)
    ensures u + (v - u) * f == a + Times(x + f, d)
  {
    assert v - u == d;
  }

  // ---------------------------------------------------------------- order and sign do not matter

  lemma {:induction false} OrderedIsUnique(a: seq<real>, b: seq<real>)
    requires Ordered(a) && Ordered(b) && multiset(a) == multiset(b)
    ensures a == b
    decreases |a|
  {
    assert |a| == |multiset(a)| == |multiset(b)| == |b|;
    if a != [] {
      LeastFirst(a, b);
      LeastFirst(b, a);
      assert a == [a[0]] + a[1..] && b == [b[0]] + b[1..];
      assert multiset(a[1..]) == multiset(a) - multiset{a[0]} == multiset(b) - multiset{b[0]} == multiset(b[1..]);
      OrderedIsUnique(a[1..], b[1..]);
    }
  }

  lemma LeastFirst(a: seq<real>, b: seq<real>)
    requires Ordered(a) && multiset(a) == multiset(b) && a != [] && b != []
    ensures a[0] <= b[0]
  {
    assert b[0] in multiset(b);
    var k :| 0 <= k < |a| && a[k] == b[0];
  }

  /** Reordering the deltas or flipping their signs leaves the floor alone. */
  lemma FloorIgnoresOrderAndSign(a: seq<real>, b: seq<real>)
    requires multiset(Magnitudes(a)) == multiset(Magnitudes(b))
    ensures FloorOf(a) == FloorOf(b)
  {
    hide Sorted, Magnitudes, Quantile;
    SortedOrdered(Magnitudes(a));
    SortedOrdered(Magnitudes(b));
    OrderedIsUnique(Sorted(Magnitudes(a)), Sorted(Magnitudes(b)));
  }

  // ---------------------------------------------------------------- larger magnitudes

  predicate Dominated(a: seq<real>, b: seq<real>) { |a| == |b| && forall k :: 0 <= k < |a| ==> a[k] <= b[k] }

  lemma InsertFirst(x: real, s: seq<real>)
    requires s == [] || x <= s[0]
    ensures Insert(x, s) == [x] + s
  {
  }

  lemma InsertLater(x: real, s: seq<real>)
    requires s != [] && x > s[0]
    ensures Insert(x, s) == [s[0]] + Insert(x, s[1..])
  {
  }

  lemma DominatedStep(x: real, y: real, s: seq<real>, t: seq<real>)
    requires x <= y && Dominated(s, t)
    ensures Dominated([x] + s, [y] + t)
  {
  }

  /** Inserting the larger value into the larger list keeps every order statistic at least as large. */
  lemma {:induction false} InsertMonotone(x: real, y: real, s: seq<real>, t: seq<real>)
    requires x <= y && Ordered(s) && Ordered(t) && Dominated(s, t)
    ensures Dominated(Insert(x, s), Insert(y, t))
    decreases |s|
  {
    hide Insert, Ordered, Dominated;
    Unpack(s, t);
    if s == [] || (x <= s[0] && y <= t[0]) {
      InsertFirst(x, s);
      InsertFirst(y, t);
      DominatedStep(x, y, s, t);
    } else {
      var s', t' := s[1..], t[1..];
      assert s == [s[0]] + s' && t == [t[0]] + t';
      if x <= s[0] {
        // `s[0]` goes where `y` goes, one place on.
        InsertFirst(x, s);
        InsertLater(y, t);
        FirstInserts(s);
        InsertMonotone(s[0], y, s', t');
        DominatedStep(x, t[0], s, Insert(y, t'));
      } else if y <= t[0] {
        InsertLater(x, s);
        InsertFirst(y, t);
        FirstInserts(t);
        InsertMonotone(x, t[0], s', t');
        DominatedStep(s[0], y, Insert(x, s'), t);
      } else {
        InsertLater(x, s);
        InsertLater(y, t);
        InsertMonotone(x, y, s', t');
        DominatedStep(s[0], t[0], Insert(x, s'), Insert(y, t'));
      }
    }
  }

  lemma Unpack(s: seq<real>, t: seq<real>)
    requires Ordered(s) && Ordered(t) && Dominated(s, t)
    ensures |s| == |t|
    ensures s != [] ==> s[0] <= t[0] && Dominated(s[1..], t[1..]) && Ordered(s[1..]) && Ordered(t[1..])
    ensures |s| > 1 ==> s[0] <= s[1] && t[0] <= t[1]
  {
  }

  lemma FirstInserts(s: seq<real>)
    requires Ordered(s) && s != []
    ensures Insert(s[0], s[1..]) == s
  {
    InsertFirst(s[0], s[1..]);
  }

  lemma {:induction false} SortedMonotone(a: seq<real>, b: seq<real>)
    requires Dominated(a, b)
    ensures Dominated(Sorted(a), Sorted(b))
    decreases |a|
  {
    if a != [] {
      SortedMonotone(a[1..], b[1..]);
      SortedOrdered(a[1..]);
      SortedOrdered(b[1..]);
      InsertMonotone(a[0], b[0], Sorted(a[1..]), Sorted(b[1..]));
    }
  }

  /** The floor never falls when magnitudes grow. */
  lemma FloorIsMonotone(a: seq<real>, b: seq<real>)
    requires Dominated(Magnitudes(a), Magnitudes(b))
    ensures FloorOf(a) <= FloorOf(b)
  {
    hide Sorted, Magnitudes, Quantile;
    SortedMonotone(Magnitudes(a), Magnitudes(b));
    QuantileMonotone(Sorted(Magnitudes(a)), Sorted(Magnitudes(b)));
  }

  lemma QuantileMonotone(x: seq<real>, y: seq<real>)
    requires Dominated(x, y)
    ensures Quantile(x) <= Quantile(y)
  {
    hide Blend, Fraction, LowIndex;
    if |x| > 1 {
      var lo := LowIndex(|x|);
      BlendMonotone(x[lo], x[lo + 1], y[lo], y[lo + 1], Fraction(|x|));
    }
  }
}

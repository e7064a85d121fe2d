/** What the `--fix` loop of tools/check_doc_style.py does to a run of doc lines that several declarations share. Only the
    sort of each line matters: the lines from the run down to the last of the declarations are a stack of sorts, and
    every edit is a turn on it. */
module SharedRuns {

  /** A line of code; one with a trailing comment; the line that opens a block; any other comment line. */
  datatype Sort = Code | Trailed | Opener | Comment

  predicate IsCode(s: Sort) { s.Code? || s.Trailed? }

  /** An edit of the group: its declaration, counted from the start of the run, and its form. */
  datatype Item = Item(d: nat, trailing: bool)

  /** The edits of one run of `run` lines, from the last declaration up. */
  predicate Group(its: seq<Item>, run: nat) {
    && run >= 1
    && (forall i :: 0 <= i < |its| ==> run <= its[i].d && (its[i].trailing ==> run == 1))
    && (forall i, j :: 0 <= i < j < |its| ==> its[j].d < its[i].d)
  }

  predicate Covers(z: seq<Sort>, its: seq<Item>) { its != [] ==> its[0].d < |z| }

  function Wrapped(run: nat): (b: seq<Sort>)
    ensures |b| == run + 2 && b[0] == Opener && forall k :: 1 <= k < |b| ==> b[k] == Comment
  {
    [Opener] + seq(run + 1, _ => Comment)
  }

  function Turn(z: seq<Sort>, run: nat, it: Item): (r: seq<Sort>)
    requires 1 <= run <= it.d < |z| && (it.trailing ==> run == 1)
    ensures |r| == if it.trailing then |z| - 1 else |z| + 2
  {
    if it.trailing then z[it.d := Trailed][1..] else Wrapped(run) + z[run..]
  }

  function Turns(z: seq<Sort>, run: nat, its: seq<Item>): seq<Sort>
    requires Group(its, run) && Covers(z, its)
    decreases |its|
  {
    if its == [] then z else Turns(Turn(z, run, its[0]), run, its[1..])
  }

  lemma {:induction false} TurnsSplit(z: seq<Sort>, run: nat, a: seq<Item>, b: seq<Item>)
    requires Group(a + b, run) && Covers(z, a + b)
    ensures Group(a, run) && Group(b, run) && Covers(z, a) && Covers(Turns(z, run, a), b)
    ensures Turns(z, run, a + b) == Turns(Turns(z, run, a), run, b)
    decreases |a|
  {
    if a == [] {
      assert a + b == b;
    } else {
      var c := a + b;
      assert c[1..] == a[1..] + b;
      assert forall i :: 0 <= i < |a| ==> a[i] == c[i];
      assert forall i :: 0 <= i < |b| ==> b[i] == c[|a| + i];
      TurnsSplit(Turn(z, run, a[0]), run, a[1..], b);
    }
  }

  lemma TurnsOne(z: seq<Sort>, run: nat, it: Item)
    requires Group([it], run) && it.d < |z|
    ensures Turns(z, run, [it]) == Turn(z, run, it)
  {
    assert [it][1..] == [];
  }

  /** The stack before the last turn, and that turn. */
  lemma TurnsLast(z: seq<Sort>, run: nat, its: seq<Item>) returns (before: seq<Sort>)
    requires Group(its, run) && Covers(z, its) && its != []
    ensures var n := |its| - 1;
            && Group(its[..n], run) && Covers(z, its[..n]) && before == Turns(z, run, its[..n])
            && 1 <= run <= its[n].d < |before| && (its[n].trailing ==> run == 1)
            && Turns(z, run, its) == Turn(before, run, its[n])
  {
    var n := |its| - 1;
    assert its == its[..n] + [its[n]];
    TurnsSplit(z, run, its[..n], [its[n]]);
    before := Turns(z, run, its[..n]);
    TurnsOne(before, run, its[n]);
  }

  // ---------------------------------------------------------------- what the edits are meant to leave

  /** Every trailing edit made on its own declaration, and nothing moved. */
  function Painted(z: seq<Sort>, its: seq<Item>): (p: seq<Sort>)
    ensures |p| == |z|
  {
    if its == [] then z
    else
      var p := Painted(z, its[1..]);
      if its[0].trailing && its[0].d < |z| then p[its[0].d := Trailed] else p
  }

  predicate Takes(its: seq<Item>, j: nat) { exists i :: 0 <= i < |its| && its[i].trailing && its[i].d == j }

  lemma {:induction false} PaintedAt(z: seq<Sort>, its: seq<Item>, j: nat)
    requires j < |z|
    ensures Painted(z, its)[j] == if Takes(its, j) then Trailed else z[j]
    decreases |its|
  {
    if its != [] {
      PaintedAt(z, its[1..], j);
      if Takes(its[1..], j) {
        var i :| 0 <= i < |its[1..]| && its[1..][i].trailing && its[1..][i].d == j;
        assert its[i + 1].trailing && its[i + 1].d == j;
      }
      if Takes(its, j) && !(its[0].trailing && its[0].d == j) {
        var i :| 0 <= i < |its| && its[i].trailing && its[i].d == j;
        assert its[1..][i - 1].trailing && its[1..][i - 1].d == j;
      }
    }
  }

  /** The result for the run and the lines down to the last declaration: the last edit decides the run. */
  function Meant(z: seq<Sort>, run: nat, its: seq<Item>): seq<Sort>
    requires its != [] && run <= |z|
  {
    (if its[0].trailing then [] else Wrapped(run)) + Painted(z, its)[run..]
  }

  /** The lines of a run and of the declarations that share it, before any edit. */
  predicate Start(z: seq<Sort>, run: nat, its: seq<Item>) {
    && Group(its, run) && its != [] && its[0].d == |z| - 1
    && (forall k :: 0 <= k < |z| ==> if k < run then z[k] == Comment else IsCode(z[k]))
    && (forall i :: 0 <= i < |its| ==> its[i].d < |z| && z[its[i].d] == Code)
  }

  /** One edit alone does what it is meant to. */
  lemma OneTurn(z: seq<Sort>, run: nat, its: seq<Item>)
    requires Start(z, run, its) && |its| == 1
    ensures Turns(z, run, its) == Meant(z, run, its)
  {
    assert its == [its[0]] && its[1..] == [];
    TurnsOne(z, run, its[0]);
    assert Painted(z, []) == z;
  }

  // ---------------------------------------------------------------- lines counted from the bottom

  /** The line `r` lines above the bottom: turns take from the top and add to it, so this place stays put. */
  function At(z: seq<Sort>, r: nat): Sort
    requires r < |z|
  {
    z[|z| - 1 - r]
  }

  /** Outside the places from `lo` up to below `hi`, every line is as in `base`, or a comment line. */
  ghost predicate Tracks(z: seq<Sort>, base: seq<Sort>, lo: nat, hi: nat) {
    forall r: nat {:trigger At(z, r)} | r < |z| ::
      lo <= r < hi || !IsCode(At(z, r)) || (r < |base| && At(z, r) == At(base, r))
  }

  lemma TurnAt(z: seq<Sort>, run: nat, it: Item, r: nat)
    requires 1 <= run <= it.d < |z| && (it.trailing ==> run == 1) && r < |Turn(z, run, it)|
    ensures it.trailing ==> At(Turn(z, run, it), r) == if r == |z| - 1 - it.d then Trailed else At(z, r)
    ensures !it.trailing && r < |z| - run ==> At(Turn(z, run, it), r) == At(z, r)
    ensures !it.trailing && r >= |z| - run ==> !IsCode(At(Turn(z, run, it), r))
  {
  }

  lemma TracksTurn(z: seq<Sort>, run: nat, it: Item, base: seq<Sort>, lo: nat, hi: nat)
    requires 1 <= run <= it.d < |z| && (it.trailing ==> run == 1) && Tracks(z, base, lo, hi)
    requires it.trailing ==> lo <= |z| - 1 - it.d && hi <= |z| - it.d
    ensures Tracks(Turn(z, run, it), base, lo, if it.trailing then |z| - it.d else hi)
  {
    hide IsCode, At;
    var next := Turn(z, run, it);
    forall r: nat | r < |next|
      ensures (lo <= r < if it.trailing then |z| - it.d else hi) || !IsCode(At(next, r)) ||
              (r < |base| && At(next, r) == At(base, r))
    {
      TurnAt(z, run, it, r);
      if r < |z| { assert lo <= r < hi || !IsCode(At(z, r)) || (r < |base| && At(z, r) == At(base, r)); }
    }
  }

  /** Trailing edits write higher and higher, counted from the bottom: before item `k`, everything written lies between
      the place the first of them writes and the place item `k` would write. */
  lemma {:induction false} TracksTurns(z: seq<Sort>, run: nat, its: seq<Item>, k: nat, base: seq<Sort>, lo: nat)
    requires Group(its, run) && Covers(z, its) && k < |its|
    requires Tracks(z, base, lo, |z| - its[0].d) && lo <= |z| - 1 - its[0].d
    ensures Group(its[..k], run) && Covers(z, its[..k])
    ensures var now := Turns(z, run, its[..k]);
            its[k].d < |now| && Tracks(now, base, lo, |now| - its[k].d) && lo <= |now| - 1 - its[k].d
    decreases k
  {
    hide Tracks;
    if k > 0 {
      var next := Turn(z, run, its[0]);
      TracksTurn(z, run, its[0], base, lo, |z| - its[0].d);
      assert its[1].d < its[0].d;
      TracksMore(next, base, lo, |z| - its[0].d, |next| - its[1].d);
      TracksTurns(next, run, its[1..], k - 1, base, lo);
      assert its[..k][1..] == its[1..][..k - 1] && its[..k][0] == its[0];
    } else {
      assert its[..0] == [];
    }
  }

  lemma TracksMore(z: seq<Sort>, base: seq<Sort>, lo: nat, hi: nat, more: nat)
    requires Tracks(z, base, lo, hi) && (hi <= more || hi <= lo)
    ensures Tracks(z, base, lo, more)
  {
    hide IsCode, At;
  }

  /** Blocks alone write nowhere. */
  lemma {:induction false} TracksBlocks(z: seq<Sort>, run: nat, its: seq<Item>, base: seq<Sort>)
    requires Group(its, run) && Covers(z, its) && Tracks(z, base, 0, 0)
    requires forall i :: 0 <= i < |its| ==> !its[i].trailing
    ensures Tracks(Turns(z, run, its), base, 0, 0) && |Turns(z, run, its)| == |z| + 2 * |its|
    decreases |its|
  {
    hide Tracks;
    if its != [] {
      TracksTurn(z, run, its[0], base, 0, 0);
      TracksBlocks(Turn(z, run, its[0]), run, its[1..], base);
    }
  }

  lemma TracksSelf(z: seq<Sort>)
    ensures Tracks(z, z, 0, 0)
  {
  }

  lemma TracksFrom(z: seq<Sort>, base: seq<Sort>, lo: nat, hi: nat)
    requires Tracks(z, base, 0, 0)
    ensures Tracks(z, base, lo, hi)
  {
    hide IsCode, At;
  }

  /** After blocks `a` everything still stands. */
  lemma AfterBlocks(z: seq<Sort>, run: nat, a: seq<Item>, b: seq<Item>) returns (mid: seq<Sort>)
    requires Group(a + b, run) && Covers(z, a + b) && b != [] && forall i :: 0 <= i < |a| ==> !a[i].trailing
    ensures Group(a, run) && Group(b, run) && Covers(z, a) && Covers(mid, b)
    ensures mid == Turns(z, run, a) && |mid| == |z| + 2 * |a| && b[0].d < |mid|
    ensures Tracks(mid, z, |mid| - 1 - b[0].d, |mid| - b[0].d)
    ensures Turns(z, run, a + b) == Turns(mid, run, b)
  {
    hide Tracks, Turns, IsCode, Group;
    TurnsSplit(z, run, a, b);
    mid := Turns(z, run, a);
    TracksSelf(z);
    TracksBlocks(z, run, a, z);
    TracksFrom(mid, z, |mid| - 1 - b[0].d, |mid| - b[0].d);
  }

  /** From there on, while the edits `b` are made, it does below the place that the first of them writes. */
  lemma BelowFirst(z: seq<Sort>, run: nat, a: seq<Item>, b: seq<Item>, k: nat)
    requires Group(a + b, run) && Covers(z, a + b) && k < |b| && forall i :: 0 <= i < |a| ==> !a[i].trailing
    ensures Group(a + b[..k], run) && Covers(z, a + b[..k])
    ensures var now, lo := Turns(z, run, a + b[..k]), |z| + 2 * |a| - 1 - b[0].d;
            b[k].d < |now| && 0 <= lo <= |now| - 1 - b[k].d && Tracks(now, z, lo, |now| - b[k].d)
  {
    hide Tracks, Turns, IsCode, Group;
    var mid := AfterBlocks(z, run, a, b);
    TracksTurns(mid, run, b, k, z, |mid| - 1 - b[0].d);
    TurnsPrefix(z, run, a, b, k);
  }

  lemma TurnsPrefix(z: seq<Sort>, run: nat, a: seq<Item>, b: seq<Item>, k: nat)
    requires Group(a + b, run) && Covers(z, a + b) && k <= |b|
    ensures Group(a, run) && Covers(z, a) && Group(a + b[..k], run) && Covers(z, a + b[..k])
    ensures Group(b[..k], run) && Covers(Turns(z, run, a), b[..k])
    ensures Turns(z, run, a + b[..k]) == Turns(Turns(z, run, a), run, b[..k])
  {
    hide Turns, Group;
    assert (a + b)[..|a| + k] == a + b[..k];
    GroupPrefix(z, run, a + b, |a| + k);
    TurnsSplit(z, run, a, b[..k]);
  }

  lemma GroupPrefix(z: seq<Sort>, run: nat, its: seq<Item>, n: nat)
    requires Group(its, run) && Covers(z, its) && n <= |its|
    ensures Group(its[..n], run) && Covers(z, its[..n])
  {
  }

  /** The same at the end of all turns. */
  lemma BelowFirstEnd(z: seq<Sort>, run: nat, a: seq<Item>, b: seq<Item>)
    requires Group(a + b, run) && Covers(z, a + b) && b != [] && forall i :: 0 <= i < |a| ==> !a[i].trailing
    ensures var now, lo := Turns(z, run, a + b), |z| + 2 * |a| - 1 - b[0].d; lo >= 0 && Tracks(now, z, lo, |now|)
  {
    hide Tracks, Turns, IsCode, Group;
    var mid := AfterBlocks(z, run, a, b);
    TracksAll(mid, run, b, z, |mid| - 1 - b[0].d);
  }

  lemma TracksAll(z: seq<Sort>, run: nat, its: seq<Item>, base: seq<Sort>, lo: nat)
    requires Group(its, run) && Covers(z, its) && its != []
    requires Tracks(z, base, lo, |z| - its[0].d) && lo <= |z| - 1 - its[0].d
    ensures Tracks(Turns(z, run, its), base, lo, |Turns(z, run, its)|)
  {
    hide Tracks, Turns, IsCode, Group;
    var n := |its| - 1;
    TracksTurns(z, run, its, n, base, lo);
    var before := TurnsLast(z, run, its);
    TracksTurn(before, run, its[n], base, lo, |before| - its[n].d);
    TracksMore(Turns(z, run, its), base, lo, |before| - its[n].d, |Turns(z, run, its)|);
  }

  // ---------------------------------------------------------------- the last declaration takes a block

  /** Only the top line may open a block. */
  predicate TopOnly(z: seq<Sort>) { forall i :: 1 <= i < |z| ==> z[i] != Opener }

  lemma {:induction false} TurnsTopOnly(z: seq<Sort>, run: nat, its: seq<Item>)
    requires Group(its, run) && Covers(z, its) && TopOnly(z)
    ensures TopOnly(Turns(z, run, its))
    decreases |its|
  {
    if its != [] { TurnsTopOnly(Turn(z, run, its[0]), run, its[1..]); }
  }

  /** The lines meant, from the one below the run on, are lines of code. */
  lemma MeantCode(z: seq<Sort>, run: nat, its: seq<Item>)
    requires Start(z, run, its)
    ensures run < |z| && IsCode(Painted(z, its)[run])
  {
    PaintedAt(z, its, run);
  }

  lemma TrailingTop(z: seq<Sort>, run: nat, it: Item)
    requires 1 <= run <= it.d < |z| && (it.trailing ==> run == 1) && TopOnly(z)
    ensures it.trailing ==> Turn(z, run, it)[0] != Opener
  {
  }

  /** If the meant lines occur, they occur on top, the last turn made a block, and the rest lay below its run. */
  lemma LastIsBlock(z: seq<Sort>, run: nat, its: seq<Item>, u: seq<Sort>, v: seq<Sort>) returns (before: seq<Sort>)
    requires Start(z, run, its) && !its[0].trailing && Turns(z, run, its) == u + Meant(z, run, its) + v
    ensures var n := |its| - 1;
            && u == [] && !its[n].trailing && Group(its[..n], run) && Covers(z, its[..n])
            && before == Turns(z, run, its[..n]) && run <= |before| && before[run..] == Painted(z, its)[run..] + v
  {
    hide Turns, Painted;
    var now, meant := Turns(z, run, its), Meant(z, run, its);
    before := TurnsLast(z, run, its);
    TurnsTopOnly(z, run, its);
    GroupPrefix(z, run, its, |its| - 1);
    TurnsTopOnly(z, run, its[..|its| - 1]);
    assert now[|u|] == (u + meant + v)[|u|] == Opener;
    assert u == [];
    TrailingTop(before, run, its[|its| - 1]);
    if !its[|its| - 1].trailing {
      assert before[run..] == now[run + 2..] == (meant + v)[run + 2..] == Painted(z, its)[run..] + v;
    }
  }

  lemma {:induction false} FirstTrailing(its: seq<Item>, k: nat) returns (f: nat)
    requires k < |its| && its[k].trailing
    ensures f <= k && its[f].trailing && forall i :: 0 <= i < f ==> !its[i].trailing
  {
    f := 0;
    while !its[f].trailing
      invariant f <= k && forall i :: 0 <= i < f ==> !its[i].trailing
      decreases k - f
    {
      f := f + 1;
    }
  }

  /** Where the first trailing edit comes after a block, the whole stack differs from what is meant: its own line is
      never written. */
  lemma FirstIsMissed(z: seq<Sort>, run: nat, its: seq<Item>, f: nat)
    requires Start(z, run, its) && 0 < f < |its| && its[f].trailing && forall i :: 0 <= i < f ==> !its[i].trailing
    ensures Turns(z, run, its) != Meant(z, run, its)
  {
    hide Turns, Turn, Tracks, Painted;
    var a, b := its[..f], its[f..];
    assert its == a + b;
    BelowFirstEnd(z, run, a, b);
    var now, meant, r := Turns(z, run, its), Meant(z, run, its), |z| - 1 - its[f].d;
    PaintedAt(z, its, its[f].d);
    assert Takes(its, its[f].d);
    if now == meant {
      assert At(meant, r) == Painted(z, its)[its[f].d];
      TracksAt(now, z, |z| + 2 * f - 1 - its[f].d, |now|, r);
    }
  }

  lemma TracksAt(z: seq<Sort>, base: seq<Sort>, lo: nat, hi: nat, r: nat)
    requires Tracks(z, base, lo, hi) && r < |z| && !(lo <= r < hi) && IsCode(At(z, r))
    ensures r < |base| && At(z, r) == At(base, r)
  {
  }

  lemma BlockFirst(z: seq<Sort>, run: nat, its: seq<Item>, u: seq<Sort>, v: seq<Sort>)
    requires Start(z, run, its) && |its| >= 2 && !its[0].trailing
    ensures Turns(z, run, its) != u + Meant(z, run, its) + v
  {
    hide Turns, Tracks, Painted;
    if Turns(z, run, its) == u + Meant(z, run, its) + v {
      var n := |its| - 1;
      var before := LastIsBlock(z, run, its, u, v);
      var w := TurnsLast(z, run, its[..n]);
      MeantCode(z, run, its);
      assert before[run] == before[run..][0] == Painted(z, its)[run];
      var it := its[n - 1];
      assert its[..n][n - 1] == it && its[..n][..n - 1] == its[..n - 1];
      if it.trailing {
        if it.d == 2 {
          OverwrittenLine(z, its);
        } else {
          var f := FirstTrailing(its, n - 1);
          SecondIsOld(z, its, f, w, v, before);
          assert u + Meant(z, run, its) + v == Meant(z, run, its);
          FirstIsMissed(z, run, its, f);
        }
      }
    }
  }

  /** The topmost declaration right below the run keeps its line as code. */
  lemma OverwrittenLine(z: seq<Sort>, its: seq<Item>)
    requires Start(z, 1, its) && |its| >= 2 && its[|its| - 2].d == 2 && !its[|its| - 1].trailing
    ensures Painted(z, its)[1] == Code
  {
    PaintedAt(z, its, 1);
    assert its[|its| - 1].d == 1;
  }

  /** A line above the last write is an old one, so the stack has the height it had. */
  lemma SecondIsOld(z: seq<Sort>, its: seq<Item>, f: nat, w: seq<Sort>, v: seq<Sort>, before: seq<Sort>)
    requires Start(z, 1, its) && |its| >= 2 && var n := |its| - 1; f < n && its[n - 1].trailing && its[n - 1].d > 2
    requires forall i :: 0 <= i < f ==> !its[i].trailing
    requires var n := |its| - 1; Group(its[..n - 1], 1) && Covers(z, its[..n - 1]) && w == Turns(z, 1, its[..n - 1])
    requires var it := its[|its| - 2]; it.d < |w| && before == Turn(w, 1, it) && before[1..] == Painted(z, its)[1..] + v
    requires IsCode(before[1])
    ensures v == []
  {
    hide Turns, Tracks, Painted, Group;
    var n, r := |its| - 1, |w| - 3;
    var a, b := its[..f], its[f..];
    assert its == a + b && b[n - 1 - f] == its[n - 1] && a + b[..n - 1 - f] == its[..n - 1];
    BelowFirst(z, 1, a, b, n - 1 - f);
    assert before[1] == w[2] == At(w, r);
    var lo := |z| + 2 * f - 1 - b[0].d;
    TracksAt(w, z, lo, |w| - its[n - 1].d, r);
    TopIsComment(z, its, r);
  }

  lemma TopIsComment(z: seq<Sort>, its: seq<Item>, r: nat)
    requires Start(z, 1, its) && r < |z| && IsCode(At(z, r))
    ensures r < |z| - 1
  {
  }

  // ---------------------------------------------------------------- the last declaration takes a trailing comment

  function Count(z: seq<Sort>): nat { if z == [] then 0 else (if z[0].Trailed? then 1 else 0) + Count(z[1..]) }

  function TrailingItems(its: seq<Item>): nat { if its == [] then 0 else (if its[0].trailing then 1 else 0) + TrailingItems(its[1..]) }

  lemma {:induction false} CountConcat(a: seq<Sort>, b: seq<Sort>)
    ensures Count(a + b) == Count(a) + Count(b)
    decreases |a|
  {
    if a == [] {
      assert a + b == b;
    } else {
      assert (a + b)[1..] == a[1..] + b;
      CountConcat(a[1..], b);
    }
  }

  lemma {:induction false} CountSet(z: seq<Sort>, i: nat)
    requires i < |z|
    ensures Count(z[i := Trailed]) == Count(z) + if z[i].Trailed? then 0 else 1
    decreases i
  {
    if i == 0 {
      assert z[0 := Trailed][1..] == z[1..];
    } else {
      assert z[i := Trailed][1..] == z[1..][i - 1 := Trailed];
      CountSet(z[1..], i - 1);
    }
  }

  lemma {:induction false} NoneTrailed(z: seq<Sort>)
    requires forall k :: 0 <= k < |z| ==> !z[k].Trailed?
    ensures Count(z) == 0
    decreases |z|
  {
    if z != [] { NoneTrailed(z[1..]); }
  }

  lemma CountTurn(z: seq<Sort>, run: nat, it: Item)
    requires 1 <= run <= it.d < |z| && (it.trailing ==> run == 1)
    ensures Count(Turn(z, run, it)) <= Count(z) + if it.trailing && !z[it.d].Trailed? then 1 else 0
  {
    hide Count;
    if it.trailing {
      CountSet(z, it.d);
      CountFrom(z[it.d := Trailed], 1);
    } else {
      CountConcat(Wrapped(run), z[run..]);
      NoneTrailed(Wrapped(run));
      CountFrom(z, run);
    }
  }

  lemma CountFrom(z: seq<Sort>, k: nat)
    requires k <= |z|
    ensures Count(z[k..]) <= Count(z)
  {
    hide Count;
    CountConcat(z[..k], z[k..]);
    assert z == z[..k] + z[k..];
  }

  lemma {:induction false} CountTurns(z: seq<Sort>, run: nat, its: seq<Item>)
    requires Group(its, run) && Covers(z, its)
    ensures Count(Turns(z, run, its)) <= Count(z) + TrailingItems(its)
    decreases |its|
  {
    if its != [] {
      CountTurn(z, run, its[0]);
      CountTurns(Turn(z, run, its[0]), run, its[1..]);
    }
  }

  lemma {:induction false} CountPainted(z: seq<Sort>, run: nat, its: seq<Item>)
    requires Group(its, run) && forall i :: 0 <= i < |its| ==> its[i].d < |z| && z[its[i].d] == Code
    ensures Count(Painted(z, its)) == Count(z) + TrailingItems(its)
    decreases |its|
  {
    if its != [] {
      CountPainted(z, run, its[1..]);
      if its[0].trailing {
        PaintedAt(z, its[1..], its[0].d);
        assert forall i :: 0 <= i < |its[1..]| ==> its[1..][i] == its[i + 1];
        CountSet(Painted(z, its[1..]), its[0].d);
      }
    }
  }

  /** The meant lines hold one trailing comment more for each trailing edit. */
  lemma CountMeant(z: seq<Sort>, its: seq<Item>)
    requires Start(z, 1, its)
    ensures Count(Painted(z, its)[1..]) == Count(z) + TrailingItems(its)
  {
    CountPainted(z, 1, its);
    PaintedAt(z, its, 0);
  }

  lemma {:induction false} BottomStays(z: seq<Sort>, run: nat, its: seq<Item>)
    requires Group(its, run) && Covers(z, its) && z != [] && At(z, 0) == Trailed
    ensures Turns(z, run, its) != [] && At(Turns(z, run, its), 0) == Trailed
    decreases |its|
  {
    if its != [] { BottomStays(Turn(z, run, its[0]), run, its[1..]); }
  }

  lemma {:induction false} StaysWritten(z: seq<Sort>, run: nat, its: seq<Item>, r: nat)
    requires Group(its, run) && Covers(z, its) && (r < |z| ==> At(z, r) != Code)
    ensures r < |Turns(z, run, its)| ==> At(Turns(z, run, its), r) != Code
    decreases |its|
  {
    if its != [] { StaysWritten(Turn(z, run, its[0]), run, its[1..], r); }
  }

  lemma LastCounts(v: seq<Sort>)
    requires v != [] && v[|v| - 1] == Trailed
    ensures Count(v) >= 1
  {
    CountConcat(v[..|v| - 1], [Trailed]);
    assert v == v[..|v| - 1] + [Trailed];
  }

  /** The stack after the first turn, a trailing edit at the bottom. */
  lemma FirstTurn(z: seq<Sort>, its: seq<Item>) returns (z1: seq<Sort>)
    requires Start(z, 1, its) && its[0].trailing
    ensures z1 == z[|z| - 1 := Trailed][1..] && z1 != [] && At(z1, 0) == Trailed && Count(z1) == Count(z) + 1
    ensures Group(its[1..], 1) && Covers(z1, its[1..]) && Turns(z, 1, its) == Turns(z1, 1, its[1..])
  {
    z1 := Turn(z, 1, its[0]);
    CountSet(z, |z| - 1);
    assert z[|z| - 1 := Trailed][0] == Comment;
  }

  /** Nothing lies below the meant lines: there would be a trailing comment too many. */
  lemma NothingBelow(z: seq<Sort>, its: seq<Item>, u: seq<Sort>, v: seq<Sort>)
    requires Start(z, 1, its) && its[0].trailing && Turns(z, 1, its) == u + Meant(z, 1, its) + v
    ensures v == []
  {
    hide Turns, Painted, Count;
    if v != [] {
      var now := Turns(z, 1, its);
      var z1 := FirstTurn(z, its);
      BottomStays(z1, 1, its[1..]);
      assert now[|now| - 1] == v[|v| - 1];
      assert Meant(z, 1, its) == Painted(z, its)[1..];
      CountConcat(u + Meant(z, 1, its), v);
      CountConcat(u, Meant(z, 1, its));
      CountMeant(z, its);
      LastCounts(v);
      CountTurns(z, 1, its);
    }
  }

  /** Then a block: it wraps the line below the run, and whatever trailing edit comes next misses its own line. */
  lemma ThenBlock(z: seq<Sort>, its: seq<Item>, u: seq<Sort>)
    requires Start(z, 1, its) && |its| >= 2 && its[0].trailing && !its[1].trailing
    ensures Turns(z, 1, its) != u + Painted(z, its)[1..]
  {
    hide Turns, Painted, Count;
    var z1 := FirstTurn(z, its);
    var z2, c, y := Turn(z1, 1, its[1]), its[2..], Painted(z, its)[1..];
    assert its[1..][1..] == c && its[1..][0] == its[1];
    RestOf(z1, its[1..]);
    if k :| 0 <= k < |c| && c[k].trailing {
      var f := FirstTrailing(c, k);
      var d := c[f].d;
      assert c[f] == its[f + 2] && Takes(its, d);
      PaintedAt(z, its, d);
      assert z2[d + 1] == if d == 1 then Comment else z1[d - 1];
      NextIsMissed(z2, c, f, y, u);
    } else {
      MeantCode(z, 1, its);
      assert At(z2, |y| - 1) == z2[2];
      WrappedStays(z2, c, y, u);
    }
  }

  /** No trailing edit follows: the place of the line below the run keeps the block's end. */
  lemma WrappedStays(z: seq<Sort>, c: seq<Item>, y: seq<Sort>, u: seq<Sort>)
    requires Group(c, 1) && Covers(z, c) && forall k :: 0 <= k < |c| ==> !c[k].trailing
    requires 0 < |y| <= |z| && IsCode(y[0]) && At(z, |y| - 1) == Comment
    ensures Turns(z, 1, c) != u + y
  {
    hide Turns, Tracks, Group;
    var now := Turns(z, 1, c);
    TracksSelf(z);
    TracksBlocks(z, 1, c, z);
    if now == u + y {
      assert At(now, |y| - 1) == y[0];
      TracksAt(now, z, 0, 0, |y| - 1);
    }
  }

  /** A trailing edit follows: the first one writes above its own line. */
  lemma NextIsMissed(z: seq<Sort>, c: seq<Item>, f: nat, y: seq<Sort>, u: seq<Sort>)
    requires Group(c, 1) && Covers(z, c) && f < |c| && c[f].trailing && forall k :: 0 <= k < f ==> !c[k].trailing
    requires |z| == |y| + 2 && 1 <= c[f].d <= |y| && y[c[f].d - 1] == Trailed && At(z, |y| - c[f].d) != Trailed
    ensures Turns(z, 1, c) != u + y
  {
    hide Turns, Tracks, Group;
    var now, d := Turns(z, 1, c), c[f].d;
    assert c == c[..f] + c[f..];
    BelowFirstEnd(z, 1, c[..f], c[f..]);
    if now == u + y {
      assert At(now, |y| - d) == y[d - 1];
      TracksAt(now, z, |z| + 2 * f - 1 - d, |now|, |y| - d);
    }
  }

  lemma RestOf(z: seq<Sort>, its: seq<Item>)
    requires Group(its, 1) && Covers(z, its) && its != []
    ensures Group(its[1..], 1) && Covers(Turn(z, 1, its[0]), its[1..])
    ensures Turns(z, 1, its) == Turns(Turn(z, 1, its[0]), 1, its[1..])
  {
  }

  /** Then another trailing edit: it writes one line too low. */
  lemma ThenTrailing(z: seq<Sort>, its: seq<Item>, u: seq<Sort>)
    requires Start(z, 1, its) && |its| >= 2 && its[0].trailing && its[1].trailing
    ensures Turns(z, 1, its) != u + Painted(z, its)[1..]
  {
    hide Turns, Painted, Count, TrailingItems;
    var z1 := FirstTurn(z, its);
    var z2, c, d := Turn(z1, 1, its[1]), its[2..], its[1].d;
    assert its[1..][1..] == c && its[1..][0] == its[1];
    RestOf(z1, its[1..]);
    var now := Turns(z2, 1, c);
    var y := Painted(z, its)[1..];
    if now == u + y {
      CountTurn(z1, 1, its[1]);
      CountTurns(z2, 1, c);
      TwoTrailing(its);
      CountMeant(z, its);
      CountConcat(u, y);
      assert !z1[d].Trailed?;
      assert z1[d] == z[d + 1] == Code;
      var r := |z1| - 1 - d;
      assert At(z2, r) == Trailed && At(now, r) == y[d];
      PaintedAt(z, its, d + 1);
      StaysWritten(z2, 1, c, r);
    }
  }

  lemma TwoTrailing(its: seq<Item>)
    requires |its| >= 2 && its[0].trailing && its[1].trailing
    ensures TrailingItems(its) == 2 + TrailingItems(its[2..])
  {
    assert its[1..][1..] == its[2..];
  }

  /** A run shared by two declarations or more is never left as meant: wherever one looks in what the turns leave, the
      meant lines do not occur. */
  lemma SharedIsSpoiled(z: seq<Sort>, run: nat, its: seq<Item>, u: seq<Sort>, v: seq<Sort>)
    requires Start(z, run, its) && |its| >= 2
    ensures Turns(z, run, its) != u + Meant(z, run, its) + v
  {
    hide Turns, Painted;
    if its[0].trailing {
      if Turns(z, run, its) == u + Meant(z, run, its) + v {
        NothingBelow(z, its, u, v);
        assert u + Meant(z, run, its) + v == u + Painted(z, its)[1..];
        if its[1].trailing { ThenTrailing(z, its, u); } else { ThenBlock(z, its, u); }
      }
    } else {
      BlockFirst(z, run, its, u, v);
    }
  }
}

/** What the limit in `empty_alternatives_explode` counts: the distinct ways a repeated group can spend its
    iterations on alternatives that hold no atom, all on no text at all. */
module EmptyRuns {
  import opened Regex
  import opened ExplodeScan

  function Branches(body: Regex): seq<Regex> {
    match body
    case Or(a, b) => Branches(a) + Branches(b)
    case _ => [body]
  }

  /** A run: which alternative each of `m` iterations takes. It is empty when all of them match the empty word. */
  ghost predicate EmptyRun(I: Interp, body: Regex, run: seq<nat>, m: nat) {
    |run| == m && forall t :: 0 <= t < m ==> run[t] < |Branches(body)| && MatchesEmpty(I, Branches(body)[run[t]])
  }

  /** Positions, from `from` on, of the branches that hold no atom. */
  function Blank(bs: seq<Regex>, from: nat): (ids: seq<nat>)
    requires from <= |bs|
    ensures forall k :: 0 <= k < |ids| ==> from <= ids[k] < |bs| && Print(bs[ids[k]]) == ""
    ensures forall k, l :: 0 <= k < l < |ids| ==> ids[k] < ids[l]
    decreases |bs| - from
  {
    if from == |bs| then [] else (if Print(bs[from]) == "" then [from] else []) + Blank(bs, from + 1)
  }

  lemma {:induction false} BlankConcat(a: seq<Regex>, b: seq<Regex>, from: nat)
    requires from <= |a|
    ensures |Blank(a + b, from)| == |Blank(a, from)| + |Blank(b, 0)|
    decreases |a| - from
  {
    if from < |a| { BlankConcat(a, b, from + 1); } else { BlankShift(a, b, 0); }
  }

  lemma {:induction false} BlankShift(a: seq<Regex>, b: seq<Regex>, from: nat)
    requires from <= |b|
    ensures |Blank(a + b, |a| + from)| == |Blank(b, from)|
    decreases |b| - from
  {
    if from < |b| { BlankShift(a, b, from + 1); }
  }

  lemma {:induction false} BlankCounts(body: Regex)
    ensures |Blank(Branches(body), 0)| == EmptyAlternatives(body)
    decreases body
  {
    match body
    case Or(a, b) => BlankCounts(a); BlankCounts(b); BlankConcat(Branches(a), Branches(b), 0);
    case _ => assert Blank([body], 1) == [];
  }

  /** A valid term that prints as nothing matches the empty word. */
  lemma {:induction false} BlankMatchesEmpty(I: Interp, r: Regex)
    requires Valid(r) && !r.Or? && Print(r) == ""
    ensures MatchesEmpty(I, r)
    decreases r
  {
    match r
    case Cat(a, b) => BlankMatchesEmpty(I, a); BlankMatchesEmpty(I, b);
    case Rep(a, _, _) => AtomStart(a);
    case _ =>
  }

  lemma {:induction false} BranchesValid(body: Regex, k: nat)
    requires Valid(body) && k < |Branches(body)|
    ensures Valid(Branches(body)[k]) && !Branches(body)[k].Or?
    decreases body
  {
    match body
    case Or(a, b) =>
      if k < |Branches(a)| { BranchesValid(a, k); } else { BranchesValid(b, k - |Branches(a)|); }
    case _ =>
  }

  function Prefixed(c: nat, runs: set<seq<nat>>): set<seq<nat>> { set t | t in runs :: [c] + t }

  lemma {:induction false} PrefixedSize(c: nat, runs: set<seq<nat>>)
    ensures |Prefixed(c, runs)| == |runs|
    decreases runs
  {
    if runs != {} {
      var t :| t in runs;
      PrefixedSize(c, runs - {t});
      assert [c] + t !in Prefixed(c, runs - {t}) by {
        forall u | u in runs - {t} ensures [c] + u != [c] + t { assert ([c] + u)[1..] == u && ([c] + t)[1..] == t; }
      }
      assert Prefixed(c, runs) == Prefixed(c, runs - {t}) + {[c] + t};
    }
  }

  function Extend(ids: seq<nat>, runs: set<seq<nat>>): set<seq<nat>> {
    if ids == [] then {} else Prefixed(ids[0], runs) + Extend(ids[1..], runs)
  }

  lemma {:induction false} ExtendMembers(ids: seq<nat>, runs: set<seq<nat>>, p: seq<nat>)
    requires p in Extend(ids, runs)
    ensures p != [] && p[0] in ids && p[1..] in runs
    decreases |ids|
  {
    if p in Prefixed(ids[0], runs) {
      var t :| t in runs && p == [ids[0]] + t;
      assert p[1..] == t;
    } else {
      ExtendMembers(ids[1..], runs, p);
    }
  }

  lemma {:induction false} ExtendSize(ids: seq<nat>, runs: set<seq<nat>>)
    requires forall k, l :: 0 <= k < l < |ids| ==> ids[k] < ids[l]
    ensures |Extend(ids, runs)| == |ids| * |runs|
    decreases |ids|
  {
    if ids != [] {
      ExtendSize(ids[1..], runs);
      PrefixedSize(ids[0], runs);
      var first, others := Prefixed(ids[0], runs), Extend(ids[1..], runs);
      forall p | p in first ensures p !in others {
        if p in others { ExtendMembers(ids[1..], runs, p); }
      }
      assert first !! others && Extend(ids, runs) == first + others;
      assert |ids| * |runs| == (|ids| - 1) * |runs| + |runs|;
    }
  }

  /** All runs of `m` iterations over the alternatives `ids`. */
  function Runs(ids: seq<nat>, m: nat): set<seq<nat>> { if m == 0 then {[]} else Extend(ids, Runs(ids, m - 1)) }

  lemma {:induction false} RunsMembers(ids: seq<nat>, m: nat, p: seq<nat>)
    requires p in Runs(ids, m)
    ensures |p| == m && forall t :: 0 <= t < m ==> p[t] in ids
    decreases m
  {
    if m > 0 {
      ExtendMembers(ids, Runs(ids, m - 1), p);
      RunsMembers(ids, m - 1, p[1..]);
      forall t | 0 <= t < m ensures p[t] in ids { if t > 0 { assert p[t] == p[1..][t - 1]; } }
    }
  }

  lemma {:induction false} RunsSize(ids: seq<nat>, m: nat)
    requires forall k, l :: 0 <= k < l < |ids| ==> ids[k] < ids[l]
    ensures |Runs(ids, m)| == Pow(|ids|, m)
    decreases m
  {
    if m > 0 {
      RunsSize(ids, m - 1);
      ExtendSize(ids, Runs(ids, m - 1));
    }
  }

  /** k empty alternatives under m iterations give k to the m different runs, each of which matches the empty
      text: that many paths lie open to a backtracker before the subject matters. */
  lemma EmptyRunsArePower(I: Interp, body: Regex, m: nat) returns (runs: set<seq<nat>>)
    requires Valid(body)
    ensures |runs| == Pow(EmptyAlternatives(body), m)
    ensures forall p :: p in runs ==> EmptyRun(I, body, p, m)
  {
    var bs := Branches(body);
    var ids := Blank(bs, 0);
    BlankCounts(body);
    RunsSize(ids, m);
    runs := Runs(ids, m);
    forall p | p in runs ensures EmptyRun(I, body, p, m) {
      RunsMembers(ids, m, p);
      forall t | 0 <= t < m ensures p[t] < |bs| && MatchesEmpty(I, bs[p[t]]) {
        assert p[t] in ids;
        BranchesValid(body, p[t]);
        BlankMatchesEmpty(I, bs[p[t]]);
      }
    }
  }
}

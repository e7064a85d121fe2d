/** The match-walking loops of benchmarks/bench_engines.cpp: `pcre2_count` and `re2_count` ask an engine for the next
    match, count it, and step past it, one further past an empty one. */
module MatchWalk {
  import opened Wrappers

  type Span = (nat, nat)

  /** The engine on one text: the match it finds from a position on. */
  type Engine = nat -> Option<Span>

  /** What both engines promise: a match lies between the position asked for and the end of the text. */
  ghost predicate Sound(find: Engine, size: nat) {
    forall pos: nat :: pos <= size && find(pos).Some? ==> pos <= find(pos).value.0 <= find(pos).value.1 <= size
  }

  /** Where the walk goes on after a span. */
  function After(span: Span): nat { if span.1 > span.0 then span.1 else span.1 + 1 }

  /** The spans met from `pos` on. */
  ghost function Spans(find: Engine, size: nat, pos: nat): seq<Span>
    requires Sound(find, size)
    decreases size + 1 - pos
  {
    if pos > size || find(pos).None? then [] else [find(pos).value] + Spans(find, size, After(find(pos).value))
  }

  method Count(find: Engine, size: nat) returns (n: nat)
    requires Sound(find, size)
    ensures n == |Spans(find, size, 0)|
  {
    n := 0;
    var pos := 0;
    while pos <= size
      invariant n + |Spans(find, size, pos)| == |Spans(find, size, 0)|
      decreases size + 1 - pos
    {
      var m := find(pos);
      if m.None? {
        break;
      }
      n := n + 1;
      pos := if m.value.1 > m.value.0 then m.value.1 else m.value.1 + 1;
    }
  }

  /** What comes after span `k`: asked again at its end, or one further if it is empty, the engine gives the next span,
      or there is none and nothing more to find. */
  predicate GoesOn(find: Engine, size: nat, ss: seq<Span>, k: nat)
    requires k < |ss|
  {
    var next := if ss[k].1 > ss[k].0 then ss[k].1 else ss[k].1 + 1;
    if k + 1 < |ss| then next <= size && find(next) == Some(ss[k + 1]) else next > size || find(next) == None
  }

  /** The walk, step by step, from the engine's match at `pos` to where nothing more is found. */
  lemma {:induction false} WalkSteps(find: Engine, size: nat, pos: nat)
    requires Sound(find, size)
    ensures var ss := Spans(find, size, pos);
            && (ss == [] <==> pos > size || find(pos) == None)
            && (ss != [] ==> find(pos) == Some(ss[0]))
            && (forall k :: 0 <= k < |ss| ==> GoesOn(find, size, ss, k))
    decreases size + 1 - pos
  {
    if pos <= size && find(pos).Some? {
      var first, ss := find(pos).value, Spans(find, size, pos);
      var next := if first.1 > first.0 then first.1 else first.1 + 1;
      var rest := Spans(find, size, next);
      WalkSteps(find, size, next);
      assert ss == [first] + rest;
      forall k | 0 <= k < |ss| ensures GoesOn(find, size, ss, k) {
        if k > 0 { assert GoesOn(find, size, rest, k - 1); }
      }
    }
  }

  /** The spans are ordered and do not overlap, no two start at the same place, and there is at most one for each
      position of the text and its end. */
  lemma {:induction false} SpansInOrder(find: Engine, size: nat, pos: nat)
    requires Sound(find, size) && pos <= size + 1
    ensures var ss := Spans(find, size, pos);
            && (forall k :: 0 <= k < |ss| ==> pos <= ss[k].0 <= ss[k].1 <= size)
            && (forall i, j :: 0 <= i < j < |ss| ==> ss[i].1 <= ss[j].0 && ss[i].0 < ss[j].0)
            && |ss| <= size + 1 - pos
    decreases size + 1 - pos
  {
    if pos <= size && find(pos).Some? { SpansInOrder(find, size, After(find(pos).value)); }
  }

  /** An engine that finds the leftmost match: none starts between the position and the match it reports, and none at
      all where it reports nothing. */
  ghost predicate Leftmost(find: Engine, size: nat, starts: nat -> bool) {
    forall pos: nat, p: nat :: pos <= p <= size && starts(p) ==> find(pos).Some? && find(pos).value.0 <= p
  }

  /** `p` is the start of the span, or a position whose character the span takes. */
  predicate Takes(span: Span, p: nat) { span.0 <= p && (p < span.1 || p == span.0) }

  /** With such an engine no match is missed: wherever one starts, a counted span starts there or takes the character
      there. */
  lemma {:induction false} NothingMissed(find: Engine, size: nat, starts: nat -> bool, pos: nat, p: nat)
    requires Sound(find, size) && Leftmost(find, size, starts) && pos <= p <= size && starts(p)
    ensures exists k :: 0 <= k < |Spans(find, size, pos)| && Takes(Spans(find, size, pos)[k], p)
    decreases size + 1 - pos
  {
    var first, ss := find(pos).value, Spans(find, size, pos);
    if p < After(first) {
      assert ss[0] == first;
    } else {
      NothingMissed(find, size, starts, After(first), p);
      var rest := Spans(find, size, After(first));
      var k :| 0 <= k < |rest| && Takes(rest[k], p);
      assert ss[k + 1] == rest[k];
    }
  }
}

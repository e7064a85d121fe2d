/** The path of a divergence from the generator of fuzz/pcre2_differential.cpp to the comparison that
    fuzz/pcre2_arbiter.py makes first: do two answers agree once the groups inside lookarounds are set aside? */
module Arbiter {
  import opened Wrappers
  import opened Regex
  import opened TermFacts
  import opened GroupReport
  import opened Generator

  /** Where a group matched, if it did. */
  type Span = Option<(nat, nat)>

  /** An engine's answer: no match, or a span for every group, the whole match first. */
  type Answer = Option<seq<Span>>

  function Masked(answer: Answer, groups: set<nat>): Answer {
    match answer
    case None => None
    case Some(spans) => Some(seq(|spans|, g requires 0 <= g < |spans| => if g in groups then None else spans[g]))
  }

  /** Both engines found nothing, or both found a match and place every group outside `groups` alike. */
  predicate AgreeOutside(a: Answer, b: Answer, groups: set<nat>) {
    match (a, b)
    case (None, None) => true
    case (Some(x), Some(y)) => |x| == |y| && forall g: nat :: g < |x| && g !in groups ==> x[g] == y[g]
    case _ => false
  }

  /** Masked answers are equal exactly when the answers agree outside the groups masked. */
  lemma MaskedAgree(a: Answer, b: Answer, groups: set<nat>)
    ensures Masked(a, groups) == Masked(b, groups) <==> AgreeOutside(a, b, groups)
  {
    if a.Some? && b.Some? {
      var x, y := a.value, b.value;
      var mx, my := Masked(a, groups).value, Masked(b, groups).value;
      assert |mx| == |x| && |my| == |y|;
      if mx == my {
        forall g: nat | g < |x| && g !in groups ensures x[g] == y[g] { assert mx[g] == my[g]; }
      }
      if AgreeOutside(a, b, groups) {
        assert forall g: nat :: g < |mx| ==> mx[g] == my[g];
      }
    }
  }

  /** The groups set aside are exactly the capture groups that a reading of the text finds inside a lookaround. */
  ghost predicate InsideLookarounds(text: string, groups: set<nat>) {
    var found := FromText(text, [false], false);
    groups == set g: nat | 1 <= g <= |found| && Inside(found, g)
  }

  /** One divergence, end to end: a pattern is generated, its list of groups printed and read back, and the two answers
      compared without them. Nothing the generator recorded is needed to say what comes out: the pattern's text and the
      answers decide it. */
  method Compare(g: Generator, mine: Answer, theirs: Answer) returns (text: string, same: bool)
    modifies g
    ensures exists r :: Valid(r) && text == Print(r)
    ensures exists groups: set<nat> :: InsideLookarounds(text, groups) && same == AgreeOutside(mine, theirs, groups)
  {
    ghost var r;
    text, r := g.Pattern();
    var out := g.LookaroundGroups();
    ArbiterMasksLookaroundGroups(r, g.groupInLookaround);
    var inside := ArbiterReads(out).value;
    assert InsideLookarounds(text, inside);
    MaskedAgree(mine, theirs, inside);
    same := Masked(mine, inside) == Masked(theirs, inside);
  }
}

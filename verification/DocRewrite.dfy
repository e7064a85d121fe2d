/** The `--fix` loop of tools/check_doc_style.py: edits found on the original lines, applied bottom-up and in place,
    against their simultaneous replacement. */
module DocRewrite {
  import opened Wrappers
  import opened Lines
  import opened DocStyle

  datatype Kind = Attribute | Object | Neither

  /** A declaration whose run of doc lines is to be rewritten: as a trailing comment when there is a candidate, as a
      block otherwise. */
  datatype Edit = Edit(decl: nat, first: nat, last: nat, cand: Option<string>)

  /** The run lies above the declaration, and a trailing comment takes the place of a single line. */
  predicate Ordered(e: Edit) { e.first <= e.last < e.decl && (e.cand.Some? ==> e.first == e.last) }

  predicate InBounds(lines: seq<string>, e: Edit) { Ordered(e) && e.decl < |lines| }

  predicate CommentLine(line: string) {
    var s := Strip(line);
    StartsWith(s, "//") || StartsWith(s, "/*") || StartsWith(s, "*")
  }

  /** What the collecting pass knows of an edit on the lines it read. */
  predicate Fits(lines: seq<string>, e: Edit) {
    && InBounds(lines, e)
    && BlockAbove(lines, e.decl) == Some((e.first, e.last))
    && !CommentLine(lines[e.decl]) && !Contains(lines[e.decl], "//!<")
    && (e.cand.Some? ==> e.cand == TrailingCandidate(lines, e.decl, e.first, e.last))
  }

  /** A member as it is reported: the index of its line, and what it is. */
  type Member = (nat, Kind)

  /** The source does not have a comment where a member is reported; where it does, the report is out of date. */
  predicate Outdated(lines: seq<string>, m: Member) { m.0 < |lines| && CommentLine(lines[m.0]) }

  /** A member whose documentation is to be rewritten: an object, or an attribute whose text fits behind it. */
  predicate Wants(lines: seq<string>, m: Member) {
    && m.0 < |lines| && FormOf(lines, m.0) == SlashBang
    && (m.1.Object? || (m.1.Attribute? && HasCandidate(lines, m.0)))
  }

  predicate HasCandidate(lines: seq<string>, decl: nat)
    requires decl < |lines|
  {
    match BlockAbove(lines, decl)
    case None => false
    case Some((first, last)) => TrailingCandidate(lines, decl, first, last).Some?
  }

  /** The item the pass lists for a member, if any. */
  function Listed(lines: seq<string>, m: Member): Option<Edit> {
    if m.0 >= |lines| || FormOf(lines, m.0) != SlashBang then None
    else match BlockAbove(lines, m.0)
      case None => None
      case Some((first, last)) =>
        match m.1
        case Attribute =>
          var cand := TrailingCandidate(lines, m.0, first, last);
          if cand.None? then None else Some(Edit(m.0, first, last, cand))
        case Object => Some(Edit(m.0, first, last, None))
        case Neither => None
  }

  function Items(lines: seq<string>, members: seq<Member>): seq<Edit> {
    if members == [] then []
    else
      var n := |members| - 1;
      Items(lines, members[..n]) + match Listed(lines, members[n]) case None => [] case Some(e) => [e]
  }

  predicate DistinctLines(members: seq<Member>) {
    forall i, j :: 0 <= i < j < |members| ==> members[i].0 != members[j].0
  }

  lemma ListedFacts(lines: seq<string>, m: Member)
    requires !Outdated(lines, m)
    ensures Wants(lines, m) <==> Listed(lines, m).Some?
    ensures Wants(lines, m) ==>
              var e := Listed(lines, m).value; Fits(lines, e) && e.decl == m.0 && (e.cand.Some? <==> m.1.Attribute?)
  {
    hide BlockAbove, TrailingCandidate, Contains, CommentLine;
    if m.0 < |lines| && FormOf(lines, m.0) == SlashBang {
      SlashBangFacts(lines, m.0);
      var (first, last) := BlockAbove(lines, m.0).value;
      CandidateIsOneLine(lines, m.0, first, last);
    }
  }

  /** The list: every item fits and belongs to a member, every member that wants one has one, and members on distinct
      lines give items on distinct declarations. */
  lemma {:induction false} ItemsFacts(lines: seq<string>, members: seq<Member>)
    requires forall m :: m in members ==> !Outdated(lines, m)
    ensures forall e :: e in Items(lines, members) ==>
              Fits(lines, e) && exists m :: m in members && Wants(lines, m) && Listed(lines, m) == Some(e)
    ensures forall m :: m in members && Wants(lines, m) ==>
              Listed(lines, m).Some? && Listed(lines, m).value in Items(lines, members)
    ensures DistinctLines(members) ==> DistinctDecls(Items(lines, members))
    decreases |members|
  {
    hide Fits, Wants, Listed, Outdated;
    if members != [] {
      var n := |members| - 1;
      ItemsFacts(lines, members[..n]);
      ListedFacts(lines, members[n]);
      assert forall m :: m in members <==> m in members[..n] || m == members[n];
      if DistinctLines(members) && Listed(lines, members[n]).Some? {
        forall e | e in Items(lines, members[..n]) ensures e.decl != members[n].0 {
          var m :| m in members[..n] && Wants(lines, m) && Listed(lines, m) == Some(e);
          ListedFacts(lines, m);
        }
      }
    }
  }

  /** The collecting pass: `None` when some member's line turns out to hold a comment, which stops everything. */
  method Collect(lines: seq<string>, members: seq<Member>) returns (todo: Option<seq<Edit>>)
    ensures todo.None? <==> exists m :: m in members && Outdated(lines, m)
    ensures todo.Some? ==> todo.value == Items(lines, members)
    ensures todo.Some? ==> forall e :: e in todo.value ==>
              Fits(lines, e) && exists m :: m in members && Wants(lines, m) && Listed(lines, m) == Some(e)
    ensures todo.Some? ==> forall m :: m in members && Wants(lines, m) ==>
              exists e :: e in todo.value && e.decl == m.0 && (e.cand.Some? <==> m.1.Attribute?)
    ensures todo.Some? && DistinctLines(members) ==> DistinctDecls(todo.value)
  {
    hide FormOf, TrailingCandidate, BlockAbove, CommentLine, Contains, Wants, Fits;
    var items: seq<Edit> := [];
    for k := 0 to |members|
      invariant forall m :: m in members[..k] ==> !Outdated(lines, m)
      invariant items == Items(lines, members[..k])
    {
      var (decl, kind) := members[k];
      assert members[..k + 1][..k] == members[..k] && members[..k + 1] == members[..k] + [members[k]];
      if decl < |lines| {
        if CommentLine(lines[decl]) {
          assert members[k] in members && Outdated(lines, members[k]);
          return None;
        }
        var form := Classify(lines, decl);
        if form == SlashBang {
          var above := DocBlockAbove(lines, decl);
          SlashBangFacts(lines, decl);
          var (first, last) := above.value;
          if kind.Attribute? {
            var cand := TrailingCandidate(lines, decl, first, last);
            if cand.Some? {
              items := items + [Edit(decl, first, last, cand)];
            }
          } else if kind.Object? {
            items := items + [Edit(decl, first, last, None)];
          }
        }
      }
    }
    assert members[..|members|] == members;
    ItemsFacts(lines, members);
    forall m | m in members && Wants(lines, m)
      ensures exists e :: e in items && e.decl == m.0 && (e.cand.Some? <==> m.1.Attribute?)
    {
      ListedFacts(lines, m);
      assert Listed(lines, m).value in items;
    }
    todo := Some(items);
  }

  lemma SlashBangFacts(lines: seq<string>, decl: nat)
    requires decl < |lines| && FormOf(lines, decl) == SlashBang
    ensures BlockAbove(lines, decl).Some? && !Contains(lines[decl], "//!<")
  {
    hide BlockAbove, Strip, Contains;
  }

  lemma CodeIsNotDoc(line: string)
    requires !CommentLine(line)
    ensures !Doc(line)
  {
    hide Strip;
    MarkerIsComment(Strip(line));
  }

  lemma MarkerIsComment(s: string)
    ensures StartsWith(s, "//!") ==> StartsWith(s, "//")
  {
    if StartsWith(s, "//!") { assert s[..2] == s[..3][..2]; }
  }

  lemma CandidateIsOneLine(lines: seq<string>, decl: nat, first: nat, last: nat)
    requires first <= last < |lines| && decl < |lines|
    ensures TrailingCandidate(lines, decl, first, last).Some? ==> first == last
  {
  }

  // ---------------------------------------------------------------- distinct runs lie apart

  /** Each run lies below every earlier declaration. */
  predicate Apart(es: seq<Edit>) {
    forall i, j :: 0 <= i < |es| && 0 <= j < |es| && es[i].decl < es[j].decl ==> es[i].decl < es[j].first
  }

  predicate DistinctDecls(es: seq<Edit>) { forall i, j :: 0 <= i < j < |es| ==> es[i].decl != es[j].decl }

  predicate DistinctRuns(es: seq<Edit>) { forall i, j :: 0 <= i < j < |es| ==> es[i].last != es[j].last }

  /** Two declarations either share their run or the later one's run lies between them. */
  lemma RunsSharedOrApart(lines: seq<string>, a: Edit, b: Edit)
    requires Fits(lines, a) && Fits(lines, b) && a.decl < b.decl
    ensures a.decl < b.first || (a.first, a.last) == (b.first, b.last)
  {
    hide Doc, Intervening, Contains, TrailingCandidate, CommentLine;
    CodeIsNotDoc(lines[a.decl]);
    BlockAboveFacts(lines, a.decl);
    BlockAboveFacts(lines, b.decl);
    if b.first <= a.decl {
      assert b.last < a.decl;
      ClimbFinds(lines, a.decl - 1, 0, b.last);
      ClimbFinds(lines, b.decl - 1, 0, b.last);
    }
  }

  lemma {:induction false} ClimbFinds(lines: seq<string>, j: int, hops: nat, last: nat)
    requires last <= j < |lines| && j - last + hops < 8 && Doc(lines[last])
    requires forall k :: last < k <= j ==> Intervening(lines[k]) && !Doc(lines[k])
    ensures Climb(lines, j, hops) == Some(last)
    decreases j
  {
    hide Doc, Intervening;
    if last < j { ClimbFinds(lines, j - 1, hops + 1, last); }
  }

  lemma FittingRunsAreApart(lines: seq<string>, es: seq<Edit>)
    requires DistinctDecls(es) && DistinctRuns(es) && forall e :: e in es ==> Fits(lines, e)
    ensures Apart(es)
  {
    hide Fits;
    forall i, j | 0 <= i < |es| && 0 <= j < |es| && es[i].decl < es[j].decl ensures es[i].decl < es[j].first {
      RunsSharedOrApart(lines, es[i], es[j]);
    }
  }

  // ---------------------------------------------------------------- simultaneous replacement

  predicate AllIn(lines: seq<string>, es: seq<Edit>) { forall e :: e in es ==> InBounds(lines, e) }

  predicate Extends(lines: seq<string>, es: seq<Edit>, e: Edit) {
    AllIn(lines, es) && InBounds(lines, e) && AllIn(lines, es + [e])
  }

  predicate Touches(e: Edit, i: nat) { e.first <= i <= e.last || (e.cand.Some? && i == e.decl) }

  /** What an edit puts in the place of a line it touches. */
  function Piece(lines: seq<string>, e: Edit, i: nat): seq<string>
    requires InBounds(lines, e)
  {
    if e.cand.Some? && i == e.decl then [e.cand.value]
    else if i == e.first && e.cand.None? then ToBlock(lines, e.first, e.last)
    else []
  }

  /** What all the edits together put in the place of line `i`. */
  function Out(lines: seq<string>, es: seq<Edit>, i: nat): seq<string>
    requires i < |lines| && AllIn(lines, es)
  {
    if es == [] then [lines[i]]
    else if Touches(es[0], i) then Piece(lines, es[0], i)
    else Out(lines, es[1..], i)
  }

  /** The lines from `from` on with every edit made at once, each from the original lines. */
  function Simultaneous(lines: seq<string>, es: seq<Edit>, from: nat): seq<string>
    requires from <= |lines| && AllIn(lines, es)
    decreases |lines| - from
  {
    if from == |lines| then [] else Out(lines, es, from) + Simultaneous(lines, es, from + 1)
  }

  predicate Untouched(es: seq<Edit>, i: nat) { forall e :: e in es ==> !Touches(e, i) }

  lemma {:induction false} OutUntouched(lines: seq<string>, es: seq<Edit>, i: nat)
    requires i < |lines| && AllIn(lines, es) && Untouched(es, i)
    ensures Out(lines, es, i) == [lines[i]]
    decreases |es|
  {
    if es != [] { OutUntouched(lines, es[1..], i); }
  }

  lemma {:induction false} OutLast(lines: seq<string>, es: seq<Edit>, e: Edit, i: nat)
    requires i < |lines| && Extends(lines, es, e)
    ensures !Touches(e, i) ==> Out(lines, es + [e], i) == Out(lines, es, i)
    ensures Touches(e, i) && Untouched(es, i) ==> Out(lines, es + [e], i) == Piece(lines, e, i)
    decreases |es|
  {
    hide Touches, Piece;
    if es == [] {
      assert es + [e] == [e] && [e][1..] == [];
    } else {
      assert (es + [e])[1..] == es[1..] + [e] && es[0] in es;
      assert Extends(lines, es[1..], e) by { assert forall x :: x in es[1..] + [e] ==> x in es + [e]; }
      OutLast(lines, es[1..], e, i);
    }
  }

  lemma {:induction false} UntouchedStretch(lines: seq<string>, es: seq<Edit>, from: nat, to: nat)
    requires from <= to <= |lines| && AllIn(lines, es)
    requires forall i :: from <= i < to ==> Untouched(es, i)
    ensures Simultaneous(lines, es, from) == lines[from..to] + Simultaneous(lines, es, to)
    decreases |lines| - from
  {
    hide Untouched, InBounds;
    if from < to {
      OutUntouched(lines, es, from);
      UntouchedStretch(lines, es, from + 1, to);
      assert lines[from..to] == [lines[from]] + lines[from + 1..to];
    }
  }

  lemma {:induction false} SameBelow(lines: seq<string>, es: seq<Edit>, e: Edit, from: nat)
    requires from <= |lines| && Extends(lines, es, e) && e.decl < from
    ensures Simultaneous(lines, es + [e], from) == Simultaneous(lines, es, from)
    decreases |lines| - from
  {
    hide Out;
    if from < |lines| {
      OutLast(lines, es, e, from);
      SameBelow(lines, es, e, from + 1);
    }
  }

  /** A run gives way to its block, or to nothing. */
  lemma {:induction false} RunGivesWay(lines: seq<string>, es: seq<Edit>, e: Edit, i: nat)
    requires Extends(lines, es, e) && e.first <= i <= e.last + 1
    requires forall k :: e.first <= k <= e.last ==> Untouched(es, k)
    ensures Simultaneous(lines, es + [e], i) ==
            (if i == e.first && e.cand.None? then ToBlock(lines, e.first, e.last) else []) +
            Simultaneous(lines, es + [e], e.last + 1)
    decreases e.last + 1 - i
  {
    hide Out, Untouched, ToBlock;
    if i <= e.last {
      OutLast(lines, es, e, i);
      RunGivesWay(lines, es, e, i + 1);
    }
  }

  // ---------------------------------------------------------------- in place, bottom-up

  /** The indices an edit uses are there. */
  predicate Reaches(lines: seq<string>, e: Edit) { if e.cand.Some? then e.decl < |lines| else e.last < |lines| }

  /** One turn of the loop. */
  function ApplyOne(lines: seq<string>, e: Edit): seq<string>
    requires Ordered(e) && Reaches(lines, e)
  {
    match e.cand
    case Some(line) => var l := lines[e.decl := line]; l[..e.first] + l[e.last + 1..]
    case None => lines[..e.first] + ToBlock(lines, e.first, e.last) + lines[e.last + 1..]
  }

  predicate AllOrdered(es: seq<Edit>) { forall e :: e in es ==> Ordered(e) }

  /** The loop over the edits in the given order: the lines it leaves, and whether it ran to the end. It breaks off
      where the lines have become too short for the next edit. */
  function Loop(lines: seq<string>, es: seq<Edit>): (seq<string>, bool)
    requires AllOrdered(es)
    decreases |es|
  {
    if es == [] then (lines, true)
    else if !Reaches(lines, es[0]) then (lines, false)
    else Loop(ApplyOne(lines, es[0]), es[1..])
  }

  lemma {:induction false} LoopSplits(lines: seq<string>, es: seq<Edit>, fs: seq<Edit>)
    requires AllOrdered(es) && AllOrdered(fs) && AllOrdered(es + fs) && Loop(lines, es).1
    ensures Loop(lines, es + fs) == Loop(Loop(lines, es).0, fs)
    decreases |es|
  {
    hide ApplyOne;
    if es == [] {
      assert es + fs == fs;
    } else {
      assert (es + fs)[1..] == es[1..] + fs;
      LoopSplits(ApplyOne(lines, es[0]), es[1..], fs);
    }
  }

  /** The lines with the edits `es` made, as long as `e` lies above all of them. */
  lemma AboveTheRest(lines: seq<string>, es: seq<Edit>, e: Edit)
    requires Extends(lines, es, e) && forall x :: x in es ==> e.decl < x.first
    ensures Simultaneous(lines, es, 0) == lines[..e.decl + 1] + Simultaneous(lines, es, e.decl + 1)
    ensures forall i :: 0 <= i <= e.decl ==> Untouched(es, i)
  {
    hide Out;
    assert InBounds(lines, e);
    assert forall i :: 0 <= i <= e.decl ==> Untouched(es, i);
    UntouchedStretch(lines, es, 0, e.decl + 1);
    assert lines[0..e.decl + 1] == lines[..e.decl + 1];
  }

  lemma OnlyInRun(lines: seq<string>, es: seq<Edit>, e: Edit, i: nat)
    requires Extends(lines, es, e) && Untouched(es, i) && !Touches(e, i)
    ensures Untouched(es + [e], i)
  {
  }

  /** One more edit made at once: the parts of the result around it. */
  lemma WithEdit(lines: seq<string>, es: seq<Edit>, e: Edit)
    requires Extends(lines, es, e) && forall x :: x in es ==> e.decl < x.first
    ensures Simultaneous(lines, es + [e], 0) ==
            lines[..e.first] + (if e.cand.None? then ToBlock(lines, e.first, e.last) else []) + lines[e.last + 1..e.decl] +
            [if e.cand.Some? then e.cand.value else lines[e.decl]] + Simultaneous(lines, es, e.decl + 1)
  {
    hide Out, ToBlock, Untouched, Simultaneous;
    var all := es + [e];
    AboveTheRest(lines, es, e);
    forall i | (0 <= i < e.first) || (e.last < i < e.decl) ensures Untouched(all, i) { OnlyInRun(lines, es, e, i); }
    UntouchedStretch(lines, all, 0, e.first);
    assert lines[0..e.first] == lines[..e.first];
    RunGivesWay(lines, es, e, e.first);
    UntouchedStretch(lines, all, e.last + 1, e.decl);
    AtDeclaration(lines, es, e);
  }

  lemma AtDeclaration(lines: seq<string>, es: seq<Edit>, e: Edit)
    requires Extends(lines, es, e) && Untouched(es, e.decl)
    ensures Simultaneous(lines, es + [e], e.decl) ==
            [if e.cand.Some? then e.cand.value else lines[e.decl]] + Simultaneous(lines, es, e.decl + 1)
  {
    hide Out, Untouched;
    OutLast(lines, es, e, e.decl);
    OutUntouched(lines, es, e.decl);
    SameBelow(lines, es, e, e.decl + 1);
  }

  /** Making one more edit in place, above those already made, is making it with them. */
  lemma InPlaceIsSimultaneous(lines: seq<string>, es: seq<Edit>, e: Edit)
    requires Extends(lines, es, e) && forall x :: x in es ==> e.decl < x.first
    ensures var now := Simultaneous(lines, es, 0);
            InBounds(now, e) && ApplyOne(now, e) == Simultaneous(lines, es + [e], 0)
  {
    hide Simultaneous, ToBlock;
    assert e in es + [e];
    var tail := Simultaneous(lines, es, e.decl + 1);
    AboveTheRest(lines, es, e);
    WithEdit(lines, es, e);
    var now := lines[..e.decl + 1] + tail;
    SameBlock(lines, now, e);
    match e.cand
    case Some(line) =>
      var l := now[e.decl := line];
      assert l[..e.first] == lines[..e.first];
      assert l[e.last + 1..] == lines[e.last + 1..e.decl] + [line] + tail;
      assert lines[..e.first] + [] == lines[..e.first];
    case None =>
      assert now[..e.first] == lines[..e.first];
      assert now[e.last + 1..] == lines[e.last + 1..e.decl] + [lines[e.decl]] + tail;
  }

  lemma SameBlock(lines: seq<string>, now: seq<string>, e: Edit)
    requires InBounds(lines, e) && |now| > e.decl && now[..e.decl + 1] == lines[..e.decl + 1]
    ensures ToBlock(now, e.first, e.last) == ToBlock(lines, e.first, e.last)
  {
    hide BlockLine, IndentOf;
    assert forall k :: 0 <= k <= e.decl ==> now[k] == now[..e.decl + 1][k] == lines[k];
    SameBody(lines, now, IndentOf(lines[e.first]), e.first, e.last);
  }

  lemma {:induction false} SameBody(lines: seq<string>, now: seq<string>, indent: string, k: nat, last: nat)
    requires k <= last + 1 <= |lines| && last < |now| && forall m :: k <= m <= last ==> now[m] == lines[m]
    ensures BlockBody(now, indent, k, last) == BlockBody(lines, indent, k, last)
    decreases last + 1 - k
  {
    hide BlockLine;
    if k <= last { SameBody(lines, now, indent, k + 1, last); }
  }

  /** The items by declaration, last first. */
  function Insert(e: Edit, es: seq<Edit>): (s: seq<Edit>)
    ensures multiset(s) == multiset{e} + multiset(es)
  {
    if es == [] || es[0].decl <= e.decl then [e] + es
    else
      assert es == [es[0]] + es[1..];
      [es[0]] + Insert(e, es[1..])
  }

  function SortedDown(es: seq<Edit>): (s: seq<Edit>)
    ensures multiset(s) == multiset(es)
  {
    if es == [] then [] else assert es == [es[0]] + es[1..]; Insert(es[0], SortedDown(es[1..]))
  }

  predicate Descending(es: seq<Edit>) { forall i, j :: 0 <= i < j < |es| ==> es[j].decl < es[i].decl }

  lemma SortedMembers(es: seq<Edit>)
    ensures forall e :: e in SortedDown(es) <==> e in es
  {
    assert forall e :: e in SortedDown(es) <==> e in multiset(SortedDown(es));
    assert forall e :: e in es <==> e in multiset(es);
  }

  lemma InsertMembers(e: Edit, es: seq<Edit>)
    ensures forall x :: x in Insert(e, es) <==> x == e || x in es
  {
    hide Insert;
    assert forall x :: x in Insert(e, es) <==> x in multiset(Insert(e, es));
  }

  lemma {:induction false} InsertDescends(e: Edit, es: seq<Edit>)
    requires Descending(es) && forall x :: x in es ==> x.decl != e.decl
    ensures Descending(Insert(e, es))
    decreases |es|
  {
    if es != [] && es[0].decl > e.decl {
      InsertDescends(e, es[1..]);
      InsertMembers(e, es[1..]);
      DescendingFirst(es[0], Insert(e, es[1..]));
    }
  }

  lemma DescendingFirst(e: Edit, es: seq<Edit>)
    requires Descending(es) && forall x :: x in es ==> x.decl < e.decl
    ensures Descending([e] + es)
  {
  }

  lemma {:induction false} SortDescends(es: seq<Edit>)
    requires DistinctDecls(es)
    ensures Descending(SortedDown(es))
    decreases |es|
  {
    if es != [] {
      SortDescends(es[1..]);
      SortedMembers(es[1..]);
      InsertDescends(es[0], SortedDown(es[1..]));
    }
  }

  /** A header read once and rewritten in place. */
  class Source {
    var lines: seq<string>

    constructor (lines: seq<string>)
      ensures this.lines == lines
    {
      this.lines := lines;
    }

    /** Every edit in place, from the last declaration up; `ok` is false where an index ran past the end. */
    method ApplyFixes(items: seq<Edit>) returns (ok: bool)
      requires AllOrdered(items)
      modifies this
      ensures AllOrdered(SortedDown(items)) && (lines, ok) == Loop(old(lines), SortedDown(items))
    {
      hide ToBlock, SortedDown, Ordered;
      var order := SortedDown(items);
      SortedMembers(items);
      var k := 0;
      while k < |order|
        invariant k <= |order| && AllOrdered(order[k..])
        invariant Loop(lines, order[k..]) == Loop(old(lines), order)
      {
        var e := order[k];
        assert order[k..][0] == e && order[k..][1..] == order[k + 1..];
        if !(if e.cand.Some? then e.decl < |lines| else e.last < |lines|) {
          return false;
        }
        assert Ordered(e) by { assert e in order[k..]; }
        ghost var next := ApplyOne(lines, e);
        OrderedBounds(e);
        if e.cand.Some? {
          lines := lines[e.decl := e.cand.value];
          lines := lines[..e.first] + lines[e.last + 1..];
        } else {
          var block := MakeBlock(lines, e.first, e.last);
          lines := lines[..e.first] + block + lines[e.last + 1..];
        }
        assert lines == next;
        k := k + 1;
      }
      ok := true;
    }
  }

  lemma OrderedBounds(e: Edit)
    requires Ordered(e)
    ensures e.first <= e.last < e.decl
  {
  }

  /** Each edit lies above those made before it: the loop runs to the end and leaves the simultaneous replacement of
      the lines it started from. */
  lemma {:induction false} LoopIsSimultaneous(lines: seq<string>, order: seq<Edit>)
    requires AllIn(lines, order) && AllOrdered(order) && BottomUp(order)
    ensures Loop(lines, order) == (Simultaneous(lines, order, 0), true)
    decreases |order|
  {
    hide Simultaneous, ApplyOne, Ordered;
    if order == [] {
      NothingToDo(lines);
    } else {
      var n := |order| - 1;
      var es, e := order[..n], order[n];
      assert order == es + [e];
      LoopIsSimultaneous(lines, es);
      LoopSplits(lines, es, [e]);
      assert forall x :: x in es ==> e.decl < x.first;
      InPlaceIsSimultaneous(lines, es, e);
      LoopOnce(Simultaneous(lines, es, 0), e);
    }
  }

  lemma LoopOnce(lines: seq<string>, e: Edit)
    requires InBounds(lines, e)
    ensures AllOrdered([e]) && Reaches(lines, e) && Loop(lines, [e]) == (ApplyOne(lines, e), true)
  {
    hide ApplyOne;
    assert [e][1..] == [];
  }

  lemma NothingToDo(lines: seq<string>)
    ensures Simultaneous(lines, [], 0) == lines
  {
    UntouchedStretch(lines, [], 0, |lines|);
    assert lines[0..|lines|] == lines;
  }

  /** Each run lies below every declaration that comes after it in the order. */
  predicate BottomUp(order: seq<Edit>) { forall i, j :: 0 <= i < j < |order| ==> order[j].decl < order[i].first }

  /** The sorted items: the same ones, each run below every declaration that comes after it in the order. */
  lemma SortFacts(items: seq<Edit>)
    requires DistinctDecls(items) && Apart(items)
    ensures forall e :: e in SortedDown(items) <==> e in items
    ensures BottomUp(SortedDown(items))
  {
    hide SortedDown;
    var order := SortedDown(items);
    SortDescends(items);
    SortedMembers(items);
    forall i, j | 0 <= i < j < |order| ensures order[j].decl < order[i].first {
      assert order[i] in items && order[j] in items;
      var a :| 0 <= a < |items| && items[a] == order[i];
      var b :| 0 <= b < |items| && items[b] == order[j];
      assert items[b].decl < items[a].decl;
    }
  }
}

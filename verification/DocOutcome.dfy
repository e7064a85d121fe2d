/** What the lines look like after the `--fix` loop of tools/check_doc_style.py: every rewritten declaration carries
    the wanted form, and no documentation is lost. */
module DocOutcome {
  import opened Wrappers
  import opened Lines
  import opened DocStyle
  import opened DocRewrite

  /** Where the output for line `i` starts in the result. */
  function Position(lines: seq<string>, es: seq<Edit>, i: nat): nat
    requires i <= |lines| && AllIn(lines, es)
  {
    SuffixOf(lines, es, 0, i);
    |Simultaneous(lines, es, 0)| - |Simultaneous(lines, es, i)|
  }

  /** The output from a later line on is the end of the output from an earlier one. */
  lemma {:induction false} SuffixOf(lines: seq<string>, es: seq<Edit>, from: nat, to: nat)
    requires from <= to <= |lines| && AllIn(lines, es)
    ensures var a, b := Simultaneous(lines, es, from), Simultaneous(lines, es, to);
            |b| <= |a| && a[|a| - |b|..] == b
    decreases |lines| - from
  {
    hide Out;
    if from < to { SuffixOf(lines, es, from + 1, to); }
  }

  /** `e` is one of the edits, every run lies apart, and nothing else touches its stretch of lines. */
  ghost predicate Alone(lines: seq<string>, es: seq<Edit>, e: Edit) {
    && AllIn(lines, es) && e in es && InBounds(lines, e)
    && forall x, i :: x in es && x != e && e.first <= i <= e.decl ==> !Touches(x, i)
  }

  lemma ApartIsAlone(lines: seq<string>, es: seq<Edit>, e: Edit)
    requires AllIn(lines, es) && Apart(es) && DistinctDecls(es) && e in es
    ensures Alone(lines, es, e)
  {
    forall x, i | x in es && x != e && e.first <= i <= e.decl ensures !Touches(x, i) {
      var a :| 0 <= a < |es| && es[a] == x;
      var b :| 0 <= b < |es| && es[b] == e;
      assert es[a].decl != es[b].decl;
      if x.decl < e.decl { assert es[a].decl < es[b].first; } else { assert es[b].decl < es[a].first; }
    }
  }

  lemma {:induction false} OutIsPiece(lines: seq<string>, es: seq<Edit>, e: Edit, i: nat)
    requires AllIn(lines, es) && InBounds(lines, e) && e in es && i < |lines| && Touches(e, i)
    requires forall x :: x in es && x != e ==> !Touches(x, i)
    ensures Out(lines, es, i) == Piece(lines, e, i)
    decreases |es|
  {
    hide Touches, Piece;
    if es[0] != e { OutIsPiece(lines, es[1..], e, i); }
  }

  /** The output for the lines from the start of an edit's run through its declaration. */
  lemma AroundEdit(lines: seq<string>, es: seq<Edit>, e: Edit)
    requires Alone(lines, es, e)
    ensures Simultaneous(lines, es, e.first) ==
            (if e.cand.None? then ToBlock(lines, e.first, e.last) else []) + lines[e.last + 1..e.decl] +
            Simultaneous(lines, es, e.decl)
    ensures Simultaneous(lines, es, e.decl) ==
            [if e.cand.Some? then e.cand.value else lines[e.decl]] + Simultaneous(lines, es, e.decl + 1)
  {
    hide Out, Piece, ToBlock;
    RunOutput(lines, es, e, e.first);
    forall i | e.last < i < e.decl ensures Untouched(es, i) { }
    UntouchedStretch(lines, es, e.last + 1, e.decl);
    if e.cand.Some? {
      OutIsPiece(lines, es, e, e.decl);
      PieceAtDecl(lines, e);
    } else {
      OutUntouched(lines, es, e.decl);
    }
  }

  lemma PieceAtDecl(lines: seq<string>, e: Edit)
    requires InBounds(lines, e) && e.cand.Some?
    ensures Piece(lines, e, e.decl) == [e.cand.value]
  {
  }

  lemma {:induction false} RunOutput(lines: seq<string>, es: seq<Edit>, e: Edit, i: nat)
    requires Alone(lines, es, e) && e.first <= i <= e.last + 1
    ensures Simultaneous(lines, es, i) ==
            (if i == e.first && e.cand.None? then ToBlock(lines, e.first, e.last) else []) +
            Simultaneous(lines, es, e.last + 1)
    decreases e.last + 1 - i
  {
    hide Out, ToBlock;
    if i <= e.last {
      OutIsPiece(lines, es, e, i);
      RunOutput(lines, es, e, i + 1);
    }
  }

  // ---------------------------------------------------------------- the form that results

  /** The line that closes a block neither documents nor intervenes, and is recognised as a block's end. */
  lemma CloserFacts(indent: string)
    requires AllSpace(indent)
    ensures var line := indent + " */";
            Strip(line) == "*/" && !Doc(line) && !Intervening(line) && EndsWith(Strip(line), "*/")
  {
    var line := indent + " */";
    assert line == (indent + " ") + "*/" && AllSpace(indent + " ");
    LstripSpaces(indent + " ", "*/");
    StripSpaces(indent + " ", "*/");
  }

  /** Going up over intervening lines from `j` ends at a line that is neither documentation nor intervening. */
  lemma {:induction false} ClimbStops(lines: seq<string>, j: int, hops: nat, stop: nat)
    requires stop <= j < |lines| && j - stop + hops < 8 && !Doc(lines[stop]) && !Intervening(lines[stop])
    requires forall k :: stop < k <= j ==> Intervening(lines[k]) && !Doc(lines[k])
    ensures Climb(lines, j, hops).None? && Skip(lines, j, hops) == stop
    decreases j
  {
    hide Doc, Intervening;
    if stop < j { ClimbStops(lines, j - 1, hops + 1, stop); }
  }

  lemma ToBlockEnds(lines: seq<string>, first: nat, last: nat)
    requires first <= last < |lines|
    ensures var b := ToBlock(lines, first, last); b[|b| - 1] == IndentOf(lines[first]) + " */"
  {
  }

  lemma CandidateIsTrailing(lines: seq<string>, decl: nat, first: nat, last: nat)
    requires first <= last < |lines| && decl < |lines| && TrailingCandidate(lines, decl, first, last).Some?
    ensures Contains(TrailingCandidate(lines, decl, first, last).value, "//!<")
  {
    hide Rstrip, BriefText;
    var line := TrailingCandidate(lines, decl, first, last).value;
    var head := Rstrip(lines[decl]);
    var text := BriefText(lines[last]);
    assert line == head + " //!< " + text;
    var k := |head| + 1;
    assert line[k..] == "//!< " + text;
    assert line[k..][..4] == "//!<";
    assert StartsWith(line[k..], "//!<");
  }

  /** A declaration whose lines read: the block, the same intervening lines, the declaration. */
  lemma BlockIsSeen(now: seq<string>, p: nat, gap: nat, indent: string)
    requires AllSpace(indent) && gap < 8 && gap < p < |now| && now[p - 1 - gap] == indent + " */"
    requires forall k :: p - 1 - gap < k < p ==> Intervening(now[k]) && !Doc(now[k])
    requires !Contains(now[p], "//!<")
    ensures FormOf(now, p) == Block
  {
    hide Doc, Intervening, Contains, Strip, EndsWith;
    CloserFacts(indent);
    ClimbStops(now, p - 1, 0, p - 1 - gap);
  }

  /** The declaration's own line in the result. */
  lemma DeclarationLine(lines: seq<string>, es: seq<Edit>, e: Edit)
    requires Alone(lines, es, e)
    ensures var now, p := Simultaneous(lines, es, 0), Position(lines, es, e.decl);
            p < |now| && now[p] == if e.cand.Some? then e.cand.value else lines[e.decl]
  {
    hide ToBlock, Simultaneous;
    AroundEdit(lines, es, e);
    SuffixOf(lines, es, 0, e.decl);
    var now, p, end := Simultaneous(lines, es, 0), Position(lines, es, e.decl), Simultaneous(lines, es, e.decl);
    assert now[p..] == end && now[p] == end[0];
  }

  lemma BlockCase(lines: seq<string>, es: seq<Edit>, e: Edit)
    requires Alone(lines, es, e) && Fits(lines, e) && e.cand.None?
    ensures var now, p := Simultaneous(lines, es, 0), Position(lines, es, e.decl);
            p < |now| && FormOf(now, p) == Block
  {
    hide Doc, Intervening, Contains, ToBlock, Simultaneous, FormOf, BlockAbove;
    BlockAboveFacts(lines, e.decl);
    AroundEdit(lines, es, e);
    SuffixOf(lines, es, 0, e.first);
    SuffixOf(lines, es, 0, e.decl);
    ToBlockEnds(lines, e.first, e.last);
    var block, middle := ToBlock(lines, e.first, e.last), lines[e.last + 1..e.decl];
    forall k | 0 <= k < |middle| ensures Intervening(middle[k]) && !Doc(middle[k]) {
      assert middle[k] == lines[e.last + 1 + k];
    }
    var now, rest, end := Simultaneous(lines, es, 0), Simultaneous(lines, es, e.first), Simultaneous(lines, es, e.decl);
    assert rest == block + middle + end;
    AfterBlock(now, |now| - |rest|, block, middle, end, IndentOf(lines[e.first]));
  }

  /** After the loop every rewritten declaration classifies as trailing or as block, as it was meant to. */
  lemma RewrittenFormsAreWanted(lines: seq<string>, es: seq<Edit>, e: Edit)
    requires AllIn(lines, es) && Apart(es) && DistinctDecls(es) && e in es && Fits(lines, e)
    ensures var now, p := Simultaneous(lines, es, 0), Position(lines, es, e.decl);
            p < |now| && now[p] == (if e.cand.Some? then e.cand.value else lines[e.decl]) &&
            FormOf(now, p) == if e.cand.Some? then Trailing else Block
  {
    hide Contains, TrailingCandidate, Simultaneous, FormOf, BlockAbove, Alone;
    ApartIsAlone(lines, es, e);
    DeclarationLine(lines, es, e);
    if e.cand.Some? {
      CandidateIsTrailing(lines, e.decl, e.first, e.last);
      TrailingIsSeen(Simultaneous(lines, es, 0), Position(lines, es, e.decl));
    } else {
      BlockCase(lines, es, e);
    }
  }

  // ---------------------------------------------------------------- the whole result

  /** Line `i` of the result carries, behind its star, what the doc line has behind its marker. */
  predicate CarriesText(now: seq<string>, i: nat, doc: string) {
    && i < |now| && StartsWith(Strip(now[i]), "*") && |Strip(doc)| >= 3
    && Strip(now[i])[1..] == Strip(doc)[3..]
  }

  /** An edit as it shows in the result: the declaration in its wanted form, and all of its documentation. */
  ghost predicate Rewritten(lines: seq<string>, es: seq<Edit>, e: Edit)
    requires AllIn(lines, es) && InBounds(lines, e)
  {
    var now, p, q := Simultaneous(lines, es, 0), Position(lines, es, e.decl), Position(lines, es, e.first);
    && p < |now|
    && FormOf(now, p) == (if e.cand.Some? then Trailing else Block)
    && (e.cand.Some? ==> now[p] == Rstrip(lines[e.decl]) + " //!< " + BriefText(lines[e.last]) && KeepsText(lines[e.last]))
    && (e.cand.None? ==> now[p] == lines[e.decl] && Position(lines, es, e.last + 1) == q + (e.last - e.first + 3))
    && (e.cand.None? ==> forall k :: e.first <= k <= e.last ==> CarriesText(now, q + (k - e.first) + 1, lines[k]))
  }

  /** Every edit shows, in full. */
  lemma EditsShow(lines: seq<string>, es: seq<Edit>, e: Edit)
    requires AllIn(lines, es) && Apart(es) && DistinctDecls(es) && e in es && Fits(lines, e)
    ensures Rewritten(lines, es, e)
  {
    hide Contains, TrailingCandidate, Simultaneous, FormOf, BlockAbove, Alone, CarriesText, CommentLine, KeepsText, Doc, BriefText;
    RewrittenFormsAreWanted(lines, es, e);
    BlockAboveFacts(lines, e.decl);
    if e.cand.Some? {
      CandidateText(lines, e.decl, e.first, e.last);
      TrailingKeepsText(lines[e.last]);
    } else {
      ApartIsAlone(lines, es, e);
      BlockShows(lines, es, e);
    }
  }

  lemma CandidateText(lines: seq<string>, decl: nat, first: nat, last: nat)
    requires first <= last < |lines| && decl < |lines|
    ensures var c := TrailingCandidate(lines, decl, first, last);
            c.Some? ==> c.value == Rstrip(lines[decl]) + " //!< " + BriefText(lines[last]) && BriefText(lines[last]) != ""
  {
    hide Rstrip, BriefText, Contains;
  }

  /** The block of an edit stands where its run stood, with the text of every line of it. */
  lemma BlockShows(lines: seq<string>, es: seq<Edit>, e: Edit)
    requires Alone(lines, es, e) && e.cand.None? && forall k :: e.first <= k <= e.last ==> Doc(lines[k])
    ensures var now, q := Simultaneous(lines, es, 0), Position(lines, es, e.first);
            && Position(lines, es, e.last + 1) == q + (e.last - e.first + 3)
            && forall k :: e.first <= k <= e.last ==> CarriesText(now, q + (k - e.first) + 1, lines[k])
  {
    hide Doc, ToBlock, Simultaneous, CarriesText;
    RunOutput(lines, es, e, e.first);
    RunOutput(lines, es, e, e.last + 1);
    SuffixOf(lines, es, 0, e.first);
    SuffixOf(lines, es, 0, e.last + 1);
    var now, q, rest := Simultaneous(lines, es, 0), Position(lines, es, e.first), Simultaneous(lines, es, e.first);
    var block := ToBlock(lines, e.first, e.last);
    forall k | e.first <= k <= e.last ensures CarriesText(now, q + (k - e.first) + 1, lines[k]) {
      var i := k - e.first + 1;
      assert now[q + i] == now[q..][i] == rest[i] == block[i];
      BlockKeepsText(lines, e.first, e.last, k);
      CarriesFrom(now, q + i, block[i], lines[k]);
    }
  }

  lemma CarriesFrom(now: seq<string>, i: nat, line: string, doc: string)
    requires i < |now| && now[i] == line && Doc(doc) && StartsWith(Strip(line), "*") && Strip(line)[1..] == Strip(doc)[3..]
    ensures CarriesText(now, i, doc)
  {
  }

  /** A line no edit touches stands in the result, with the next line's output right behind it. */
  lemma UntouchedStays(lines: seq<string>, es: seq<Edit>, i: nat)
    requires AllIn(lines, es) && i < |lines| && Untouched(es, i)
    ensures var now, p := Simultaneous(lines, es, 0), Position(lines, es, i);
            p < |now| && now[p] == lines[i] && Position(lines, es, i + 1) == p + 1
  {
    hide Out;
    OutUntouched(lines, es, i);
    SuffixOf(lines, es, 0, i);
    SuffixOf(lines, es, 0, i + 1);
    var now, p, rest := Simultaneous(lines, es, 0), Position(lines, es, i), Simultaneous(lines, es, i);
    assert now[p] == now[p..][0] == rest[0];
  }

  /** The result keeps the order of the lines. */
  lemma PositionsAscend(lines: seq<string>, es: seq<Edit>, i: nat, j: nat)
    requires AllIn(lines, es) && i <= j <= |lines|
    ensures Position(lines, es, i) <= Position(lines, es, j) <= |Simultaneous(lines, es, 0)|
    ensures i < j && Untouched(es, i) ==> Position(lines, es, i) < Position(lines, es, j)
  {
    hide Out;
    SuffixOf(lines, es, i, j);
    if i < j && Untouched(es, i) {
      UntouchedStays(lines, es, i);
      SuffixOf(lines, es, i + 1, j);
    }
  }

  /** All of it, of what the loop leaves behind for items on distinct declarations with distinct runs: every edit shows,
      and every other line stands in its old order. */
  lemma FixedFormsAreWanted(lines: seq<string>, items: seq<Edit>)
    requires (forall x :: x in items ==> Fits(lines, x)) && DistinctDecls(items) && DistinctRuns(items)
    ensures var order := SortedDown(items);
            && AllIn(lines, order) && AllOrdered(order) && Loop(lines, order) == (Simultaneous(lines, order, 0), true)
            && (forall e :: e in items ==> InBounds(lines, e) && Rewritten(lines, order, e))
            && (forall i :: 0 <= i < |lines| && Untouched(order, i) ==> Stands(lines, order, i))
  {
    hide SortedDown, FormOf, Simultaneous, BlockAbove, TrailingCandidate, Contains, CommentLine, Rewritten, Stands;
    var order := SortedDown(items);
    FittingRunsAreApart(lines, items);
    SortFacts(items);
    LoopIsSimultaneous(lines, order);
    BottomUpIsApart(lines, order);
    forall e | e in items ensures Rewritten(lines, order, e) { EditsShow(lines, order, e); }
    forall i | 0 <= i < |lines| && Untouched(order, i) ensures Stands(lines, order, i) { LineStands(lines, order, i); }
  }

  /** An untouched line, below the output of every line above it and above that of every line below. */
  ghost predicate Stands(lines: seq<string>, es: seq<Edit>, i: nat)
    requires AllIn(lines, es) && i < |lines|
  {
    var now, p := Simultaneous(lines, es, 0), Position(lines, es, i);
    && p < |now| && now[p] == lines[i]
    && (forall j :: 0 <= j < i ==> Position(lines, es, j) <= p)
    && (forall j :: i < j < |lines| ==> p < Position(lines, es, j))
  }

  lemma LineStands(lines: seq<string>, es: seq<Edit>, i: nat)
    requires AllIn(lines, es) && i < |lines| && Untouched(es, i)
    ensures Stands(lines, es, i)
  {
    hide Position, Simultaneous;
    UntouchedStays(lines, es, i);
    forall j | 0 <= j < i ensures Position(lines, es, j) <= Position(lines, es, i) { PositionsAscend(lines, es, j, i); }
    forall j | i < j < |lines| ensures Position(lines, es, i) < Position(lines, es, j) { PositionsAscend(lines, es, i, j); }
  }

  lemma BottomUpIsApart(lines: seq<string>, order: seq<Edit>)
    requires BottomUp(order) && AllIn(lines, order)
    ensures Apart(order) && DistinctDecls(order)
  {
    forall i, j | 0 <= i < j < |order| ensures order[j].decl < order[i].first < order[i].decl {
      assert InBounds(lines, order[i]);
    }
  }

  /** Lines that end in a block, intervening lines and a declaration with what follows it. */
  lemma AfterBlock(now: seq<string>, q: nat, block: seq<string>, middle: seq<string>, end: seq<string>, indent: string)
    requires q <= |now| && now[q..] == block + middle + end && block != [] && end != [] && |middle| < 8
    requires AllSpace(indent) && block[|block| - 1] == indent + " */" && !Contains(end[0], "//!<")
    requires forall k :: 0 <= k < |middle| ==> Intervening(middle[k]) && !Doc(middle[k])
    ensures FormOf(now, q + |block| + |middle|) == Block
  {
    hide Doc, Intervening, Contains, FormOf, AllSpace;
    var p, rest := q + |block| + |middle|, block + middle + end;
    assert forall k :: 0 <= k < |rest| ==> now[q + k] == now[q..][k] == rest[k];
    assert now[p - 1 - |middle|] == rest[|block| - 1] && now[p] == rest[|block| + |middle|] == end[0];
    forall k | p - 1 - |middle| < k < p ensures Intervening(now[k]) && !Doc(now[k]) {
      assert now[k] == rest[k - q] == middle[k - q - |block|];
    }
    BlockIsSeen(now, p, |middle|, indent);
  }

  lemma TrailingIsSeen(now: seq<string>, p: nat)
    requires p < |now| && Contains(now[p], "//!<")
    ensures FormOf(now, p) == Trailing
  {
    hide BlockAbove, Contains;
  }

  // ---------------------------------------------------------------- the text that is kept

  lemma {:induction false} RstripAppend(a: string, v: string)
    requires v != "" && !IsSpace(v[0])
    ensures Rstrip(a + v) == a + Rstrip(v)
    decreases |v|
  {
    if IsSpace(v[|v| - 1]) {
      assert (a + v)[..|a + v| - 1] == a + v[..|v| - 1];
      RstripAppend(a, v[..|v| - 1]);
    }
  }

  lemma {:induction false} RstripMore(x: string, spaces: string)
    requires AllSpace(spaces)
    ensures Rstrip(x + spaces) == Rstrip(x)
    decreases |spaces|
  {
    if spaces == "" {
      assert x + spaces == x;
    } else {
      assert (x + spaces)[..|x + spaces| - 1] == x + spaces[..|spaces| - 1];
      RstripMore(x, spaces[..|spaces| - 1]);
    }
  }

  lemma {:induction false} LstripMore(x: string, spaces: string)
    requires AllSpace(spaces)
    ensures Lstrip(x + spaces) == if Lstrip(x) == "" then Lstrip(spaces) else Lstrip(x) + spaces
    decreases |x|
  {
    if x == "" {
      assert x + spaces == spaces;
    } else if IsSpace(x[0]) {
      assert (x + spaces)[1..] == x[1..] + spaces;
      LstripMore(x[1..], spaces);
    }
  }

  lemma {:induction false} BlankStrips(spaces: string)
    requires AllSpace(spaces)
    ensures Lstrip(spaces) == ""
    decreases |spaces|
  {
    if spaces != "" { BlankStrips(spaces[1..]); }
  }

  lemma StripMore(x: string, spaces: string)
    requires AllSpace(spaces)
    ensures Strip(x + spaces) == Strip(x)
  {
    LstripMore(x, spaces);
    BlankStrips(spaces);
    RstripMore(Lstrip(x), spaces);
  }

  /** The text of a doc line: what follows its marker, without the white space around it. */
  function DocText(line: string): string
    requires Doc(line)
  {
    Strip(Strip(line)[3..])
  }

  lemma DocTextIs(line: string)
    requires Doc(line)
    ensures var t := Lstrip(line); StartsWith(t, "//!") && DocText(line) == Rstrip(Lstrip(t[3..]))
  {
    hide Lstrip, Rstrip;
    var t := Lstrip(line);
    var s := Rstrip(t);
    RstripFacts(t);
    var spaces := t[|s|..];
    assert t == s + spaces && s == Strip(line);
    assert t[..3] == s[..3] && t[3..] == s[3..] + spaces;
    StripMore(s[3..], spaces);
  }

  /** `whole` is a brief command, white space and `text`. */
  predicate BriefBefore(ws: string, whole: string, text: string) {
    ws != "" && AllSpace(ws) && whole == "\\brief" + ws + text
  }

  /** The text a trailing comment takes from a doc line is all of it, but for a leading brief command. */
  ghost predicate KeepsText(line: string) {
    Doc(line) && (DocText(line) == BriefText(line) || exists ws :: BriefBefore(ws, DocText(line), BriefText(line)))
  }

  lemma TrailingKeepsText(line: string)
    requires Doc(line) && BriefText(line) != ""
    ensures KeepsText(line)
  {
    hide Lstrip, DocText, Doc, AfterBrief, BriefBefore;
    DocTextIs(line);
    LstripAgain(Lstrip(line)[3..]);
    BriefSplits(Lstrip(Lstrip(line)[3..]));
  }

  lemma LstripAgain(x: string)
    ensures Lstrip(Lstrip(x)) == Lstrip(x)
  {
  }

  lemma BriefSplits(u: string)
    requires AfterBrief(u) != "" && Lstrip(u) == u
    ensures Rstrip(u) == AfterBrief(u) ||
            exists ws :: BriefBefore(ws, Rstrip(u), AfterBrief(u))
  {
    hide Rstrip, AfterBrief, BriefBefore, StartsWith;
    if StartsWith(u, "\\brief") && |u| > 6 && IsSpace(u[6]) { WithBrief(u); } else { WithoutBrief(u); }
  }

  lemma WithoutBrief(u: string)
    requires !(StartsWith(u, "\\brief") && |u| > 6 && IsSpace(u[6])) && Lstrip(u) == u
    ensures AfterBrief(u) == Rstrip(u)
  {
    hide Rstrip, Lstrip, IsSpace, StartsWith;
  }

  /** The white space that stripping takes off the front. */
  lemma LeadingSpace(x: string) returns (ws: string)
    ensures x == ws + Lstrip(x) && AllSpace(ws)
    ensures Lstrip(x) != "" ==> !IsSpace(Lstrip(x)[0])
  {
    hide Lstrip, IsSpace;
    LstripFacts(x);
    ws := x[..|x| - |Lstrip(x)|];
  }

  lemma WithBrief(u: string)
    requires StartsWith(u, "\\brief") && |u| > 6 && IsSpace(u[6]) && AfterBrief(u) != ""
    ensures exists ws :: BriefBefore(ws, Rstrip(u), AfterBrief(u))
  {
    hide Lstrip, Rstrip, IsSpace, BriefBefore, StartsWith, AllSpace;
    var v := Lstrip(u[6..]);
    LstripAgain(u[6..]);
    NothingToStrip();
    var ws := LeadingSpace(u[6..]);
    BriefSplit(u, ws, v);
  }

  lemma BriefSplit(u: string, ws: string, v: string)
    requires StartsWith(u, "\\brief") && |u| > 6 && IsSpace(u[6]) && u[6..] == ws + v && v != "" && !IsSpace(v[0])
    requires AllSpace(ws)
    ensures BriefBefore(ws, Rstrip(u), Rstrip(v))
  {
    hide Rstrip, IsSpace;
    assert u[6..][0] == u[6] && (ws == "" ==> ws + v == v);
    assert u == (u[..6] + ws) + v;
    RstripAppend(u[..6] + ws, v);
  }

  lemma NothingToStrip()
    ensures Rstrip("") == ""
  {
  }
}

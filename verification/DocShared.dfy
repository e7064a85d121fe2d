/** When the `--fix` loop of tools/check_doc_style.py leaves the simultaneous replacement of the lines: exactly when no two
    of its items share a run of doc lines. */
module DocShared {
  import opened Wrappers
  import opened Lines
  import opened DocStyle
  import opened DocRewrite
  import opened DocOutcome
  import opened SharedRuns

  // ---------------------------------------------------------------- the sort of a line

  function SortOf(line: string): Sort {
    if CommentLine(line) then if Strip(line) == "/*!" then Opener else Comment
    else if Contains(line, "//!<") then Trailed else Code
  }

  function Sorts(lines: seq<string>): (s: seq<Sort>)
    ensures |s| == |lines| && forall k :: 0 <= k < |s| ==> s[k] == SortOf(lines[k])
  {
    seq(|lines|, k requires 0 <= k < |lines| => SortOf(lines[k]))
  }

  lemma SortsConcat(a: seq<string>, b: seq<string>)
    ensures Sorts(a + b) == Sorts(a) + Sorts(b)
  {
    hide SortOf;
  }

  lemma DocSort(line: string)
    requires Doc(line)
    ensures SortOf(line) == Comment
  {
    hide Strip;
    MarkerIsComment(Strip(line));
    MarkerIsNoOpener(Strip(line));
  }

  lemma MarkerIsNoOpener(s: string)
    requires StartsWith(s, "//!")
    ensures s != "/*!"
  {
    assert s[..3][1] == s[1];
  }

  lemma InterveningIsCode(line: string)
    requires Intervening(line)
    ensures IsCode(SortOf(line))
  {
    hide Contains;
    var t := Lstrip(line);
    RstripFacts(t);
    assert t[..1] == [t[0]] && t[0] in "t[_#" by { InterveningStart(line); }
    if CommentLine(line) { CommentStart(Strip(line)); }
  }

  lemma InterveningStart(line: string)
    requires Intervening(line)
    ensures Lstrip(line) != "" && Lstrip(line)[0] in "t[_#"
  {
    hide Lstrip, Word;
    var t := Lstrip(line);
    if StartsWith(t, "template") { assert t[0] == t[..8][0]; }
    else if StartsWith(t, "[[") { assert t[0] == t[..2][0]; }
    else if StartsWith(t, "__attribute__") { assert t[0] == t[..13][0]; }
    else { assert t[0] == t[..1][0]; }
  }

  lemma CommentStart(s: string)
    ensures StartsWith(s, "//") || StartsWith(s, "/*") || StartsWith(s, "*") ==> s != "" && s[0] in "/*"
  {
    if StartsWith(s, "//") || StartsWith(s, "/*") { assert s[0] == s[..2][0]; }
    if StartsWith(s, "*") { assert s[0] == s[..1][0]; }
  }

  /** The declaration of an item is code, and its trailing form is code with a trailing comment. */
  lemma DeclSort(lines: seq<string>, e: Edit)
    requires Fits(lines, e)
    ensures SortOf(lines[e.decl]) == Code && (e.cand.Some? ==> SortOf(e.cand.value) == Trailed)
  {
    hide BlockAbove, Contains, BriefText, CommentLine;
    if e.cand.Some? {
      CandidateIsTrailing(lines, e.decl, e.first, e.last);
      CandidateText(lines, e.decl, e.first, e.last);
      CandidateEnds(lines, e.decl, e.first, e.last);
      TrailingIsCode(lines[e.decl], BriefText(lines[e.last]));
    }
  }

  lemma CandidateEnds(lines: seq<string>, decl: nat, first: nat, last: nat)
    requires first <= last < |lines| && decl < |lines| && TrailingCandidate(lines, decl, first, last).Some?
    ensures EndsWith(Rstrip(lines[decl]), ";")
  {
    hide Rstrip, BriefText, Contains, EndsWith;
  }

  /** A comment behind a line of code leaves it a line of code. */
  lemma TrailingIsCode(line: string, text: string)
    requires !CommentLine(line) && EndsWith(Rstrip(line), ";")
    ensures !CommentLine(Rstrip(line) + " //!< " + text)
  {
    hide Lstrip, Rstrip, IsSpace, AllSpace;
    var t := Rstrip(line);
    var ws := LeadingSpace(t);
    var u := Lstrip(t);
    assert t[|t| - 1] == ';' by { assert t[|t| - 1..] == ";"; }
    SemicolonIsNoSpace(ws, t);
    var rest := " " + ("//!< " + text);
    CodeStrips(line, ws, u);
    var cand := t + " //!< " + text;
    assert cand == ws + (u + rest);
    LstripSpaces(ws, u + rest);
    assert u + rest == (u + " ") + ("//!< " + text);
    NotSpace('/');
    RstripAppend(u + " ", "//!< " + text);
    var s := Strip(cand);
    assert s == u + " " + Rstrip("//!< " + text);
    StillCode(u, s);
  }

  lemma NotSpace(c: char)
    requires c == '/' || c == '*' || c == ';'
    ensures !IsSpace(c)
  {
  }

  lemma SemicolonIsNoSpace(ws: string, t: string)
    requires AllSpace(ws) && t != "" && t[|t| - 1] == ';' && t == ws + Lstrip(t)
    ensures Lstrip(t) != "" && Lstrip(t)[|Lstrip(t)| - 1] == ';'
  {
    hide Lstrip;
    NotSpace(';');
  }

  /** A line with its blanks taken off both ends, by way of the right end first. */
  lemma CodeStrips(line: string, ws: string, u: string)
    requires Rstrip(line) == ws + u && AllSpace(ws) && u != "" && u[|u| - 1] == ';' && !IsSpace(u[0])
    ensures Strip(line) == u
  {
    hide Lstrip, Rstrip, IsSpace, AllSpace;
    RstripFacts(line);
    var t := Rstrip(line);
    var spaces := line[|t|..];
    assert line == t + spaces == ws + (u + spaces);
    LstripSpaces(ws, u + spaces);
    RstripMore(u, spaces);
    RstripNone(u);
  }

  lemma RstripNone(u: string)
    requires u != "" && u[|u| - 1] == ';'
    ensures Rstrip(u) == u
  {
  }

  lemma StillCode(u: string, s: string)
    requires u != "" && u[|u| - 1] == ';' && u <= s
    requires !(StartsWith(u, "//") || StartsWith(u, "/*") || StartsWith(u, "*"))
    ensures !(StartsWith(s, "//") || StartsWith(s, "/*") || StartsWith(s, "*"))
  {
    assert s[0] == u[0];
    assert s[..1] == u[..1];
    if |u| >= 2 { assert s[..2] == u[..2]; } else { CommentStart(s); }
  }

  /** The three sorts of a block's lines. */
  lemma OpenerSort(indent: string)
    requires AllSpace(indent)
    ensures SortOf(indent + "/*!") == Opener && SortOf(indent + " */") == Comment
  {
    hide Strip;
    StripSpaces(indent, "/*!");
    assert indent + " */" == (indent + " ") + "*/";
    StripSpaces(indent + " ", "*/");
    assert "/*!"[..2] == "/*" && "*/"[..1] == "*";
  }

  lemma BodySort(indent: string, line: string)
    requires AllSpace(indent)
    ensures SortOf(BlockLine(indent, line)) == Comment
  {
    hide Strip, Rstrip, Lstrip;
    var s := Strip(line);
    var text := "*" + if |s| >= 3 then s[3..] else "";
    NotSpace('*');
    assert indent + " *" + (if |s| >= 3 then s[3..] else "") == (indent + " ") + text;
    RstripAppend(indent + " ", text);
    RstripFacts(text);
    RstripNonempty(text);
    var w := Rstrip(text);
    assert w[..1] == "*";
    StripSpaces(indent + " ", w);
  }

  lemma RstripNonempty(text: string)
    requires text != "" && text[0] == '*'
    ensures Rstrip(text) != "" && Rstrip(text)[0] == '*'
  {
    hide Rstrip;
    NotSpace('*');
    RstripFacts(text);
    assert text[0..] == text;
  }

  lemma {:induction false} BlockBodySorts(lines: seq<string>, indent: string, k: nat, last: nat)
    requires k <= last + 1 <= |lines| && AllSpace(indent)
    ensures Sorts(BlockBody(lines, indent, k, last)) == seq(last + 1 - k, _ => Comment)
    decreases last + 1 - k
  {
    hide BlockLine, SortOf, AllSpace;
    if k <= last {
      BodySort(indent, lines[k]);
      BlockBodySorts(lines, indent, k + 1, last);
      SortsConcat([BlockLine(indent, lines[k])], BlockBody(lines, indent, k + 1, last));
    }
  }

  lemma BlockSorts(lines: seq<string>, first: nat, last: nat)
    requires first <= last < |lines|
    ensures Sorts(ToBlock(lines, first, last)) == Wrapped(last - first + 1)
  {
    hide SortOf, IndentOf, BlockBody, AllSpace;
    var indent := IndentOf(lines[first]);
    OpenerSort(indent);
    BlockBodySorts(lines, indent, first, last);
    var body := BlockBody(lines, indent, first, last);
    SortsConcat([indent + "/*!"], body);
    SortsConcat([indent + "/*!"] + body, [indent + " */"]);
  }

  // ---------------------------------------------------------------- the turns of one run

  function ItemOf(e: Edit): Item
    requires Ordered(e)
  {
    Item(e.decl - e.first, e.cand.Some?)
  }

  function ItemsOf(es: seq<Edit>): (its: seq<Item>)
    requires AllOrdered(es)
    ensures |its| == |es| && forall k :: 0 <= k < |es| ==> es[k] in es && its[k] == ItemOf(es[k])
  {
    if es == [] then [] else [ItemOf(es[0])] + ItemsOf(es[1..])
  }

  /** Edits of one run, from the last declaration up, whose trailing forms are lines with a trailing comment. */
  ghost predicate OneRun(es: seq<Edit>, first: nat, last: nat) {
    && AllOrdered(es) && Descending(es) && first <= last
    && forall e :: e in es ==> e.first == first && e.last == last && (e.cand.Some? ==> SortOf(e.cand.value) == Trailed)
  }

  lemma OneRunGroup(es: seq<Edit>, first: nat, last: nat)
    requires OneRun(es, first, last)
    ensures Group(ItemsOf(es), last - first + 1)
  {
    forall i | 0 <= i < |es| ensures Ordered(es[i]) && es[i].first == first && es[i].last == last { assert es[i] in es; }
  }

  lemma OneRunTail(es: seq<Edit>, first: nat, last: nat)
    requires OneRun(es, first, last) && es != []
    ensures OneRun(es[1..], first, last) && ItemsOf(es)[1..] == ItemsOf(es[1..]) && es[0] in es
  {
  }

  /** One edit on lines that read `above`, the stack, `below`: it is a turn on the stack. */
  lemma EditIsTurn(above: seq<string>, z: seq<string>, below: seq<string>, e: Edit) returns (z': seq<string>)
    requires Ordered(e) && e.first == |above| && e.decl - e.first < |z| && (e.cand.Some? ==> SortOf(e.cand.value) == Trailed)
    ensures var lines := above + z + below;
            Reaches(lines, e) && ApplyOne(lines, e) == above + z' + below &&
            Sorts(z') == Turn(Sorts(z), e.last - e.first + 1, ItemOf(e))
  {
    hide ToBlock, SortOf;
    var lines, d, run := above + z + below, e.decl - e.first, e.last - e.first + 1;
    if e.cand.Some? {
      z' := z[d := e.cand.value][1..];
      assert lines[e.decl := e.cand.value] == above + z[d := e.cand.value] + below;
    } else {
      var block := ToBlock(lines, e.first, e.last);
      z' := block + z[run..];
      BlockSorts(lines, e.first, e.last);
      SortsConcat(block, z[run..]);
      assert lines[..e.first] == above && lines[e.last + 1..] == z[run..] + below;
    }
  }

  /** The loop over the edits of one run turns the stack. */
  lemma {:induction false} LoopIsTurns(above: seq<string>, z: seq<string>, below: seq<string>, es: seq<Edit>, last: nat)
      returns (z': seq<string>)
    requires OneRun(es, |above|, last) && (es != [] ==> es[0].decl - |above| < |z|)
    ensures Group(ItemsOf(es), last - |above| + 1) && Covers(Sorts(z), ItemsOf(es))
    ensures Loop(above + z + below, es) == (above + z' + below, true)
    ensures Sorts(z') == Turns(Sorts(z), last - |above| + 1, ItemsOf(es))
    decreases |es|
  {
    hide ApplyOne, Turn, SortOf, Descending, Reaches, Sorts;
    OneRunGroup(es, |above|, last);
    if es == [] {
      z' := z;
    } else {
      OneRunTail(es, |above|, last);
      var next := EditIsTurn(above, z, below, es[0]);
      NextCovers(z, next, es, |above|, last);
      z' := LoopIsTurns(above, next, below, es[1..], last);
    }
  }

  lemma NextCovers(z: seq<string>, next: seq<string>, es: seq<Edit>, first: nat, last: nat)
    requires OneRun(es, first, last) && es != [] && es[0].decl - first < |z| && es[0] in es
    requires Sorts(next) == Turn(Sorts(z), last - first + 1, ItemOf(es[0]))
    ensures |es| > 1 ==> es[1].decl - first < |next|
  {
    assert |Sorts(next)| == |next|;
  }

  // ---------------------------------------------------------------- what is meant for one run

  lemma {:induction false} OutAfter(lines: seq<string>, a: seq<Edit>, es: seq<Edit>, i: nat)
    requires i < |lines| && AllIn(lines, a + es) && AllIn(lines, es) && Untouched(a, i)
    ensures Out(lines, a + es, i) == Out(lines, es, i)
    decreases |a|
  {
    hide Touches, InBounds, Piece;
    if a == [] {
      assert a + es == es;
    } else {
      assert (a + es)[1..] == a[1..] + es && (a + es)[0] == a[0];
      OutAfter(lines, a[1..], es, i);
    }
  }

  lemma {:induction false} OutBefore(lines: seq<string>, es: seq<Edit>, b: seq<Edit>, i: nat)
    requires i < |lines| && AllIn(lines, es + b) && AllIn(lines, es) && Untouched(b, i)
    ensures Out(lines, es + b, i) == Out(lines, es, i)
    decreases |es|
  {
    hide Touches, InBounds, Piece;
    if es == [] {
      assert es + b == b;
      OutUntouched(lines, b, i);
    } else {
      assert (es + b)[1..] == es[1..] + b && (es + b)[0] == es[0];
      OutBefore(lines, es[1..], b, i);
    }
  }

  lemma {:induction false} OutIsPainted(lines: seq<string>, es: seq<Edit>, first: nat, last: nat, z: seq<Sort>, i: nat)
    requires AllIn(lines, es) && OneRun(es, first, last) && last < i < |lines|
    requires i - first < |z| && z[i - first] == SortOf(lines[i])
    ensures Sorts(Out(lines, es, i)) == [Painted(z, ItemsOf(es))[i - first]]
    decreases |es|
  {
    hide SortOf, ToBlock;
    if es != [] {
      OneRunTail(es, first, last);
      OutIsPainted(lines, es[1..], first, last, z, i);
    }
  }

  /** `order` up to `g`, one run's edits, and the rest: which of them touch the stretch of the run. */
  ghost predicate Stretch(lines: seq<string>, order: seq<Edit>, g: nat, k: nat) {
    && g < k <= |order| && AllIn(lines, order) && OneRun(order[g..k], order[g].first, order[g].last)
    && (forall j :: 0 <= j < g ==> order[j].first > order[g].decl)
    && (forall j :: k <= j < |order| ==> order[j].decl < order[g].first)
  }

  lemma OutOfStretch(lines: seq<string>, order: seq<Edit>, g: nat, k: nat, i: nat)
    requires Stretch(lines, order, g, k) && order[g].first <= i <= order[g].decl
    ensures AllIn(lines, order[g..k]) && i < |lines| && Out(lines, order, i) == Out(lines, order[g..k], i)
  {
    hide Out, OneRun, InBounds, Untouched;
    var a, es, b := order[..g], order[g..k], order[k..];
    assert order == a + (es + b);
    assert AllIn(lines, es + b) && AllIn(lines, es);
    Member(lines, order, g);
    OthersAway(lines, order, g, k, i);
    OutAfter(lines, a, es + b, i);
    OutBefore(lines, es, b, i);
  }

  lemma OthersAway(lines: seq<string>, order: seq<Edit>, g: nat, k: nat, i: nat)
    requires Stretch(lines, order, g, k) && order[g].first <= i <= order[g].decl
    ensures Untouched(order[..g], i) && Untouched(order[k..], i)
  {
    hide OneRun, AllIn;
    forall e | e in order[..g] ensures !Touches(e, i) {
      var j :| 0 <= j < g && order[j] == e;
      Member(lines, order, j);
    }
    forall e | e in order[k..] ensures !Touches(e, i) {
      var j :| k <= j < |order| && order[j] == e;
      Member(lines, order, j);
    }
  }

  /** The sorts of the stretch, from the start of a run to its last declaration. */
  function StretchSorts(lines: seq<string>, e: Edit): seq<Sort>
    requires InBounds(lines, e)
  {
    Sorts(lines[e.first..e.decl + 1])
  }

  lemma {:induction false} BelowRun(lines: seq<string>, order: seq<Edit>, g: nat, k: nat, i: nat)
    requires Stretch(lines, order, g, k) && InBounds(lines, order[g]) && order[g].last < i <= order[g].decl + 1
    ensures var e := order[g];
            Sorts(Simultaneous(lines, order, i)) ==
            Painted(StretchSorts(lines, e), ItemsOf(order[g..k]))[i - e.first..] +
            Sorts(Simultaneous(lines, order, e.decl + 1))
    decreases order[g].decl + 1 - i
  {
    hide Simultaneous, Sorts, Stretch, Painted, OneRun, AllIn, AllOrdered, ItemsOf, StretchSorts;
    StretchFacts(lines, order, g, k);
    var e := order[g];
    var painted := Painted(StretchSorts(lines, e), ItemsOf(order[g..k]));
    StretchHeight(lines, e);
    if i <= e.decl {
      BelowRun(lines, order, g, k, i + 1);
      LineIsPainted(lines, order, g, k, i);
      assert painted[i - e.first..] == [painted[i - e.first]] + painted[i + 1 - e.first..];
    } else {
      assert painted[i - e.first..] == [];
    }
  }

  lemma LineIsPainted(lines: seq<string>, order: seq<Edit>, g: nat, k: nat, i: nat)
    requires Stretch(lines, order, g, k) && InBounds(lines, order[g]) && order[g].last < i <= order[g].decl
    requires |StretchSorts(lines, order[g])| == order[g].decl + 1 - order[g].first
    ensures Sorts(Simultaneous(lines, order, i)) ==
            [Painted(StretchSorts(lines, order[g]), ItemsOf(order[g..k]))[i - order[g].first]] +
            Sorts(Simultaneous(lines, order, i + 1))
  {
    hide Out, SortOf, Stretch, Painted, OneRun, Simultaneous;
    StretchFacts(lines, order, g, k);
    var e := order[g];
    OutOfStretch(lines, order, g, k, i);
    OutIsPainted(lines, order[g..k], e.first, e.last, StretchSorts(lines, e), i);
    SimultaneousStep(lines, order, i);
    SortsConcat(Out(lines, order, i), Simultaneous(lines, order, i + 1));
  }

  lemma StretchFacts(lines: seq<string>, order: seq<Edit>, g: nat, k: nat)
    requires Stretch(lines, order, g, k)
    ensures g < k <= |order| && AllIn(lines, order) && OneRun(order[g..k], order[g].first, order[g].last)
    ensures order[g] == order[g..k][0] && AllOrdered(order[g..k]) && AllIn(lines, order[g..k]) && InBounds(lines, order[g])
  {
  }

  lemma {:induction false} OnRun(lines: seq<string>, order: seq<Edit>, g: nat, k: nat, i: nat)
    requires Stretch(lines, order, g, k) && InBounds(lines, order[g]) && order[g].first <= i <= order[g].last + 1
    ensures var e := order[g];
            Sorts(Simultaneous(lines, order, i)) ==
            (if i == e.first && e.cand.None? then Wrapped(e.last - e.first + 1) else []) +
            Sorts(Simultaneous(lines, order, e.last + 1))
    decreases order[g].last + 1 - i
  {
    hide SortOf, Stretch, OneRun, ToBlock, Simultaneous;
    StretchFacts(lines, order, g, k);
    var e := order[g];
    if i <= e.last {
      OnRun(lines, order, g, k, i + 1);
      OutOfStretch(lines, order, g, k, i);
      assert Out(lines, order[g..k], i) == Piece(lines, e, i);
      BlockSorts(lines, e.first, e.last);
      SimultaneousStep(lines, order, i);
      SortsConcat(Out(lines, order, i), Simultaneous(lines, order, i + 1));
    }
  }

  lemma SimultaneousStep(lines: seq<string>, order: seq<Edit>, i: nat)
    requires i < |lines| && AllIn(lines, order)
    ensures Simultaneous(lines, order, i) == Out(lines, order, i) + Simultaneous(lines, order, i + 1)
  {
  }

  /** What is meant for a whole stretch. */
  lemma StretchIsMeant(lines: seq<string>, order: seq<Edit>, g: nat, k: nat)
    requires Stretch(lines, order, g, k) && InBounds(lines, order[g])
    ensures var e, its := order[g], ItemsOf(order[g..k]);
            && its != [] && AllIn(lines, order)
            && Sorts(Simultaneous(lines, order, e.first)) ==
               Meant(StretchSorts(lines, e), e.last - e.first + 1, its) + Sorts(Simultaneous(lines, order, e.decl + 1))
  {
    hide Stretch, OneRun, Simultaneous, Painted, SortOf;
    StretchFacts(lines, order, g, k);
    var e := order[g];
    OnRun(lines, order, g, k, e.first);
    BelowRun(lines, order, g, k, e.last + 1);
    assert ItemsOf(order[g..k])[0] == ItemOf(e);
  }

  // ---------------------------------------------------------------- run by run, from the bottom of the lines

  /** The items as the loop takes them, from the last declaration up, each of them fitting the lines. */
  ghost predicate Fitting(lines: seq<string>, order: seq<Edit>) {
    Descending(order) && forall e :: e in order ==> Fits(lines, e)
  }

  lemma FittingBounds(lines: seq<string>, order: seq<Edit>)
    requires Fitting(lines, order)
    ensures AllIn(lines, order) && AllOrdered(order)
  {
  }

  lemma TwoItems(lines: seq<string>, order: seq<Edit>, i: nat, j: nat)
    requires Fitting(lines, order) && i < j < |order|
    ensures order[j].first <= order[j].last < order[j].decl < order[i].decl && order[i].first <= order[i].last
    ensures order[j].decl < order[i].first || (order[j].first, order[j].last) == (order[i].first, order[i].last)
  {
    hide BlockAbove, CommentLine, Contains, TrailingCandidate;
    assert order[i] in order && order[j] in order;
    RunsSharedOrApart(lines, order[j], order[i]);
  }

  /** The items from `k` on lie above every run before. */
  predicate Cut(order: seq<Edit>, k: nat) {
    k <= |order| && forall i, j :: 0 <= i < k <= j < |order| ==> order[j].decl < order[i].first
  }

  predicate SameRun(order: seq<Edit>, g: nat, k: nat) {
    g < k <= |order| &&
    forall i :: g <= i < k ==> order[i].first == order[k - 1].first && order[i].last == order[k - 1].last
  }

  /** Where the items that share the run of item `k - 1` begin. */
  lemma RunStarts(lines: seq<string>, order: seq<Edit>, k: nat) returns (g: nat)
    requires Fitting(lines, order) && Cut(order, k) && k > 0
    ensures SameRun(order, g, k) && Cut(order, g)
  {
    hide Fitting;
    g := k - 1;
    while g > 0 && order[g - 1].last == order[g].last
      invariant SameRun(order, g, k)
    {
      TwoItems(lines, order, g - 1, g);
      g := g - 1;
    }
    forall i, j | 0 <= i < g <= j < |order| ensures order[j].decl < order[i].first {
      if j < k {
        TwoItems(lines, order, i, j);
        TwoItems(lines, order, g - 1, j);
        if i < g - 1 { TwoItems(lines, order, i, g - 1); }
      }
    }
  }

  /** What is known of each item of a run. */
  predicate Sound(lines: seq<string>, e: Edit, first: nat, last: nat) {
    && InBounds(lines, e) && e.first == first && e.last == last
    && SortOf(lines[e.decl]) == Code && (e.cand.Some? ==> SortOf(e.cand.value) == Trailed)
  }

  lemma RunIsSound(lines: seq<string>, order: seq<Edit>, g: nat, k: nat)
    requires Fitting(lines, order) && SameRun(order, g, k)
    ensures forall e :: e in order[g..k] ==> Sound(lines, e, order[g].first, order[g].last)
  {
    hide BlockAbove, CommentLine, Contains, TrailingCandidate, SortOf;
    forall e | e in order[g..k] ensures Sound(lines, e, order[g].first, order[g].last) {
      var i :| 0 <= i < |order[g..k]| && order[g..k][i] == e;
      assert order[g + i] == e && order[g + i] in order;
      DeclSort(lines, e);
    }
  }

  lemma RunIsStretch(lines: seq<string>, order: seq<Edit>, g: nat, k: nat)
    requires Fitting(lines, order) && Cut(order, g) && Cut(order, k) && SameRun(order, g, k)
    ensures Stretch(lines, order, g, k) && InBounds(lines, order[g])
  {
    hide Fits, SortOf, InBounds, Ordered;
    FittingBounds(lines, order);
    RunIsSound(lines, order, g, k);
    var es := order[g..k];
    assert AllOrdered(es);
    assert order[g] in order && forall i :: 0 <= i < |es| ==> es[i] == order[g + i];
    OrderedBounds(order[g]);
    forall j | 0 <= j < g ensures order[j].first > order[g].decl { }
    forall j | k <= j < |order| ensures order[j].decl < order[g].first { assert order[k - 1].first == order[g].first; }
  }

  /** A line of the stretch: documentation in the run, code below it. */
  lemma StretchLine(lines: seq<string>, e: Edit, i: nat)
    requires Fits(lines, e) && e.first <= i <= e.decl
    ensures if i <= e.last then SortOf(lines[i]) == Comment else IsCode(SortOf(lines[i]))
  {
    hide BlockAbove, CommentLine, Contains, TrailingCandidate, SortOf, Doc, Intervening;
    BlockAboveFacts(lines, e.decl);
    if i <= e.last { DocSort(lines[i]); } else if i < e.decl { InterveningIsCode(lines[i]); } else { DeclSort(lines, e); }
  }

  lemma StretchLines(lines: seq<string>, e: Edit)
    requires Fits(lines, e) && InBounds(lines, e)
    ensures var z := StretchSorts(lines, e);
            forall m :: 0 <= m < |z| ==> if m < e.last - e.first + 1 then z[m] == Comment else IsCode(z[m])
  {
    hide Fits, SortOf, IsCode;
    var z := StretchSorts(lines, e);
    forall m | 0 <= m < |z| ensures if m < e.last - e.first + 1 then z[m] == Comment else IsCode(z[m]) {
      assert z[m] == SortOf(lines[e.first + m]);
      StretchLine(lines, e, e.first + m);
    }
  }

  lemma StretchItem(lines: seq<string>, e: Edit, x: Edit)
    requires InBounds(lines, e) && Sound(lines, x, e.first, e.last) && x.decl <= e.decl
    ensures var z := StretchSorts(lines, e); ItemOf(x).d < |z| && z[ItemOf(x).d] == Code
  {
    hide SortOf;
    assert StretchSorts(lines, e)[x.decl - e.first] == SortOf(lines[x.decl]);
  }

  /** The stretch of a run: comment lines, then code, with a declaration wherever an item has one. */
  lemma {:induction false} StretchStarts(lines: seq<string>, es: seq<Edit>, e: Edit)
    requires Fits(lines, e) && InBounds(lines, e) && es != [] && es[0] == e && OneRun(es, e.first, e.last)
    requires forall x :: x in es ==> Sound(lines, x, e.first, e.last)
    ensures Start(StretchSorts(lines, e), e.last - e.first + 1, ItemsOf(es))
  {
    hide Fits, Sound, Group, IsCode, StretchSorts;
    OneRunGroup(es, e.first, e.last);
    StretchLines(lines, e);
    var z, its := StretchSorts(lines, e), ItemsOf(es);
    assert |z| == e.decl + 1 - e.first by { StretchHeight(lines, e); }
    forall i | 0 <= i < |its| ensures its[i].d < |z| && z[its[i].d] == Code {
      assert es[i] in es && its[i] == ItemOf(es[i]) && (i > 0 ==> es[i].decl < es[0].decl);
      StretchItem(lines, e, es[i]);
    }
  }

  lemma StretchHeight(lines: seq<string>, e: Edit)
    requires InBounds(lines, e)
    ensures |StretchSorts(lines, e)| == e.decl + 1 - e.first
  {
  }

  /** The part of the lines that the loop has not come to after `k` items. */
  function Edge(lines: seq<string>, order: seq<Edit>, k: nat): (c: nat)
    requires k <= |order|
  {
    if k == 0 then |lines| else order[k - 1].first
  }

  predicate EndsIn(t: seq<Sort>, s: seq<Sort>) { |s| <= |t| && t[|t| - |s|..] == s }

  predicate OccursAt(l: seq<Sort>, m: seq<Sort>, i: nat) { i + |m| <= |l| && l[i..i + |m|] == m }

  ghost predicate Occurs(l: seq<Sort>, m: seq<Sort>) { exists i: nat :: OccursAt(l, m, i) }

  lemma SpoiledNowhere(z: seq<Sort>, run: nat, its: seq<Item>)
    requires Start(z, run, its) && |its| >= 2
    ensures !Occurs(Turns(z, run, its), Meant(z, run, its))
  {
    hide Turns, Meant;
    var l, m := Turns(z, run, its), Meant(z, run, its);
    if i: nat :| OccursAt(l, m, i) {
      assert l == l[..i] + m + l[i + |m|..];
      SharedIsSpoiled(z, run, its, l[..i], l[i + |m|..]);
    }
  }

  lemma EndsFurther(l: seq<Sort>, m: seq<Sort>, mid: seq<Sort>, t: seq<Sort>, s: seq<Sort>)
    requires EndsIn(l + mid + t, m + mid + s)
    ensures if |t| >= |s| then EndsIn(t, s) else Occurs(l, m)
    ensures t == s ==> Occurs(l, m)
  {
    var a, b := l + mid + t, m + mid + s;
    if |t| >= |s| {
      assert t[|t| - |s|..] == a[|a| - |s|..] && b[|b| - |s|..] == s;
      assert a[|a| - |s|..] == a[|a| - |b|..][|b| - |s|..];
    }
    if |t| <= |s| {
      var i := |a| - |b|;
      assert a[i..][..|m|] == b[..|m|] == m && l[i..i + |m|] == a[i..][..|m|];
      assert OccursAt(l, m, i);
    }
  }

  /** Once the ends differ, no run above makes them agree again. */
  lemma StillApart(l: seq<Sort>, m: seq<Sort>, mid: seq<Sort>, t: seq<Sort>, s: seq<Sort>)
    requires !EndsIn(t, s) && (l == m || !Occurs(l, m))
    ensures !EndsIn(l + mid + t, m + mid + s)
  {
    if EndsIn(l + mid + t, m + mid + s) { EndsFurther(l, m, mid, t, s); }
  }

  lemma NowApart(l: seq<Sort>, m: seq<Sort>, mid: seq<Sort>, t: seq<Sort>)
    requires !Occurs(l, m)
    ensures !EndsIn(l + mid + t, m + mid + t)
  {
    if EndsIn(l + mid + t, m + mid + t) { EndsFurther(l, m, mid, t, t); }
  }

  lemma DistinctSoFar(lines: seq<string>, order: seq<Edit>, g: nat, k: nat)
    requires Fitting(lines, order) && Cut(order, g) && SameRun(order, g, k)
    ensures DistinctRuns(order[..k]) <==> DistinctRuns(order[..g]) && k == g + 1
  {
    hide Fitting;
    assert order[..k][g].last == order[..k][k - 1].last;
    assert forall i :: 0 <= i < g ==> order[..g][i] == order[..k][i];
    if DistinctRuns(order[..g]) && k == g + 1 {
      forall i, j | 0 <= i < j < k ensures order[..k][i].last != order[..k][j].last {
        if j < g { assert order[..g][i].last != order[..g][j].last; } else { TwoItems(lines, order, i, j); }
      }
    }
  }

  // ---------------------------------------------------------------- the loop against the simultaneous replacement

  /** The loop comes to a stretch whose lines are still the original ones. */
  lemma StretchTurns(lines: seq<string>, order: seq<Edit>, g: nat, k: nat, c: nat, t: seq<string>) returns (z: seq<string>)
    requires Stretch(lines, order, g, k) && InBounds(lines, order[g]) && order[g].decl < c <= |lines|
    ensures var e, its := order[g], ItemsOf(order[g..k]);
            && AllOrdered(order[g..k]) && Group(its, e.last - e.first + 1) && Covers(StretchSorts(lines, e), its)
            && Loop(lines[..c] + t, order[g..k]) == (lines[..e.first] + (z + (lines[e.decl + 1..c] + t)), true)
            && Sorts(z) == Turns(StretchSorts(lines, e), e.last - e.first + 1, its)
  {
    hide Loop, Turns, Sorts, OneRun, Stretch, AllOrdered, AllIn, Group, Covers, ItemsOf;
    StretchFacts(lines, order, g, k);
    var e := order[g];
    var above, stretch, below := lines[..e.first], lines[e.first..e.decl + 1], lines[e.decl + 1..c] + t;
    assert lines[..c] + t == above + stretch + below;
    z := LoopIsTurns(above, stretch, below, order[g..k], e.last);
    assert above + z + below == above + (z + below);
  }

  /** Below a stretch, down to the part that the loop has done, the lines are untouched. */
  lemma BetweenStretches(lines: seq<string>, order: seq<Edit>, g: nat, k: nat)
    requires Fitting(lines, order) && AllIn(lines, order) && Stretch(lines, order, g, k) && Cut(order, g)
    ensures var e, c := order[g], Edge(lines, order, g);
            && e.decl < c <= |lines|
            && Simultaneous(lines, order, e.decl + 1) == lines[e.decl + 1..c] + Simultaneous(lines, order, c)
  {
    hide Fitting, Stretch, Simultaneous, InBounds;
    StretchFacts(lines, order, g, k);
    var e, c := order[g], Edge(lines, order, g);
    assert e.decl < c <= |lines| by {
      Member(lines, order, g);
      if g > 0 { Member(lines, order, g - 1); }
    }
    forall i | e.decl + 1 <= i < c ensures Untouched(order, i) { NoneBetween(lines, order, g, i); }
    UntouchedStretch(lines, order, e.decl + 1, c);
  }

  lemma NoneBetween(lines: seq<string>, order: seq<Edit>, g: nat, i: nat)
    requires Fitting(lines, order) && AllIn(lines, order) && g < |order| && order[g].decl < i < Edge(lines, order, g)
    ensures Untouched(order, i)
  {
    hide Fitting, AllIn;
    forall x | x in order ensures !Touches(x, i) {
      var j :| 0 <= j < |order| && order[j] == x;
      Member(lines, order, j);
      if j < g - 1 { TwoItems(lines, order, j, g - 1); }
      if j > g { TwoItems(lines, order, g, j); }
    }
  }

  lemma Member(lines: seq<string>, order: seq<Edit>, j: nat)
    requires AllIn(lines, order) && j < |order|
    ensures InBounds(lines, order[j]) && order[j].first <= order[j].last < order[j].decl < |lines|
    ensures order[j].cand.Some? ==> order[j].first == order[j].last
  {
  }

  /** After the items of whole runs, the loop has left the lines above alone; what it has made of those below is what
      was meant as long as no run was shared, and from then on never ends in it. */
  ghost predicate Agrees(t: seq<string>, meant: seq<string>, distinct: bool) {
    if distinct then Sorts(t) == Sorts(meant) else !EndsIn(Sorts(t), Sorts(meant))
  }

  lemma {:induction false} LoopByRuns(lines: seq<string>, order: seq<Edit>, k: nat) returns (t: seq<string>)
    requires Fitting(lines, order) && Cut(order, k)
    ensures AllIn(lines, order) && AllOrdered(order[..k]) && Edge(lines, order, k) <= |lines|
    ensures Loop(lines, order[..k]) == (lines[..Edge(lines, order, k)] + t, true)
    ensures Agrees(t, Simultaneous(lines, order, Edge(lines, order, k)), DistinctRuns(order[..k]))
    decreases k
  {
    hide Fitting, Simultaneous, DistinctRuns, Agrees, Loop, AllOrdered, AllIn;
    FittingBounds(lines, order);
    if k == 0 {
      t := [];
      assert order[..0] == [] && lines[..|lines|] + [] == lines;
      OrderedPrefix(lines, order, 0);
      EmptyOrder(lines, order);
    } else {
      var g := RunStarts(lines, order, k);
      var t0 := LoopByRuns(lines, order, g);
      t := LoopOneRun(lines, order, g, k, t0);
    }
  }

  lemma LoopOneRun(lines: seq<string>, order: seq<Edit>, g: nat, k: nat, t0: seq<string>) returns (t: seq<string>)
    requires Fitting(lines, order) && AllIn(lines, order) && Cut(order, g) && Cut(order, k) && SameRun(order, g, k)
    requires AllOrdered(order[..g]) && Edge(lines, order, g) <= |lines|
    requires Loop(lines, order[..g]) == (lines[..Edge(lines, order, g)] + t0, true)
    requires Agrees(t0, Simultaneous(lines, order, Edge(lines, order, g)), DistinctRuns(order[..g]))
    ensures AllOrdered(order[..k]) && Edge(lines, order, k) <= |lines|
    ensures Loop(lines, order[..k]) == (lines[..Edge(lines, order, k)] + t, true)
    ensures Agrees(t, Simultaneous(lines, order, Edge(lines, order, k)), DistinctRuns(order[..k]))
  {
    hide Fitting, Simultaneous, Stretch, Turns, Sorts, InBounds, DistinctRuns, Agrees, Loop, Group, Covers, StretchSorts, Cut,
      AllOrdered, AllIn;
    RunIsStretch(lines, order, g, k);
    BetweenStretches(lines, order, g, k);
    Member(lines, order, g);
    var z := LoopThrough(lines, order, g, k, t0);
    t := z + (lines[order[g].decl + 1..Edge(lines, order, g)] + t0);
    RunAgrees(lines, order, g, k, z, t0);
  }

  /** The loop through one more run. */
  lemma LoopThrough(lines: seq<string>, order: seq<Edit>, g: nat, k: nat, t0: seq<string>) returns (z: seq<string>)
    requires AllIn(lines, order) && Stretch(lines, order, g, k) && InBounds(lines, order[g]) && AllOrdered(order[..g])
    requires order[g].decl < Edge(lines, order, g) <= |lines|
    requires Loop(lines, order[..g]) == (lines[..Edge(lines, order, g)] + t0, true)
    ensures var e, its, mid := order[g], ItemsOf(order[g..k]), lines[order[g].decl + 1..Edge(lines, order, g)];
            && AllOrdered(order[..k]) && Group(its, e.last - e.first + 1) && Covers(StretchSorts(lines, e), its)
            && Loop(lines, order[..k]) == (lines[..e.first] + (z + (mid + t0)), true)
            && Sorts(z) == Turns(StretchSorts(lines, e), e.last - e.first + 1, its)
  {
    hide Stretch, Turns, Sorts, InBounds, Loop, Group, Covers, StretchSorts, AllOrdered, AllIn, Edge;
    StretchFacts(lines, order, g, k);
    OrderedPrefix(lines, order, k);
    z := StretchTurns(lines, order, g, k, Edge(lines, order, g), t0);
    assert order[..k] == order[..g] + order[g..k];
    LoopSplits(lines, order[..g], order[g..k]);
  }

  lemma OrderedPrefix(lines: seq<string>, order: seq<Edit>, k: nat)
    requires AllIn(lines, order) && k <= |order|
    ensures AllOrdered(order[..k])
  {
    hide Ordered;
    forall e | e in order[..k] ensures Ordered(e) { assert e in order && InBounds(lines, e); }
  }

  lemma EmptyOrder(lines: seq<string>, order: seq<Edit>)
    requires AllIn(lines, order)
    ensures Simultaneous(lines, order, |lines|) == [] && Loop(lines, []) == (lines, true) && Agrees([], [], DistinctRuns([]))
  {
  }

  lemma RunAgrees(lines: seq<string>, order: seq<Edit>, g: nat, k: nat, z: seq<string>, t0: seq<string>)
    requires Fitting(lines, order) && AllIn(lines, order) && Cut(order, g) && SameRun(order, g, k)
    requires Stretch(lines, order, g, k) && InBounds(lines, order[g]) && order[g].decl < Edge(lines, order, g) <= |lines|
    requires var e, its := order[g], ItemsOf(order[g..k]);
             && Group(its, e.last - e.first + 1) && Covers(StretchSorts(lines, e), its)
             && Sorts(z) == Turns(StretchSorts(lines, e), e.last - e.first + 1, its)
    requires Agrees(t0, Simultaneous(lines, order, Edge(lines, order, g)), DistinctRuns(order[..g]))
    ensures var e, c := order[g], Edge(lines, order, g);
            Agrees(z + (lines[e.decl + 1..c] + t0), Simultaneous(lines, order, e.first), DistinctRuns(order[..k]))
  {
    hide Fitting, Simultaneous, Stretch, Turns, Meant, Sorts, InBounds, DistinctRuns, Occurs, Agrees, Start, Group, Covers,
      Cut, StretchSorts, Edge, AllIn;
    var m := RunMeant(lines, order, g, k);
    DistinctSoFar(lines, order, g, k);
    var c := Edge(lines, order, g);
    EndsAgree(z, lines[order[g].decl + 1..c], t0, Simultaneous(lines, order, c), Simultaneous(lines, order, order[g].first),
      m, DistinctRuns(order[..g]), k == g + 1);
  }

  /** What is meant for one more run, and whether its turns leave that. */
  lemma RunMeant(lines: seq<string>, order: seq<Edit>, g: nat, k: nat) returns (m: seq<Sort>)
    requires Fitting(lines, order) && AllIn(lines, order) && Cut(order, g) && SameRun(order, g, k)
    requires Stretch(lines, order, g, k) && InBounds(lines, order[g]) && order[g].decl < Edge(lines, order, g) <= |lines|
    requires Group(ItemsOf(order[g..k]), order[g].last - order[g].first + 1)
    requires Covers(StretchSorts(lines, order[g]), ItemsOf(order[g..k]))
    ensures var e, c := order[g], Edge(lines, order, g);
            Sorts(Simultaneous(lines, order, e.first)) == m + Sorts(lines[e.decl + 1..c] + Simultaneous(lines, order, c))
    ensures var e := order[g];
            var l := Turns(StretchSorts(lines, e), e.last - e.first + 1, ItemsOf(order[g..k]));
            if k == g + 1 then l == m else !Occurs(l, m)
  {
    hide Fitting, Simultaneous, Stretch, Turns, Meant, Sorts, InBounds, Occurs, Start, Group, Covers, Cut, StretchSorts, Edge,
      AllIn, SameRun, Ordered, AllOrdered, ItemsOf;
    StretchFacts(lines, order, g, k);
    RunBegins(lines, order, g, k);
    var run, its := order[g].last - order[g].first + 1, ItemsOf(order[g..k]);
    m := Meant(StretchSorts(lines, order[g]), run, its);
    RunMeantText(lines, order, g, k, m);
    ItemsLength(order[g..k]);
    RunAlone(StretchSorts(lines, order[g]), run, its);
  }

  lemma ItemsLength(es: seq<Edit>)
    requires AllOrdered(es)
    ensures |ItemsOf(es)| == |es|
  {
  }

  lemma RunMeantText(lines: seq<string>, order: seq<Edit>, g: nat, k: nat, m: seq<Sort>)
    requires Fitting(lines, order) && AllIn(lines, order) && Cut(order, g)
    requires Stretch(lines, order, g, k) && InBounds(lines, order[g]) && order[g].decl < Edge(lines, order, g) <= |lines|
    requires var e, its := order[g], ItemsOf(order[g..k]);
             its != [] && e.last - e.first + 1 <= |StretchSorts(lines, e)| &&
             m == Meant(StretchSorts(lines, e), e.last - e.first + 1, its)
    ensures var e, c := order[g], Edge(lines, order, g);
            Sorts(Simultaneous(lines, order, e.first)) == m + Sorts(lines[e.decl + 1..c] + Simultaneous(lines, order, c))
  {
    hide Fitting, Simultaneous, Stretch, Meant, Sorts, InBounds, Cut, StretchSorts, Edge, AllIn;
    StretchIsMeant(lines, order, g, k);
    BetweenStretches(lines, order, g, k);
  }

  /** A run of one item comes out as meant, a shared one nowhere. */
  lemma RunAlone(z: seq<Sort>, run: nat, its: seq<Item>)
    requires Start(z, run, its)
    ensures if |its| == 1 then Turns(z, run, its) == Meant(z, run, its) else !Occurs(Turns(z, run, its), Meant(z, run, its))
  {
    hide Turns, Meant, Occurs;
    if |its| == 1 { OneTurn(z, run, its); } else { SpoiledNowhere(z, run, its); }
  }

  /** One more run on top: what the loop made of it, `z`, against what was meant, `m`. */
  lemma EndsAgree(z: seq<string>, mid: seq<string>, t: seq<string>, below: seq<string>, meant: seq<string>, m: seq<Sort>,
      distinct: bool, alone: bool)
    requires Sorts(meant) == m + Sorts(mid + below) && Agrees(t, below, distinct)
    requires if alone then Sorts(z) == m else !Occurs(Sorts(z), m)
    ensures Agrees(z + (mid + t), meant, distinct && alone)
  {
    hide Occurs, EndsIn, Sorts;
    SortsConcat(z, mid + t);
    SortsConcat(mid, t);
    SortsConcat(mid, below);
    assert Sorts(z) + (Sorts(mid) + Sorts(t)) == Sorts(z) + Sorts(mid) + Sorts(t);
    assert m + (Sorts(mid) + Sorts(below)) == m + Sorts(mid) + Sorts(below);
    if !distinct {
      StillApart(Sorts(z), m, Sorts(mid), Sorts(t), Sorts(below));
    } else if !alone {
      NowApart(Sorts(z), m, Sorts(mid), Sorts(t));
    }
  }

  lemma RunBegins(lines: seq<string>, order: seq<Edit>, g: nat, k: nat)
    requires Fitting(lines, order) && SameRun(order, g, k) && Stretch(lines, order, g, k) && InBounds(lines, order[g])
    ensures var z, run, its := StretchSorts(lines, order[g]), order[g].last - order[g].first + 1, ItemsOf(order[g..k]);
            Start(z, run, its) && its != [] && run <= |z|
  {
    hide Fits, SortOf, OneRun, Start;
    RunIsSound(lines, order, g, k);
    assert order[g] in order && order[g..k][0] == order[g];
    StretchStarts(lines, order[g..k], order[g]);
  }

  /** For items that fit the lines, on distinct declarations, taken from the last one up: the loop always runs to the
      end, and leaves the simultaneous replacement exactly when no two of them share a run. */
  lemma LoopIsSimultaneousIff(lines: seq<string>, order: seq<Edit>)
    requires Fitting(lines, order)
    ensures AllIn(lines, order) && AllOrdered(order) && Loop(lines, order).1
    ensures Loop(lines, order).0 == Simultaneous(lines, order, 0) <==> DistinctRuns(order)
  {
    hide Loop, Simultaneous, Fits, Fitting, Sorts, DistinctRuns, EndsIn;
    var n := |order|;
    var t := LoopByRuns(lines, order, n);
    assert order[..n] == order;
    var c := Edge(lines, order, n);
    AboveAll(lines, order);
    var meant := Simultaneous(lines, order, c);
    assert Loop(lines, order).0 == lines[..c] + t && Simultaneous(lines, order, 0) == lines[..c] + meant;
    if DistinctRuns(order) {
      DistinctIsBottomUp(lines, order);
      LoopIsSimultaneous(lines, order);
    } else {
      assert (lines[..c] + t)[c..] == t && (lines[..c] + meant)[c..] == meant;
      EndsInItself(Sorts(t));
    }
  }

  lemma EndsInItself(s: seq<Sort>)
    ensures EndsIn(s, s)
  {
    assert s[0..] == s;
  }

  lemma AboveAll(lines: seq<string>, order: seq<Edit>)
    requires Fitting(lines, order) && AllIn(lines, order) && Edge(lines, order, |order|) <= |lines|
    ensures var c := Edge(lines, order, |order|);
            Simultaneous(lines, order, 0) == lines[..c] + Simultaneous(lines, order, c)
  {
    hide Fitting, Simultaneous;
    var n, c := |order|, Edge(lines, order, |order|);
    forall i | 0 <= i < c ensures Untouched(order, i) {
      forall x | x in order ensures !Touches(x, i) {
        var j :| 0 <= j < n && order[j] == x;
        Member(lines, order, j);
        if j < n - 1 { TwoItems(lines, order, j, n - 1); }
      }
    }
    UntouchedStretch(lines, order, 0, c);
    assert lines[0..c] == lines[..c];
  }

  lemma DistinctIsBottomUp(lines: seq<string>, order: seq<Edit>)
    requires Fitting(lines, order) && DistinctRuns(order)
    ensures BottomUp(order)
  {
    hide Fitting;
    forall i, j | 0 <= i < j < |order| ensures order[j].decl < order[i].first { TwoItems(lines, order, i, j); }
  }
}

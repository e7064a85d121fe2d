/** The `--fix` run of tools/check_doc_style.py from the reported members to the lines it leaves, and what becomes of runs
    that are shared. */
module DocFix {
  import opened Wrappers
  import opened Lines
  import opened DocStyle
  import opened DocRewrite
  import opened DocOutcome
  import opened DocShared

  lemma SortedFits(lines: seq<string>, items: seq<Edit>)
    requires (forall e :: e in items ==> Fits(lines, e)) && DistinctDecls(items)
    ensures Fitting(lines, SortedDown(items)) && (DistinctRuns(SortedDown(items)) <==> DistinctRuns(items))
    ensures forall e :: e in SortedDown(items) <==> e in items
  {
    hide SortedDown, Fits;
    SortDescends(items);
    SortedMembers(items);
    DistinctByMember(SortedDown(items));
    DistinctByMember(items);
  }

  lemma DistinctByMember(es: seq<Edit>)
    requires Descending(es) || DistinctDecls(es)
    ensures DistinctRuns(es) <==> forall a, b :: a in es && b in es && a != b ==> a.last != b.last
  {
    if DistinctRuns(es) {
      forall a, b | a in es && b in es && a != b ensures a.last != b.last {
        var i :| 0 <= i < |es| && es[i] == a;
        var j :| 0 <= j < |es| && es[j] == b;
        assert i < j || j < i;
      }
    }
    if forall a, b :: a in es && b in es && a != b ==> a.last != b.last {
      forall i, j | 0 <= i < j < |es| ensures es[i].last != es[j].last { assert es[i].decl != es[j].decl; }
    }
  }

  /** For items on distinct declarations, in any order: the loop runs to the end, and leaves the simultaneous
      replacement of the lines if and only if no two of the items share a run. */
  lemma FixIsSimultaneousIff(lines: seq<string>, items: seq<Edit>)
    requires (forall e :: e in items ==> Fits(lines, e)) && DistinctDecls(items)
    ensures var order := SortedDown(items);
            && AllIn(lines, order) && AllOrdered(order) && Loop(lines, order).1
            && (Loop(lines, order).0 == Simultaneous(lines, order, 0) <==> DistinctRuns(items))
  {
    hide SortedDown, Fits, Loop, Simultaneous;
    SortedFits(lines, items);
    LoopIsSimultaneousIff(lines, SortedDown(items));
  }

  /** A member whose item shows in the result, in the form meant for its kind. */
  ghost predicate Shows(lines: seq<string>, items: seq<Edit>, m: Member) {
    && AllIn(lines, SortedDown(items))
    && exists e :: e in items && InBounds(lines, e) && e.decl == m.0 && (e.cand.Some? <==> m.1.Attribute?) &&
                   Rewritten(lines, SortedDown(items), e)
  }

  /** The whole run: collect, then apply. It changes nothing when a report is out of date. With members on distinct
      lines the result is the simultaneous replacement if and only if their runs are distinct, and then every member
      that wants another form has it, with all its documentation, and every other line stands in its old order. */
  method Fix(src: Source, members: seq<Member>) returns (ok: bool)
    modifies src
    ensures var L, items := old(src.lines), Items(old(src.lines), members);
            if exists m :: m in members && Outdated(L, m) then !ok && src.lines == L
            else
              && AllOrdered(SortedDown(items)) && (src.lines, ok) == Loop(L, SortedDown(items))
              && (DistinctLines(members) ==> ok && AllIn(L, SortedDown(items)))
              && (DistinctLines(members) ==> (src.lines == Simultaneous(L, SortedDown(items), 0) <==> DistinctRuns(items)))
              && (DistinctLines(members) && DistinctRuns(items) ==>
                    && (forall m :: m in members && Wants(L, m) ==> Shows(L, items, m))
                    && (forall i :: 0 <= i < |L| && Untouched(SortedDown(items), i) ==> Stands(L, SortedDown(items), i)))
  {
    hide Loop, Simultaneous, SortedDown, Fits, Wants, Listed, Outdated, Rewritten, Stands, InBounds;
    ghost var L := src.lines;
    var todo := Collect(src.lines, members);
    if todo.None? {
      return false;
    }
    var items := todo.value;
    FitsOrdered(L, items);
    ok := src.ApplyFixes(items);
    if DistinctLines(members) {
      FixIsSimultaneousIff(L, items);
      if DistinctRuns(items) {
        FixedFormsAreWanted(L, items);
        forall m | m in members && Wants(L, m) ensures Shows(L, items, m) {
          var e :| e in items && e.decl == m.0 && (e.cand.Some? <==> m.1.Attribute?);
        }
      }
    }
  }

  lemma FitsOrdered(lines: seq<string>, items: seq<Edit>)
    requires forall e :: e in items ==> Fits(lines, e)
    ensures AllOrdered(items)
  {
  }

  // ---------------------------------------------------------------- runs that are shared

  /** What two edits of one shared run leave. Two blocks: the second wraps the first one's opening line. A block after a
      trailing comment, or a trailing comment after another: the run is gone by then, and the line below it, code, is
      wrapped or deleted; the trailing comment goes over the line below its own. A trailing comment after a block:
      it goes over a line of the block or of code, and deletes the block's opening line. */
  lemma SharedRunIsSpoiled(lines: seq<string>, a: Edit, b: Edit)
    requires InBounds(lines, a) && InBounds(lines, b) && a.decl < b.decl && a.first == b.first && a.last == b.last
    ensures var once := ApplyOne(lines, b);
            && Reaches(lines, b) && Reaches(once, a)
            && var twice := ApplyOne(once, a);
            && var opener := IndentOf(lines[a.first]) + "/*!";
            && (b.cand.None? && a.cand.None? ==>
                  |twice| == |lines| + 4 && twice[a.first + 1] == BlockLine(IndentOf(opener), opener))
            && (b.cand.Some? && a.cand.None? ==>
                  var code := lines[a.first + 1]; twice[a.first + 1] == BlockLine(IndentOf(code), code))
            && (b.cand.Some? && a.cand.Some? ==> |twice| == |lines| - 2 && twice[a.decl - 1] == a.cand.value)
            && (b.cand.None? && a.cand.Some? ==> |twice| == |lines| + 1 && twice[a.decl - 1] == a.cand.value)
  {
    hide IndentOf, BlockLine;
    var once := ApplyOne(lines, b);
    if a.cand.None? {
      var code := once[a.first];
      BlockBodyAt(once, IndentOf(code), a.first, a.last, 0);
      var twice := ApplyOne(once, a);
      assert twice[a.first + 1] == ToBlock(once, a.first, a.last)[1];
    }
  }

  /** Sharing happens: a one-line function template between a run and the next declaration reads as an intervening
      line, so both declarations find the same run. */
  lemma TemplateLineShares()
    ensures var lines := ["//! Doc.", "template <class T> void f();", "void g();"];
            BlockAbove(lines, 1) == Some((0, 0)) && BlockAbove(lines, 2) == Some((0, 0))
  {
    hide Doc, Intervening;
    TemplateLines();
    var lines := ["//! Doc.", "template <class T> void f();", "void g();"];
    assert Climb(lines, 0, 0) == Some(0) && Climb(lines, 0, 1) == Some(0);
    assert Climb(lines, 1, 0) == Some(0);
  }

  lemma TemplateLines()
    ensures Doc("//! Doc.") && !Doc("template <class T> void f();") && Intervening("template <class T> void f();")
  {
    hide Intervening, Strip, IsSpace, StartsWith;
    DocLine("//! Doc.");
    CodeLine("template <class T> void f();");
    TemplateIntervenes("template <class T> void f();", "<class T> void f();");
  }

  lemma DocLine(s: string)
    requires |s| > 3 && s[..3] == "//!" && s[|s| - 1] == '.'
    ensures Doc(s)
  {
    assert s[0] == s[..3][0];
    Unpadded(s);
  }

  lemma CodeLine(s: string)
    requires s != "" && s[0] == 't' && s[|s| - 1] == ';'
    ensures !Doc(s)
  {
    Unpadded(s);
    if |s| >= 3 { assert s[..3][0] == s[0]; }
  }

  lemma TemplateIntervenes(t: string, rest: string)
    requires t == "template" + " " + rest && rest != "" && rest[0] == '<'
    ensures Intervening(t)
  {
    assert t[..8] == "template" && t[8..] == " " + rest;
    assert rest[..1] == "<";
    LstripSpaces(" ", rest);
    LstripSpaces("", t);
    assert "" + t == t;
  }

  lemma Unpadded(s: string)
    requires s != "" && !IsSpace(s[0]) && !IsSpace(s[|s| - 1])
    ensures Strip(s) == s && Lstrip(s) == s
  {
    assert "" + s == s;
    StripSpaces("", s);
  }

  lemma NoSlash(s: string, p: string)
    requires p != "" && p[0] == '/' && forall k :: 0 <= k < |s| ==> s[k] != '/'
    ensures !Contains(s, p)
  {
    forall k | 0 <= k <= |s| ensures !StartsWith(s[k..], p) { FirstOf(s[k..], p); }
  }

  lemma FirstOf(s: string, p: string)
    requires p != ""
    ensures StartsWith(s, p) ==> s != "" && s[0] == p[0]
  {
    if StartsWith(s, p) { assert s[..|p|][0] == s[0]; }
  }

  /** A line of code without blanks at its ends and without comments. */
  lemma PlainLine(s: string)
    requires s != "" && s[0] in "ti" && s[|s| - 1] == ';' && forall k :: 0 <= k < |s| ==> s[k] != '/'
    ensures Strip(s) == s && Lstrip(s) == s && Rstrip(s) == s && IndentOf(s) == ""
    ensures !CommentLine(s) && !Doc(s) && EndsWith(s, ";")
    ensures !Contains(s, "//!<") && !Contains(s, "//") && !Contains(s, "/*")
  {
    hide Strip, Lstrip, Rstrip, Contains;
    Unpadded(s);
    RstripNone(s);
    CommentStart(s);
    CodeIsNotDoc(s);
    assert s[|s| - 1..] == ";";
    NoSlash(s, "//!<");
    NoSlash(s, "//");
    NoSlash(s, "/*");
  }

  lemma DocLineText()
    ensures BriefText("//! Doc.") == "Doc."
  {
    hide Lstrip, Rstrip, Strip;
    var doc, text := "//! Doc.", "Doc.";
    Unpadded(doc);
    Unpadded(text);
    assert doc[..3] == "//!" && doc[3..] == " " + text;
    LstripSpaces(" ", text);
    FirstOf(text, "\\brief");
  }

  /** The three lines of the example: both declarations find the same run. */
  lemma ExampleForms()
    ensures var lines := ["//! Doc.", "template <class T> void f();", "int g;"];
            && BlockAbove(lines, 1) == Some((0, 0)) && BlockAbove(lines, 2) == Some((0, 0))
            && FormOf(lines, 1) == SlashBang && FormOf(lines, 2) == SlashBang
            && TrailingCandidate(lines, 2, 0, 0) == Some("int g; //!< Doc.")
            && !CommentLine(lines[1]) && !CommentLine(lines[2])
  {
    hide Doc, Intervening, Lstrip, Rstrip, Strip, Contains, CommentLine, BriefText;
    TemplateLines();
    var lines := ["//! Doc.", "template <class T> void f();", "int g;"];
    PlainLine(lines[1]);
    PlainLine(lines[2]);
    DocLineText();
    assert Climb(lines, 0, 0) == Some(0) && Climb(lines, 0, 1) == Some(0);
    assert Climb(lines, 1, 0) == Some(0);
    assert "int g;" + " //!< " + "Doc." == "int g; //!< Doc.";
  }

  lemma ExampleItems(lines: seq<string>, a: Edit, b: Edit)
    requires Listed(lines, (1, Object)) == Some(a) && Listed(lines, (2, Attribute)) == Some(b)
    ensures Items(lines, [(1, Object), (2, Attribute)]) == [a, b]
  {
    hide Listed;
    var members: seq<Member> := [(1, Object), (2, Attribute)];
    assert members[..1] == [(1, Object)] && members[..1][..0] == [];
    assert Items(lines, members[..1][..0]) == [];
    assert Items(lines, members[..1]) == [a];
  }

  lemma TwoSorted(a: Edit, b: Edit)
    requires a.decl < b.decl
    ensures SortedDown([a, b]) == [b, a]
  {
    assert [a, b][1..] == [b] && [b][1..] == [];
    assert SortedDown([b]) == [b];
  }

  /** The block meant for the object, once the run is gone. */
  lemma CodeIsWrapped(lines: seq<string>)
    requires lines != [] && var s := lines[0];
             |s| > 3 && s[0] in "ti" && s[|s| - 1] == ';' && forall k :: 0 <= k < |s| ==> s[k] != '/'
    ensures ToBlock(lines, 0, 0) == ["/*!", " *" + lines[0][3..], " */"]
  {
    hide Lstrip, Rstrip, Strip, IndentOf, CommentLine, Doc, Contains;
    PlainLine(lines[0]);
    var text := " *" + lines[0][3..];
    RstripNone(text);
    assert "" + " *" + lines[0][3..] == text && "" + "/*!" == "/*!" && "" + " */" == " */";
    assert BlockLine("", lines[0]) == text;
    assert BlockBody(lines, "", 1, 0) == [];
  }

  lemma TwoTurns(lines: seq<string>, a: Edit, b: Edit)
    requires InBounds(lines, a) && InBounds(lines, b) && InBounds(ApplyOne(lines, b), a)
    ensures AllOrdered([b, a]) && Loop(lines, [b, a]) == (ApplyOne(ApplyOne(lines, b), a), true)
  {
    hide ApplyOne;
    assert [b, a][1..] == [a];
    LoopOnce(ApplyOne(lines, b), a);
  }

  /** The worst of it: an object's declaration that takes one line, above an attribute. The attribute takes the run for
      its trailing comment, and the block meant for the object wraps the object itself. */
  lemma DeclarationIsSwallowed()
    ensures var lines := ["//! Doc.", "template <class T> void f();", "int g;"];
            var a, b := Edit(1, 0, 0, None), Edit(2, 0, 0, Some("int g; //!< Doc."));
            && Items(lines, [(1, Object), (2, Attribute)]) == [a, b] && Fits(lines, a) && Fits(lines, b)
            && SortedDown([a, b]) == [b, a] && AllOrdered([b, a])
            && Loop(lines, [b, a]) == (["/*!", " *" + lines[1][3..], " */", "int g; //!< Doc."], true)
  {
    hide BlockAbove, TrailingCandidate, FormOf, CommentLine, Contains, ToBlock, StartsWith, SortedDown, Loop, Items;
    var lines := ["//! Doc.", "template <class T> void f();", "int g;"];
    var a, b := Edit(1, 0, 0, None), Edit(2, 0, 0, Some("int g; //!< Doc."));
    ExampleForms();
    PlainLine(lines[1]);
    PlainLine(lines[2]);
    ExampleItems(lines, a, b);
    TwoSorted(a, b);
    var once := [lines[1], "int g; //!< Doc."];
    assert ApplyOne(lines, b) == once;
    CodeIsWrapped(once);
    TwoTurns(lines, a, b);
    assert ApplyOne(once, a) == ["/*!", " *" + lines[1][3..], " */", "int g; //!< Doc."];
  }
}

/** What the tests and the texts of tools/check_doc_style.py mean for arbitrary lines, character by character. */
module DocMeaning {
  import opened Wrappers
  import opened Lines
  import opened DocStyle
  import opened DocRewrite
  import opened DocOutcome
  import opened DocShared

  /** `line` is blanks and then `rest`. */
  predicate Indented(line: string, ws: string, rest: string) { line == ws + rest && AllSpace(ws) }

  predicate Begins(s: string, p: string) { p <= s }

  lemma BeginsIs(s: string, p: string)
    ensures Begins(s, p) <==> StartsWith(s, p)
  {
    if StartsWith(s, p) { assert p == s[..|p|]; }
  }

  /** The text behind the blanks of a line. */
  lemma Behind(line: string, ws: string, rest: string)
    requires Indented(line, ws, rest) && rest != "" && !IsSpace(rest[0])
    ensures Lstrip(line) == rest && IndentOf(line) == ws
  {
    hide Lstrip, IsSpace;
    LstripSpaces(ws, rest);
  }

  lemma Bare(line: string) returns (ws: string)
    ensures Indented(line, ws, Lstrip(line)) && ws == IndentOf(line)
  {
    hide Lstrip;
    LstripFacts(line);
    ws := IndentOf(line);
  }

  // ---------------------------------------------------------------- comment lines

  /** Stripping on the right does not change how a text begins, as long as that is no blank. */
  lemma BeginsStripped(s: string, p: string)
    requires p != "" && !IsSpace(p[|p| - 1])
    ensures StartsWith(Rstrip(s), p) <==> Begins(s, p)
  {
    hide Rstrip, IsSpace;
    RstripFacts(s);
    BeginsIs(s, p);
    var t := Rstrip(s);
    if StartsWith(s, p) {
      assert s[..|p|][|p| - 1] == s[|p| - 1];
      DroppedIsSpace(s, |p| - 1);
    }
    if |t| >= |p| { assert s[..|p|] == t[..|p|]; }
  }

  lemma DroppedIsSpace(s: string, k: nat)
    requires k < |s|
    ensures |Rstrip(s)| <= k ==> IsSpace(s[k])
  {
    hide Rstrip, IsSpace;
    RstripFacts(s);
    if |Rstrip(s)| <= k { assert s[|Rstrip(s)|..][k - |Rstrip(s)|] == s[k]; }
  }

  lemma Slashes()
    ensures !IsSpace('/') && !IsSpace('*') && !IsSpace('!')
  {
  }

  /** A doc line is blanks, the marker and anything. */
  lemma DocIff(line: string)
    ensures Doc(line) <==> exists ws, rest :: Indented(line, ws, "//!" + rest)
  {
    hide Lstrip, Rstrip, IsSpace, IndentOf, StartsWith;
    Slashes();
    BeginsStripped(Lstrip(line), "//!");
    var ws := Bare(line);
    if Doc(line) {
      assert Lstrip(line) == "//!" + Lstrip(line)[3..];
      assert Indented(line, ws, "//!" + Lstrip(line)[3..]);
    }
    if ws', rest :| Indented(line, ws', "//!" + rest) { Behind(line, ws', "//!" + rest); }
  }

  predicate CommentBegins(s: string) { Begins(s, "//") || Begins(s, "/*") || Begins(s, "*") }

  /** A comment line is blanks and then one of the three beginnings of a comment. */
  lemma CommentLineIff(line: string)
    ensures CommentLine(line) <==> exists ws, rest :: Indented(line, ws, rest) && CommentBegins(rest)
  {
    hide Lstrip, Rstrip, IsSpace, IndentOf, StartsWith;
    Slashes();
    BeginsStripped(Lstrip(line), "//");
    BeginsStripped(Lstrip(line), "/*");
    BeginsStripped(Lstrip(line), "*");
    var ws := Bare(line);
    if ws', rest :| Indented(line, ws', rest) && CommentBegins(rest) {
      assert rest != "" && rest[0] in "/*";
      Behind(line, ws', rest);
    }
  }

  // ---------------------------------------------------------------- lines that may stand between

  /** The words of a conditional, each of them whole: what follows is no word character. */
  predicate Directive(s: string) {
    WholeWord(s, "if") || WholeWord(s, "ifdef") || WholeWord(s, "ifndef") || WholeWord(s, "else") || WholeWord(s, "elif") ||
    WholeWord(s, "endif")
  }

  predicate WholeWord(s: string, w: string) {
    w <= s && (|s| == |w| || var c := s[|w|]; !('a' <= c <= 'z' || 'A' <= c <= 'Z' || '0' <= c <= '9' || c == '_'))
  }

  lemma WholeWordIs(s: string, w: string)
    ensures WholeWord(s, w) <==> Word(s, w)
  {
    BeginsIs(s, w);
  }

  lemma DirectiveIs(s: string)
    ensures Directive(s) <==> Word(s, "if") || Word(s, "ifdef") || Word(s, "ifndef") || Word(s, "else") || Word(s, "elif") ||
                              Word(s, "endif")
  {
    hide Word, WholeWord;
    WholeWordIs(s, "if");
    WholeWordIs(s, "ifdef");
    WholeWordIs(s, "ifndef");
    WholeWordIs(s, "else");
    WholeWordIs(s, "elif");
    WholeWordIs(s, "endif");
  }

  /** Behind its blanks a line that may stand between opens an attribute, or a template's parameters after any blanks,
      or is a conditional of the preprocessor after any blanks. */
  ghost predicate MayStandBetween(rest: string) {
    || Begins(rest, "[[") || Begins(rest, "__attribute__")
    || (Begins(rest, "template") && exists ws, tail :: Indented(rest[8..], ws, tail) && Begins(tail, "<"))
    || (Begins(rest, "#") && exists ws, tail :: Indented(rest[1..], ws, tail) && Directive(tail))
  }

  lemma FirstLetters(s: string)
    ensures Begins(s, "<") ==> s != "" && !IsSpace(s[0])
    ensures Directive(s) ==> s != "" && !IsSpace(s[0])
    ensures Begins(s, "[[") || Begins(s, "__attribute__") || Begins(s, "template") || Begins(s, "#") ==> s != "" && !IsSpace(s[0])
  {
    hide IsSpace;
    NoBlanks();
    if Directive(s) { assert s[0] == 'i' || s[0] == 'e'; }
  }

  lemma NoBlanks()
    ensures !IsSpace('<') && !IsSpace('i') && !IsSpace('e') && !IsSpace('[') && !IsSpace('_') && !IsSpace('t') && !IsSpace('#')
  {
  }

  /** The test for a text whose blanks are gone. */
  lemma BehindIff(t: string)
    ensures MayStandBetween(t) <==>
            || StartsWith(t, "[[") || StartsWith(t, "__attribute__")
            || (StartsWith(t, "template") && StartsWith(Lstrip(t[8..]), "<"))
            || (StartsWith(t, "#") && Directive(Lstrip(t[1..])))
  {
    hide StartsWith, Begins, Directive, Lstrip, IsSpace, IndentOf;
    BeginsIs(t, "[[");
    BeginsIs(t, "__attribute__");
    BeginsIs(t, "template");
    BeginsIs(t, "#");
    if Begins(t, "template") { AfterBlanks(t, 8); }
    if Begins(t, "#") { AfterBlanks(t, 1); }
  }

  lemma AfterBlanks(t: string, n: nat)
    requires (Begins(t, "template") && n == 8) || (Begins(t, "#") && n == 1)
    ensures n <= |t|
    ensures (exists ws, tail :: Indented(t[n..], ws, tail) && Begins(tail, "<")) <==> StartsWith(Lstrip(t[n..]), "<")
    ensures (exists ws, tail :: Indented(t[n..], ws, tail) && Directive(tail)) <==> Directive(Lstrip(t[n..]))
  {
    assert n <= |t|;
    var u := t[n..];
    BlanksThen(u);
  }

  lemma BlanksThen(u: string)
    ensures (exists ws, tail :: Indented(u, ws, tail) && Begins(tail, "<")) <==> StartsWith(Lstrip(u), "<")
    ensures (exists ws, tail :: Indented(u, ws, tail) && Directive(tail)) <==> Directive(Lstrip(u))
  {
    hide StartsWith, Begins, Directive, Lstrip, IsSpace, IndentOf;
    var ws := Bare(u);
    BeginsIs(Lstrip(u), "<");
    if ws', tail :| Indented(u, ws', tail) && Begins(tail, "<") {
      FirstLetters(tail);
      Behind(u, ws', tail);
    }
    if ws', tail :| Indented(u, ws', tail) && Directive(tail) {
      FirstLetters(tail);
      Behind(u, ws', tail);
    }
  }

  /** The lines that may stand between a run and its declaration. */
  lemma InterveningIff(line: string)
    ensures Intervening(line) <==> exists ws, rest :: Indented(line, ws, rest) && MayStandBetween(rest)
  {
    hide StartsWith, MayStandBetween, Directive, Lstrip, IsSpace, IndentOf, Word;
    var t := Lstrip(line);
    BehindIff(t);
    if StartsWith(t, "#") { HashLength(t); DirectiveIs(Lstrip(t[1..])); }
    var ws := Bare(line);
    if ws', rest :| Indented(line, ws', rest) && MayStandBetween(rest) {
      StandsFirst(rest);
      Behind(line, ws', rest);
    }
  }

  lemma HashLength(t: string)
    requires StartsWith(t, "#")
    ensures t != ""
  {
  }

  lemma StandsFirst(rest: string)
    requires MayStandBetween(rest)
    ensures rest != "" && !IsSpace(rest[0])
  {
    hide IsSpace, Directive;
    FirstLetters(rest);
  }

  // ---------------------------------------------------------------- runs and forms

  /** Lines from `k + 1` on, up to the declaration, may all stand between; they are at most eight. */
  predicate ReachesUp(lines: seq<string>, decl: nat, k: int) {
    -1 <= k < decl < |lines| && decl - 1 - k <= 8 && forall m :: k < m < decl ==> Intervening(lines[m])
  }

  /** The run from `first` to `last` is whole, and belongs to the declaration: at most seven lines lie between. */
  predicate RunOf(lines: seq<string>, decl: nat, first: nat, last: nat) {
    && first <= last < decl && ReachesUp(lines, decl, last) && decl - last <= 8
    && (forall k :: first <= k <= last ==> Doc(lines[k])) && (first == 0 || !Doc(lines[first - 1]))
  }

  lemma InterveningIsNoDoc(line: string)
    ensures !(Intervening(line) && Doc(line))
  {
    hide Intervening, Doc, SortOf;
    if Intervening(line) && Doc(line) {
      InterveningIsCode(line);
      DocSort(line);
    }
  }

  /** The run above a declaration, exactly. */
  lemma BlockAboveIff(lines: seq<string>, decl: nat, first: nat, last: nat)
    requires decl < |lines|
    ensures BlockAbove(lines, decl) == Some((first, last)) <==> RunOf(lines, decl, first, last)
  {
    hide Doc, Intervening;
    forall line ensures !(Intervening(line) && Doc(line)) { InterveningIsNoDoc(line); }
    if BlockAbove(lines, decl) == Some((first, last)) { BlockAboveFacts(lines, decl); }
    if RunOf(lines, decl, first, last) {
      ClimbFinds(lines, decl - 1, 0, last);
      RunStartIs(lines, first, last);
    }
  }

  lemma {:induction false} RunStartIs(lines: seq<string>, first: nat, j: nat)
    requires first <= j < |lines| && (forall k :: first <= k <= j ==> Doc(lines[k])) && (first == 0 || !Doc(lines[first - 1]))
    ensures RunStart(lines, j) == first
    decreases j
  {
    hide Doc;
    if j > first { RunStartIs(lines, first, j - 1); }
  }

  /** The line the search for a block's end stops at: the first that may not stand between, or the ninth. */
  predicate StopsAt(lines: seq<string>, decl: nat, k: int) {
    ReachesUp(lines, decl, k) && (k == -1 || decl - 1 - k == 8 || !Intervening(lines[k]))
  }

  lemma {:induction false} SkipStops(lines: seq<string>, j: int, hops: nat, k: int)
    requires -1 <= k <= j < |lines| && j - k + hops <= 8 && (forall m :: k < m <= j ==> Intervening(lines[m]))
    requires k == -1 || j - k + hops == 8 || !Intervening(lines[k])
    ensures Skip(lines, j, hops) == k
    decreases j + 1
  {
    hide Intervening;
    if k < j { SkipStops(lines, j - 1, hops + 1, k); }
  }

  /** The four forms: a trailing comment anywhere on the line; else a run above; else a block whose end is the line that
      the search stops at; else none. */
  lemma FormIs(lines: seq<string>, decl: nat, k: int)
    requires decl < |lines| && StopsAt(lines, decl, k)
    ensures FormOf(lines, decl) == Trailing <==> exists a, b :: Around(lines[decl], a, "//!<", b)
    ensures FormOf(lines, decl) == SlashBang <==>
            FormOf(lines, decl) != Trailing && exists first: nat, last: nat :: RunOf(lines, decl, first, last)
    ensures FormOf(lines, decl) == Block <==>
            FormOf(lines, decl) !in {Trailing, SlashBang} && k >= 0 && ClosesBlock(lines[k])
  {
    hide Doc, Intervening, BlockAbove, Strip, RunOf, EndsWith, Skip, ClosesBlock;
    ContainsIff(lines[decl], "//!<");
    SkipStops(lines, decl - 1, 0, k);
    if k >= 0 { ClosesIs(lines[k]); }
    forall first: nat, last: nat ensures BlockAbove(lines, decl) == Some((first, last)) <==> RunOf(lines, decl, first, last) {
      BlockAboveIff(lines, decl, first, last);
    }
    if BlockAbove(lines, decl).Some? {
      var (first, last) := BlockAbove(lines, decl).value;
      assert RunOf(lines, decl, first, last);
    }
  }

  predicate Around(s: string, a: string, p: string, b: string) { s == a + p + b }

  lemma ContainsIff(s: string, p: string)
    ensures Contains(s, p) <==> exists a, b :: Around(s, a, p, b)
  {
    if i :| 0 <= i <= |s| && StartsWith(s[i..], p) {
      var rest := s[i..];
      assert rest == p + rest[|p|..];
      assert Around(s, s[..i], p, rest[|p|..]);
    }
    if a, b :| Around(s, a, p, b) {
      assert s[|a|..] == p + b;
      assert StartsWith(s[|a|..], p);
    }
  }

  /** A line that ends, but for blanks, in a star and a slash. */
  ghost predicate ClosesBlock(line: string) { exists body, ws :: line == body + "*/" + ws && AllSpace(ws) }

  /** Both blanks gone, a text ends as it does with those in front kept. */
  lemma ClosesIs(line: string)
    ensures ClosesBlock(line) <==> EndsWith(Strip(line), "*/")
  {
    hide Lstrip, Rstrip, IsSpace, IndentOf;
    var ws := Bare(line);
    var u := Lstrip(line);
    RstripFacts(u);
    var t := Rstrip(u);
    if EndsWith(t, "*/") {
      assert line == (ws + t[..|t| - 2]) + "*/" + u[|t|..];
    }
    if body, tail :| line == body + "*/" + tail && AllSpace(tail) {
      Slashes();
      RstripMore(body + "*/", tail);
      StripEnds(line, body);
    }
  }

  lemma StripEnds(line: string, body: string)
    requires Rstrip(line) == Rstrip(body + "*/")
    ensures EndsWith(Strip(line), "*/")
  {
    hide Lstrip, Rstrip, IsSpace, AllSpace, IndentOf;
    Slashes();
    var core := body + "*/";
    RstripAppend(body, "*/");
    NotBlankEnd("*/");
    var ws := Bare(core);
    StrippedCore(core, ws);
    RstripThenLstrip(line);
    RstripThenLstrip(core);
  }

  lemma NotBlankEnd(u: string)
    requires u != "" && !IsSpace(u[|u| - 1])
    ensures Rstrip(u) == u
  {
  }

  lemma BlankAt(line: string, ws: string, rest: string, k: nat)
    requires Indented(line, ws, rest) && k < |line|
    ensures k < |ws| ==> IsSpace(line[k])
  {
    hide IsSpace;
    if k < |ws| { assert line[k] == ws[k]; }
  }

  lemma StrippedCore(core: string, ws: string)
    requires |core| >= 2 && core[|core| - 2..] == "*/" && Indented(core, ws, Lstrip(core))
    ensures EndsWith(Lstrip(core), "*/") && Rstrip(Lstrip(core)) == Lstrip(core)
  {
    hide Lstrip, Rstrip, IsSpace;
    Slashes();
    assert core[|core| - 2] == '*' && core[|core| - 1] == '/';
    var u := Lstrip(core);
    BlankAt(core, ws, u, |core| - 2);
    assert u[|u| - 2..] == core[|core| - 2..];
    assert u[|u| - 1] == core[|core| - 1];
    NotBlankEnd(u);
  }

  /** Stripping is the same from either side first. */
  lemma RstripThenLstrip(s: string)
    ensures Strip(s) == Lstrip(Rstrip(s))
  {
    hide Lstrip, Rstrip, IsSpace, IndentOf;
    var t := Rstrip(s);
    RstripFacts(s);
    LstripMore(t, s[|t|..]);
    assert s == t + s[|t|..];
    if Lstrip(t) == "" {
      BlankStrips(s[|t|..]);
      NothingToStrip();
    } else {
      var ws := Bare(t);
      var u := Lstrip(t);
      assert u[|u| - 1] == t[|t| - 1];
      RstripMore(u, s[|t|..]);
      NotBlankEnd(u);
    }
  }

  // ---------------------------------------------------------------- the two rewritten forms

  /** `line` is blanks, `text`, blanks; the text begins and ends without one. */
  predicate Trimmed(line: string, ws: string, text: string, tail: string) {
    && line == ws + text + tail && AllSpace(ws) && AllSpace(tail)
    && (text != "" ==> !IsSpace(text[0]) && !IsSpace(text[|text| - 1]))
  }

  lemma TrimmedStrip(line: string, ws: string, text: string, tail: string)
    requires Trimmed(line, ws, text, tail)
    ensures Strip(line) == text && (text != "" ==> Lstrip(line) == text + tail)
  {
    hide Lstrip, Rstrip, IsSpace, AllSpace;
    if text == "" {
      assert line == ws + tail;
      AllBlank(ws, tail);
      BlankStrips(line);
      NothingToStrip();
    } else {
      assert line == ws + (text + tail);
      LstripSpaces(ws, text + tail);
      RstripMore(text, tail);
      NotBlankEnd(text);
    }
  }

  lemma AllBlank(a: string, b: string)
    requires AllSpace(a) && AllSpace(b)
    ensures AllSpace(a + b)
  {
    hide IsSpace;
  }

  /** The block of a run, for doc lines of any shape: opener and closer at the indent of the first line, and at that
      indent, for each doc line, a star and what followed the marker, without blanks at the end. */
  lemma BlockIs(lines: seq<string>, first: nat, last: nat, ws: string, head: string,
      k: nat, before: string, text: string, tail: string)
    requires first <= k <= last < |lines| && Indented(lines[first], ws, "//!" + head)
    requires Trimmed(lines[k], before, "//!" + text, tail)
    ensures var out := ToBlock(lines, first, last);
            |out| == last - first + 3 && out[0] == ws + "/*!" && out[|out| - 1] == ws + " */" &&
            out[k - first + 1] == ws + " *" + text
  {
    hide Lstrip, Rstrip, IsSpace, AllSpace, IndentOf, BlockLine;
    Slashes();
    Behind(lines[first], ws, "//!" + head);
    BlockBodyAt(lines, ws, first, last, k - first);
    TrimmedStrip(lines[k], before, "//!" + text, tail);
    LineIs(ws, lines[k], text);
  }

  lemma LineIs(ws: string, line: string, text: string)
    requires Strip(line) == "//!" + text && (text != "" ==> !IsSpace(text[|text| - 1]))
    ensures BlockLine(ws, line) == ws + " *" + text
  {
    hide Strip, Rstrip, IsSpace;
    Slashes();
    assert ("//!" + text)[3..] == text;
    var all := ws + " *" + text;
    assert all[|all| - 1] == if text == "" then '*' else text[|text| - 1];
    NotBlankEnd(all);
  }

  /** The text a trailing comment takes from a doc line: all that follows the marker and its blanks, less a brief command
      that blanks follow, and those; without blanks at the end. */
  lemma BriefTextIs(line: string, ws: string, gap: string, rest: string)
    requires Indented(line, ws, "//!" + gap + rest) && AllSpace(gap) && (rest != "" ==> !IsSpace(rest[0]))
    ensures forall more, text :: Brief(rest, more, text) ==> BriefText(line) == Rstrip(text)
    ensures (forall more, text :: !Brief(rest, more, text)) ==> BriefText(line) == Rstrip(rest)
  {
    hide Lstrip, Rstrip, IsSpace, AllSpace, StartsWith;
    Slashes();
    var t := "//!" + gap + rest;
    Behind(line, ws, t);
    assert StartsWith(t, "//!") by { BeginsIs(t, "//!"); }
    assert t[3..] == gap + rest;
    LstripSpaces(gap, rest);
    forall more, text | Brief(rest, more, text) ensures BriefText(line) == Rstrip(text) { BriefTaken(rest, more, text); }
    if forall more, text :: !Brief(rest, more, text) { BriefAbsent(rest); }
  }

  /** A brief command, blanks, and a text that begins without one. */
  predicate Brief(u: string, more: string, text: string) {
    u == "\\brief" + more + text && more != "" && AllSpace(more) && (text != "" ==> !IsSpace(text[0]))
  }

  lemma BriefTaken(u: string, more: string, text: string)
    requires Brief(u, more, text)
    ensures AfterBrief(u) == Rstrip(text)
  {
    hide Lstrip, Rstrip, IsSpace;
    assert u[..6] == "\\brief" && u[6..] == more + text && u[6] == more[0];
    LstripSpaces(more, text);
    NoMoreBlanks(text);
  }

  lemma NoMoreBlanks(text: string)
    requires text != "" ==> !IsSpace(text[0])
    ensures Lstrip(text) == text
  {
  }

  lemma BriefAbsent(u: string)
    requires (u != "" ==> !IsSpace(u[0])) && forall more, text :: !Brief(u, more, text)
    ensures AfterBrief(u) == Rstrip(u)
  {
    hide Lstrip, Rstrip, IsSpace, AllSpace, IndentOf;
    NoMoreBlanks(u);
    if StartsWith(u, "\\brief") && |u| > 6 && IsSpace(u[6]) { BriefPresent(u); }
  }

  lemma BriefPresent(u: string)
    requires StartsWith(u, "\\brief") && |u| > 6 && IsSpace(u[6])
    ensures exists more, text :: Brief(u, more, text)
  {
    hide Lstrip, IsSpace, IndentOf;
    var more := Bare(u[6..]);
    LstripFacts(u[6..]);
    assert u == "\\brief" + u[6..] && u[6..][0] == u[6];
    assert more != "" by { assert "" + Lstrip(u[6..]) == Lstrip(u[6..]); }
    assert Brief(u, more, Lstrip(u[6..]));
  }

  /** Which declarations get a trailing comment: the run is one line, the declaration's line holds no comment of either
      kind and ends, but for blanks, in a semicolon, and the doc line has some text. The new line is the old one without
      blanks at its end, and the text behind a marker. */
  lemma CandidateIff(lines: seq<string>, decl: nat, first: nat, last: nat)
    requires first <= last < |lines| && decl < |lines|
    ensures TrailingCandidate(lines, decl, first, last).Some? <==>
            && first == last && NoComment(lines[decl]) && (exists body, ws :: Ending(lines[decl], body, ws))
            && BriefText(lines[last]) != ""
    ensures forall body, ws :: TrailingCandidate(lines, decl, first, last).Some? && Ending(lines[decl], body, ws) ==>
              TrailingCandidate(lines, decl, first, last) == Some(body + "; //!< " + BriefText(lines[last]))
  {
    hide Rstrip, BriefText, Contains, EndsWith, NoComment;
    var line := lines[decl];
    NoCommentIs(line);
    SemicolonEnds(line);
    forall body, ws | Ending(line, body, ws) ensures Rstrip(line) == body + ";" { EndingStrips(line, body, ws); }
    assert forall body: string :: (body + ";") + " //!< " == body + "; //!< ";
  }

  /** The line ends in a semicolon and blanks. */
  predicate Ending(line: string, body: string, ws: string) { line == body + ";" + ws && AllSpace(ws) }

  lemma EndingStrips(line: string, body: string, ws: string)
    requires Ending(line, body, ws)
    ensures Rstrip(line) == body + ";"
  {
    hide Rstrip, IsSpace;
    NotSpace(';');
    RstripMore(body + ";", ws);
    NotBlankEnd(body + ";");
  }

  lemma SemicolonEnds(line: string)
    ensures EndsWith(Rstrip(line), ";") <==> exists body, ws :: Ending(line, body, ws)
  {
    hide Rstrip, IsSpace;
    RstripFacts(line);
    var t := Rstrip(line);
    if EndsWith(t, ";") {
      assert t == t[..|t| - 1] + ";" && line == t + line[|t|..];
      assert Ending(line, t[..|t| - 1], line[|t|..]);
    }
    if body, ws :| Ending(line, body, ws) {
      EndingStrips(line, body, ws);
      assert (body + ";")[|body|..] == ";";
    }
  }

  /** No slash is followed by a slash or a star. */
  predicate NoComment(line: string) {
    forall k :: 0 <= k < |line| - 1 && line[k] == '/' ==> line[k + 1] != '/' && line[k + 1] != '*'
  }

  lemma NoCommentIs(line: string)
    ensures NoComment(line) <==> !Contains(line, "//") && !Contains(line, "/*")
  {
    PairOccurs(line, '/', '/');
    PairOccurs(line, '/', '*');
    assert "//" == ['/', '/'] && "/*" == ['/', '*'];
  }

  lemma PairOccurs(line: string, a: char, b: char)
    ensures Contains(line, [a, b]) <==> exists k :: 0 <= k < |line| - 1 && line[k] == a && line[k + 1] == b
  {
    if k :| 0 <= k <= |line| && StartsWith(line[k..], [a, b]) {
      assert line[k..][..2][0] == line[k] && line[k..][..2][1] == line[k + 1];
    }
    if k :| 0 <= k < |line| - 1 && line[k] == a && line[k + 1] == b {
      assert line[k..][..2] == [a, b];
      assert StartsWith(line[k..], [a, b]);
    }
  }
}

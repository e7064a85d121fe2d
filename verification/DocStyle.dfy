/** The rewriter of tools/check_doc_style.py: finds the `//!` run above a declaration, classifies the comment form,
    and moves the documentation into a block or a trailing comment, bottom-up and in place. */
module DocStyle {
  import opened Wrappers
  import opened Lines

  datatype Form = Trailing | SlashBang | Block | Other

  predicate WordChar(c: char) { 'a' <= c <= 'z' || 'A' <= c <= 'Z' || '0' <= c <= '9' || c == '_' }

  predicate Word(s: string, w: string) { StartsWith(s, w) && (|s| == |w| || !WordChar(s[|w|])) }

  /** A line the search for documentation steps over: it opens a template or an attribute, or is a conditional of
      the preprocessor. */
  predicate Intervening(line: string) {
    var t := Lstrip(line);
    || (StartsWith(t, "template") && StartsWith(Lstrip(t[8..]), "<"))
    || StartsWith(t, "[[")
    || StartsWith(t, "__attribute__")
    || (StartsWith(t, "#") && var d := Lstrip(t[1..]);
        Word(d, "if") || Word(d, "ifdef") || Word(d, "ifndef") || Word(d, "else") || Word(d, "elif") || Word(d, "endif"))
  }

  predicate Doc(line: string) { StartsWith(Strip(line), "//!") }

  // ---------------------------------------------------------------- the run above a declaration

  /** The first doc line met going up from `j` over at most eight intervening lines. */
  function Climb(lines: seq<string>, j: int, hops: nat): (r: Option<nat>)
    requires j < |lines|
    ensures r.Some? ==> r.value <= j
    decreases j + 1
  {
    if j < 0 || hops >= 8 then None
    else if Doc(lines[j]) then Some(j)
    else if Intervening(lines[j]) then Climb(lines, j - 1, hops + 1)
    else None
  }

  lemma {:induction false} ClimbFacts(lines: seq<string>, j: int, hops: nat)
    requires j < |lines| && Climb(lines, j, hops).Some?
    ensures var k := Climb(lines, j, hops).value;
            Doc(lines[k]) && j - k + hops < 8 && forall m :: k < m <= j ==> Intervening(lines[m]) && !Doc(lines[m])
    decreases j + 1
  {
    hide Doc, Intervening;
    if !Doc(lines[j]) { ClimbFacts(lines, j - 1, hops + 1); }
  }

  /** Where the run of doc lines that ends at `j` starts. */
  function RunStart(lines: seq<string>, j: nat): (first: nat)
    requires j < |lines|
    ensures first <= j
  {
    if j > 0 && Doc(lines[j - 1]) then RunStart(lines, j - 1) else j
  }

  lemma {:induction false} RunStartFacts(lines: seq<string>, j: nat)
    requires j < |lines| && Doc(lines[j])
    ensures var first := RunStart(lines, j);
            (forall k :: first <= k <= j ==> Doc(lines[k])) && (first == 0 || !Doc(lines[first - 1]))
    decreases j
  {
    hide Doc;
    if j > 0 && Doc(lines[j - 1]) { RunStartFacts(lines, j - 1); }
  }

  function BlockAbove(lines: seq<string>, decl: nat): (r: Option<(nat, nat)>)
    requires decl < |lines|
    ensures r.Some? ==> r.value.0 <= r.value.1 < decl
  {
    match Climb(lines, decl - 1, 0)
    case None => None
    case Some(last) => Some((RunStart(lines, last), last))
  }

  /** A run found above a declaration is a whole run of doc lines, at most eight lines up, with nothing but
      intervening lines between. */
  lemma BlockAboveFacts(lines: seq<string>, decl: nat)
    requires decl < |lines| && BlockAbove(lines, decl).Some?
    ensures var (first, last) := BlockAbove(lines, decl).value;
            && (forall k :: first <= k <= last ==> Doc(lines[k])) && (first == 0 || !Doc(lines[first - 1]))
            && decl - last <= 8 && forall k :: last < k < decl ==> Intervening(lines[k]) && !Doc(lines[k])
  {
    hide Doc, Intervening;
    ClimbFacts(lines, decl - 1, 0);
    RunStartFacts(lines, BlockAbove(lines, decl).value.1);
  }

  method DocBlockAbove(lines: seq<string>, decl: nat) returns (r: Option<(nat, nat)>)
    requires decl < |lines|
    ensures r == BlockAbove(lines, decl)
  {
    hide Doc, Intervening;
    var j: int := decl - 1;
    var hops := 0;
    while j >= 0 && hops < 8 && !Doc(lines[j])
      invariant -1 <= j < decl && 0 <= hops
      invariant Climb(lines, j, hops) == Climb(lines, decl - 1, 0)
      decreases j
    {
      if !Intervening(lines[j]) {
        return None;
      }
      j := j - 1;
      hops := hops + 1;
    }
    if j < 0 || hops >= 8 {
      return None; // out of lines or out of hops
    }
    var last: nat := j;
    var first: nat := j;
    while first > 0 && Doc(lines[first - 1])
      invariant first <= last && RunStart(lines, first) == RunStart(lines, last)
    {
      first := first - 1;
    }
    return Some((first, last));
  }

  /** Going up from `j` over at most eight intervening lines. */
  function Skip(lines: seq<string>, j: int, hops: nat): (k: int)
    requires j < |lines|
    ensures k <= j
    decreases j + 1
  {
    if j < 0 || hops >= 8 || !Intervening(lines[j]) then j else Skip(lines, j - 1, hops + 1)
  }

  /** How a declaration is documented now. */
  function FormOf(lines: seq<string>, decl: nat): Form
    requires decl < |lines|
  {
    if Contains(lines[decl], "//!<") then Trailing
    else if BlockAbove(lines, decl).Some? then SlashBang
    else
      var j := Skip(lines, decl - 1, 0);
      if j >= 0 && EndsWith(Strip(lines[j]), "*/") then Block else Other
  }

  method Classify(lines: seq<string>, decl: nat) returns (form: Form)
    requires decl < |lines|
    ensures form == FormOf(lines, decl)
  {
    hide Doc, Intervening, Contains, Strip, EndsWith;
    if Contains(lines[decl], "//!<") {
      return Trailing;
    }
    var above := DocBlockAbove(lines, decl);
    if above.Some? {
      return SlashBang;
    }
    var j: int := decl - 1;
    var hops := 0;
    while j >= 0 && hops < 8 && Intervening(lines[j])
      invariant -1 <= j < decl && 0 <= hops
      invariant Skip(lines, j, hops) == Skip(lines, decl - 1, 0)
      decreases j
    {
      j := j - 1;
      hops := hops + 1;
    }
    form := if j >= 0 && EndsWith(Strip(lines[j]), "*/") then Block else Other;
  }

  // ---------------------------------------------------------------- the two rewritten forms

  function IndentOf(line: string): (s: string)
    ensures AllSpace(s)
  {
    LstripFacts(line);
    line[..|line| - |Lstrip(line)|]
  }

  /** Text without a leading brief command, stripped. */
  function AfterBrief(u: string): string {
    Strip(if StartsWith(u, "\\brief") && |u| > 6 && IsSpace(u[6]) then Lstrip(u[6..]) else u)
  }

  /** The text of a doc line without its marker and without a leading brief command. */
  function BriefText(line: string): string {
    var t := Lstrip(line);
    if StartsWith(t, "//!") then AfterBrief(Lstrip(t[3..])) else Strip(line)
  }

  /** The declaration's line with the text of a run of one line behind it; `None` where that does not fit. */
  function TrailingCandidate(lines: seq<string>, decl: nat, first: nat, last: nat): Option<string>
    requires first <= last < |lines| && decl < |lines|
  {
    var line := lines[decl];
    if first != last || Contains(line, "//") || Contains(line, "/*") || !EndsWith(Rstrip(line), ";") then None
    else
      var text := BriefText(lines[last]);
      if text == "" then None else Some(Rstrip(line) + " //!< " + text)
  }

  function BlockLine(indent: string, line: string): string {
    var s := Strip(line);
    Rstrip(indent + " *" + if |s| >= 3 then s[3..] else "")
  }

  function BlockBody(lines: seq<string>, indent: string, k: nat, last: nat): (out: seq<string>)
    requires k <= last + 1 <= |lines|
    ensures |out| == last + 1 - k
    decreases last + 1 - k
  {
    hide BlockLine;
    if k == last + 1 then [] else [BlockLine(indent, lines[k])] + BlockBody(lines, indent, k + 1, last)
  }

  lemma {:induction false} BlockBodyAt(lines: seq<string>, indent: string, k: nat, last: nat, m: nat)
    requires k <= k + m <= last < |lines|
    ensures BlockBody(lines, indent, k, last)[m] == BlockLine(indent, lines[k + m])
    decreases m
  {
    hide BlockLine;
    if m > 0 { BlockBodyAt(lines, indent, k + 1, last, m - 1); }
  }

  /** The block that replaces a run: its lines between an opener and a closer, all indented like the first. */
  function ToBlock(lines: seq<string>, first: nat, last: nat): (out: seq<string>)
    requires first <= last < |lines|
    ensures |out| == last - first + 3
  {
    hide BlockLine, IndentOf;
    var indent := IndentOf(lines[first]);
    [indent + "/*!"] + BlockBody(lines, indent, first, last) + [indent + " */"]
  }

  method MakeBlock(lines: seq<string>, first: nat, last: nat) returns (out: seq<string>)
    requires first <= last < |lines|
    ensures out == ToBlock(lines, first, last)
  {
    hide BlockLine, IndentOf;
    var indent := IndentOf(lines[first]);
    out := [indent + "/*!"];
    for k := first to last + 1
      invariant out + BlockBody(lines, indent, k, last) == [indent + "/*!"] + BlockBody(lines, indent, first, last)
    {
      out := out + [BlockLine(indent, lines[k])];
    }
    out := out + [indent + " */"];
  }

  /** No documentation is lost: the text after each block line's star is the text after the doc line's marker. */
  lemma BlockKeepsText(lines: seq<string>, first: nat, last: nat, k: nat)
    requires first <= k <= last < |lines| && Doc(lines[k])
    ensures var out := ToBlock(lines, first, last)[k - first + 1];
            StartsWith(Strip(out), "*") && Strip(out)[1..] == Strip(lines[k])[3..]
  {
    hide BlockLine, Strip, IndentOf;
    BlockBodyAt(lines, IndentOf(lines[first]), first, last, k - first);
    BlockLineText(IndentOf(lines[first]), lines[k]);
  }

  lemma BlockLineText(indent: string, line: string)
    requires AllSpace(indent) && Doc(line)
    ensures Strip(BlockLine(indent, line)) == "*" + Strip(line)[3..]
  {
    hide Strip, Rstrip;
    var s := Strip(line);
    StripFacts(line);
    var text := "*" + s[3..];
    assert text[0] == '*' && !IsSpace('*');
    assert !IsSpace(text[|text| - 1]) by { if |s| > 3 { assert text[|text| - 1] == s[|s| - 1]; } }
    StripSpaces(indent + " ", text);
    assert indent + " *" + s[3..] == indent + " " + text;
  }
}

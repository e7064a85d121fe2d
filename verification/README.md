# Verified models of the REAL regex repository's tooling

The repository keeps the REAL regular-expression engine honest with fuzzers, differential testers, benchmarks and
documentation tools. Much of that code decides something subtle in very few lines: a single pass over pattern text
stands in for a parser, one integer stands in for a stack, byte offsets stand in for character offsets, an in-place
edit stands in for a simultaneous one. This project models those pieces in Dafny and proves what each of them is for.

- **Patterns** (`Regex`, `TermFacts`): one syntax of terms, one printer, and one meaning: which stretch of a subject a
  term matches, lookarounds included. Classes and escapes are interpreted by an arbitrary function, so the results
  hold for every alphabet and flag. A *lenient* reading lets every assertion hold, which is what the sources mean by
  "can match empty".
- **Scanners** (`NullableScan`, `NestedScan`, `ExplodeScan`, `EmptyRuns`, `CountScan`): the four one-pass scanners of
  `fuzz/fuzz_compat.cpp`, as loops over every text, and what each answers on the text of a term.
- **Generator** (`Generator`, `GroupReport`, `Arbiter`): the recursive pattern generator of
  `fuzz/pcre2_differential.cpp` as a class over an arbitrary stream of numbers. Each method returns, as a ghost, the term
  whose text it built; the facts it records beside the text are facts of that term. The group list it prints is followed
  into the arbiter that reads it and sets those groups aside.
- **Encoding** (`Utf8`): the encoder of `fuzz/fuzz_re2.cpp` on bit vectors, the position test of the differential and the
  offset conversions of `fuzz/pcre2_arbiter.py`, against sections 3 and 4 of RFC 3629.
- **Arithmetic** (`LinearFit`, `Ratios`, `NoiseFloor`): the least-squares fit, the rounded-ratio test and the quantile
  floor of the benchmark scripts, over exact reals.
- **In-place algorithms and handlers** (`Ranges`, `Nav`, `Fowler`, `MatchWalk`): range coalescing and search, the
  navigation extractor, the escape decoder and the match-walking loops.
- **The documentation rewriter** (`Lines`, `DocStyle`, `DocMeaning`, `DocRewrite`, `DocOutcome`, `SharedRuns`, `DocShared`,
  `DocFix`): the search for a run of doc lines, the two rewritten forms, the pass that collects the items, and the `--fix`
  loop, against the simultaneous replacement of all runs.

Every scanner, loop and handler is an imperative method or a class that follows the source statement by statement; its
contract equates it with a function on values, and the lemmas are about that function.

## Where the code and its own words differ

- `nested_unbounded_quantifier` promises to look for an unbounded quantifier and for a quantified `)` or `]`; the code
  looks for `*` and `+` only, and for `)` only. A class holds no quantifier, so the `]` makes no difference
  (`PromiseIsNesting`); the missing `{n,}` does. `(a{2,})+` passes (`ScanMissesOpenEndedBraces`), and
  `ScanKeepsPromiseIff` says exactly when the promise holds.
- `quantified_nullable_group` reads the characters after `(?` as mandatory literals of the first alternative, so it misses
  `(?:b?)+` (`ScanMissesNonCaptureGroup`) and finds `(?:b|)+` (`ScanFindsLaterAlternative`). It never gives a false
  positive on a valid pattern (`ScanHasNoFalsePositive`), and `ScanIsRightIff` says exactly when it is right.
- `empty_alternatives_explode` counts an open-ended `{n,}` as n + 2 iterations, where its comment speaks of two. Eleven
  empty alternatives under `{3,}` show it (`ScanOvercountsOpenEnded`), and `ScanIsAsSaidIff` says exactly when the two
  counts give the same answer.
- `ratio_is_consistent` is exact wherever REAL's cell shows a digit that is not zero (`ConsistentIffPossible`). Where it
  shows only zeros it refuses every row whose ratio does not, possible or not (`ZeroCellRefused`); `ZeroCellExact` says
  on the cells which rows are possible, which are accepted, and when the test is right.
- The `--fix` loop says that going bottom-up keeps earlier indices valid. That assumes that no two declarations share a run
  of doc lines. A one-line function template breaks the assumption (`TemplateLineShares`), the lines that result are
  spoiled (`SharedRunIsSpoiled`), in the worst case by a block around a declaration (`DeclarationIsSwallowed`), and the
  loop leaves what it is meant to if and only if runs are distinct (`FixIsSimultaneousIff`).
- `decode` undoes three-digit octal escapes in a pattern exactly for bytes below 64 (`OctalInPatternIff`): the others read
  as backreferences.

## Model

| member | source | states |
|---|---|---|
| `Regex.EmptyMatchIsNullable` | fuzz/pcre2_differential.cpp:57-61 | whatever the subject, the position and the way assertions evaluate, a term whose computed flag says it cannot match empty never does |
| `Regex.EmptyWordIffNullable` | fuzz/pcre2_differential.cpp:57-61 | with assertions allowed to hold, the flag is exact: the empty word is in the language if and only if it is set |
| `Regex.UnboundedIterationsIffEmpty` | fuzz/fuzz_compat.cpp:288-293 | a body that matches empty can be iterated any number of times on no text; a body that does not cannot be iterated even once on no text |
| `Regex.IterationsConsume` | fuzz/fuzz_compat.cpp:288-293 | a body that cannot match empty is iterated at most as often as there are characters |
| `NullableScan.QuantifiedNullableGroup` | fuzz/fuzz_compat.cpp:299-377 | the loop over the two stacks computes the scan function on every text, valid or not |
| `NullableScan.ScanPrinted` | fuzz/fuzz_compat.cpp:299-377 | on the text of every valid term the scan answers true if and only if a blank group is repeated: one with a way through that takes no character, asserts nothing but `^` and `$`, and enters no first alternative of a group opened by `(?` |
| `NullableScan.ScanDecidesRepeatedEmptyGroups` | fuzz/fuzz_compat.cpp:288-298 | with plain groups the scan answers true if and only if some group under `*`, `+` or braces has a language that contains the empty word |
| `NullableScan.ScanHasNoFalsePositive` | fuzz/fuzz_compat.cpp:288-298 | with groups and anchors of every kind a positive answer is still right |
| `NullableScan.PassedPatternsIterateOnText` | fuzz/fuzz_compat.cpp:288-298 | in a pattern the scan lets through, no repeated group ever iterates more often than the text it covers is long |
| `NullableScan.ScanIsRightIff` | fuzz/fuzz_compat.cpp:288-298 | on every valid pattern the scan is right if and only if a repeated group that matches the empty word comes with a repeated group that is blank |
| `NullableScan.ScanMissesNonCaptureGroup` | fuzz/fuzz_compat.cpp:338-342 | `(?:b?)+` repeats a group that matches empty and is not found |
| `NullableScan.ScanFindsLaterAlternative` | fuzz/fuzz_compat.cpp:343-346 | the other alternatives of such a group do count: with an empty second one it is found |
| `NestedScan.NestedUnboundedQuantifier` | fuzz/fuzz_compat.cpp:247-286 | the loop over depth and one integer computes the scan function on every text |
| `NestedScan.IntegerIsFaithful` | fuzz/fuzz_compat.cpp:249-284 | on every text, balanced or not, the integer answers as a stack of "this open group has seen `*` or `+`" does |
| `NestedScan.InnermostMoves` | fuzz/fuzz_compat.cpp:265-283 | opening, marking and closing on the stack are the integer's three updates |
| `NestedScan.ScanDecidesNesting` | fuzz/fuzz_compat.cpp:244-246 | on every valid pattern the scan answers true if and only if some group under `*`, `+` or braces contains `*` or `+` at any depth |
| `NestedScan.PromiseIsNesting` | fuzz/fuzz_compat.cpp:244-246 | the promise for a quantified class adds nothing: classes hold no quantifier |
| `NestedScan.ScanKeepsPromiseIff` | fuzz/fuzz_compat.cpp:236-246 | read for groups and classes and every unbounded quantifier, the promise holds if and only if a repeated group with `{n,}` inside comes with one with `*` or `+` inside |
| `NestedScan.ScanMissesOpenEndedBraces` | fuzz/fuzz_compat.cpp:281-283 | `(a{2,})+` is not found |
| `ExplodeScan.EmptyAlternativesExplode` | fuzz/fuzz_compat.cpp:157-232 | the loop over the per-depth counters computes the scan function on every text |
| `ExplodeScan.GroupRepeats` | fuzz/fuzz_compat.cpp:202-223 | the nested digit loops read the repeat count of the text after a closing parenthesis |
| `ExplodeScan.RepeatsOf` | fuzz/fuzz_compat.cpp:202-223 | on the text of an operator the count read is the operator's own largest count |
| `ExplodeScan.AfterCounts` | fuzz/fuzz_compat.cpp:193-201 | the two counters of an open group add up to the number of its alternatives that hold no atom |
| `ExplodeScan.ScanDecidesExplosion` | fuzz/fuzz_compat.cpp:157-232 | on every valid pattern, named groups and lookarounds included, the scan answers true if and only if some group has k >= 2 empty alternatives and a largest repeat r with k^r above 100000, an open-ended `{n,}` repeating n + 2 times |
| `ExplodeScan.LimitIs` | fuzz/fuzz_compat.cpp:155 | under `*` the limit lies between 316 and 317 empty alternatives, under `{3}` between 46 and 47 |
| `ExplodeScan.ScanIsAsSaidIff` | fuzz/fuzz_compat.cpp:147-154 | with every unbounded count read as two, as the comment says: the scan finds all that it should, and gives that answer if and only if a group under `{n,}` that is too much for n + 2 iterations comes with a group that is too much as said |
| `ExplodeScan.ScanOvercountsOpenEnded` | fuzz/fuzz_compat.cpp:216 | eleven empty alternatives under `{3,}` are refused, though two iterations of them are not too many |
| `EmptyRuns.EmptyRunsArePower` | fuzz/fuzz_compat.cpp:147-154 | k empty alternatives under m iterations give k^m different runs, and each iteration of each of them matches the empty text |
| `CountScan.UnboundedQuantifiers` | fuzz/fuzz_compat.cpp:123-145 | the loop computes the count function on every text |
| `CountScan.ScanCountsUnbounded` | fuzz/fuzz_compat.cpp:114-122 | on every valid pattern the count is the number of repeats without a maximum |
| `CountScan.CountedZeroIsBounded` | fuzz/fuzz_compat.cpp:114-122 | a pattern counted zero has a computable longest match on every subject |
| `Generator.Generator.Below` | fuzz/pcre2_differential.cpp:71-74 | one draw: the next number of the stream, reduced below n |
| `Generator.Generator.Quantifier` | fuzz/pcre2_differential.cpp:120-126 | the number drawn picks the entry of the table, and its text is that of the operator, one with a finite maximum inside a lookaround |
| `Generator.DrawnTests` | fuzz/pcre2_differential.cpp:130-143 | the tests made on a quantifier's text are right for every quantifier that can be drawn: zero minimum, and able to iterate twice |
| `Generator.Generator.Quantified` | fuzz/pcre2_differential.cpp:128-143 | the flag of the piece is that of the repeat, and the loop flag goes up exactly when a repeat of more than one turn has a body that matches empty |
| `Generator.Generator.Literal` | fuzz/pcre2_differential.cpp:169-180 | the number drawn picks the literal of the mode; only one of a single byte takes a quantifier; the text is that of the term |
| `Generator.Generator.Sequence` | fuzz/pcre2_differential.cpp:145-155 | as many atoms as the number drawn says; text, nullable flag, capture record and loop flag are those of their concatenation, for every stream |
| `Generator.Generator.Alternation` | fuzz/pcre2_differential.cpp:157-167 | the same for one or two alternatives |
| `Generator.Generator.Group` | fuzz/pcre2_differential.cpp:182-191 | the same for a group, its capture recorded before those inside it |
| `Generator.Generator.Lookaround` | fuzz/pcre2_differential.cpp:214-222 | the body is drawn as inside a lookaround: bounded, with no lookaround in it |
| `Generator.Generator.Atom` | fuzz/pcre2_differential.cpp:193-224 | for every choice the number drawn says which atom it is; its text and facts are those of the term, and generation terminates because groups stop at depth two |
| `Generator.Generator.Pattern` | fuzz/pcre2_differential.cpp:76-82 | for every stream and mode the text is that of a valid term, the capture record and loop flag are those of that term, groups nest at most two deep and lookarounds are bounded |
| `Generator.Generator.LookaroundGroups` | fuzz/pcre2_differential.cpp:89-99 | the loop prints the flagged group numbers, comma-separated |
| `TermFacts.LoopMeansEmpty` | fuzz/pcre2_differential.cpp:10-15 | the loop flag is set if and only if some repeat that allows two iterations has a body whose language contains the empty word |
| `TermFacts.TextHasCaptures` | fuzz/pcre2_differential.cpp:182-191 | an independent reading of the text alone finds the same capture groups, in the same order, with the same lookaround marks |
| `TermFacts.WidthBounds` | fuzz/pcre2_differential.cpp:120-126 | a bounded term matches no more than its computed width, on every subject and however assertions evaluate |
| `TermFacts.LookaroundReach` | fuzz/pcre2_differential.cpp:120-126 | the body of every generated lookaround reaches no further than a computable length |
| `GroupReport.ReportRoundTrip` | fuzz/pcre2_arbiter.py:93 | the arbiter reads from the printed list exactly the groups the generator recorded |
| `GroupReport.ArbiterMasksLookaroundGroups` | fuzz/pcre2_arbiter.py:93 | the set read is exactly the capture groups that a reading of the pattern's text finds inside a lookaround |
| `Arbiter.MaskedAgree` | fuzz/pcre2_arbiter.py:64-67 | masked answers are equal if and only if both engines found nothing, or both place every other group alike |
| `Arbiter.Compare` | fuzz/pcre2_arbiter.py:93-97 | a pattern generated, its list printed, read back and two answers masked: they come out equal if and only if they agree outside the groups that the pattern's text has inside lookarounds |
| `Decimal.NumeralRoundTrip` | fuzz/pcre2_differential.cpp:89-99 | a printed group number reads back as itself |
| `Utf8.EncodeIsWellFormed` | fuzz/fuzz_re2.cpp:376-398 | every scalar value is written as one UTF8-char of section 4 of RFC 3629 and its free bits read back as the value |
| `Utf8.WellFormedIsEncode` | fuzz/fuzz_re2.cpp:376-398 | every UTF8-char is the encoding of a scalar value: the image is exactly the grammar |
| `Utf8.PrefixFree` | fuzz/fuzz_re2.cpp:376-398 | no encoding is a proper prefix of another, and distinct values have distinct encodings |
| `Utf8.DecodeEncode` | fuzz/fuzz_re2.cpp:376-398 | any concatenation of encodings decodes to the text it came from |
| `Utf8.EncodeDecode` | fuzz/pcre2_arbiter.py:51-54 | strict decoding accepts nothing but encodings |
| `Utf8.OrderPreserved` | fuzz/fuzz_re2.cpp:376-398 | the order of encoded texts byte by byte is the order of the texts code point by code point |
| `Utf8.KeptPositions` | fuzz/pcre2_differential.cpp:378-381 | the positions the mask test keeps are exactly the lengths of encoded prefixes, and exactly those at which the bytes before decode |
| `Utf8.BytesCharsBytes` | fuzz/pcre2_arbiter.py:51-61 | at a kept position the conversion to characters succeeds and the conversion back inverts it |
| `Utf8.CharsBytesChars` | fuzz/pcre2_arbiter.py:51-61 | a character offset converts to a kept position and back to itself |
| `Utf8.ReferenceAnswer` | fuzz/pcre2_arbiter.py:51-61 | the whole answer: it fails exactly at positions inside a character, asks the engine at the right character, and reports every set group at byte offsets that convert back to the engine's span |
| `LinearFit.Excess` | benchmarks/bench.py:209-220 | any line's squared error exceeds the fit's by a weighted square of the slope difference plus a weighted square of its distance from the point of means |
| `LinearFit.FitMinimises` | benchmarks/bench.py:209-220 | there is a fit for every input but the empty one, and no line has a smaller squared error, equal x values included |
| `LinearFit.FitIsUnique` | benchmarks/bench.py:209-220 | when the x values are not all equal no other line does as well |
| `LinearFit.RSquared` | benchmarks/bench.py:217-219 | R squared lies in [0, 1] and is 1 if and only if every point is on the line, the degenerate cases included |
| `LinearFit.RSquaredIs` | benchmarks/bench.py:217-219 | R squared is the share of the y spread that the line explains, and the squared correlation where the x values are spread too |
| `LinearFit.EqualX` | benchmarks/bench.py:215-219 | with equal x values the line is flat at the mean and R squared is 0 unless the points coincide |
| `Ratios.IntervalIsRounding` | benchmarks/verify_bench_ratios.py:51-58 | the interval of a displayed decimal holds exactly the values that round to it |
| `Ratios.OneMoreDecimal` | benchmarks/verify_bench_ratios.py:51-58 | one decimal more narrows the interval to a tenth, and a zero leaves its middle alone |
| `Ratios.IntervalExamples` | benchmarks/verify_bench_ratios.py:51-58 | 0.21 stands for the values from 0.205 to 0.215, and 0.205 for those from 0.2045 to 0.2055 |
| `Ratios.ParseDecimal` | benchmarks/verify_bench_ratios.py:56-57 | a text of digits and points is a number if and only if it has digits and at most one point, and then gives its digits and the number of decimals that sets the precision |
| `Ratios.ConsistentHasWitness` | benchmarks/verify_bench_ratios.py:61-71 | each acceptance comes with raw values that produce the row |
| `Ratios.ConsistentIffPossible` | benchmarks/verify_bench_ratios.py:61-71 | where REAL's cell is not all zeros the test accepts if and only if some raw values in the three intervals satisfy the ratio |
| `Ratios.ZeroCellExact` | benchmarks/verify_bench_ratios.py:61-71 | where it is all zeros: which rows are possible, which are accepted (none that shows a ratio other than zero, and nothing impossible), and that the test is right exactly on these and on the impossible ones |
| `Ratios.ZeroCellRefused` | benchmarks/verify_bench_ratios.py:68-71 | 1.0 against 0.0 shown as 50.0 is possible and refused |
| `NoiseFloor.PositionSplits` | benchmarks/bench_layout.py:114-115 | index and fraction add up to 0.95 of the way along |
| `NoiseFloor.FloorIs` | benchmarks/bench_layout.py:107-117 | the floor lies as far between its two neighbours in the sorted magnitudes as 0.95 of the way along lies between theirs; none and one delta included |
| `NoiseFloor.EvenSpacing` | benchmarks/bench_layout.py:107-117 | magnitudes evenly spaced from a by d have the floor a + 0.95 (n - 1) d, whatever their order and signs |
| `NoiseFloor.FloorBetween` | benchmarks/bench_layout.py:107-117 | the floor lies between the two neighbouring order statistics |
| `NoiseFloor.FewExceed` | benchmarks/bench_layout.py:97-104 | at most n - 1 - floor(0.95 (n - 1)) magnitudes exceed it |
| `NoiseFloor.FloorIgnoresOrderAndSign` | benchmarks/bench_layout.py:107-109 | reordering or sign flips leave it alone |
| `NoiseFloor.FloorIsMonotone` | benchmarks/bench_layout.py:107-117 | it never falls when magnitudes grow |
| `DocStyle.DocBlockAbove` | tools/check_doc_style.py:186-209 | the two loops find the run that the specification function gives |
| `DocMeaning.DocIff` | tools/check_doc_style.py:196-197 | a doc line is blanks, the marker and anything |
| `DocMeaning.InterveningIff` | tools/check_doc_style.py:100-102 | the lines stepped over are, behind their blanks, an attribute, a template with its bracket, or a conditional of the preprocessor as a whole word |
| `DocMeaning.BlockAboveIff` | tools/check_doc_style.py:186-209 | a run is found exactly when it is a whole run of doc lines with at most seven lines between, all of them to be stepped over |
| `DocStyle.BlockAboveFacts` | tools/check_doc_style.py:186-209 | a run found is a maximal run of doc lines at most eight lines up, with nothing but intervening lines between |
| `DocStyle.Classify` | tools/check_doc_style.py:212-228 | the form is trailing, run, block or other, as the specification function gives |
| `DocMeaning.FormIs` | tools/check_doc_style.py:212-228 | each form in turn: the trailing marker on the line, a run above, a line that closes a block where the search stops, none of them |
| `DocStyle.MakeBlock` | tools/check_doc_style.py:251-263 | the loop builds the block of the specification function |
| `DocMeaning.BlockIs` | tools/check_doc_style.py:231-263 | opener, closer and every line between stand at the indent of the first doc line, a star before each text |
| `DocMeaning.BriefTextIs` | tools/check_doc_style.py:245 | the text taken is what follows the marker, less a brief command that blanks follow |
| `DocMeaning.CandidateIff` | tools/check_doc_style.py:235-248 | an attribute gets a trailing comment exactly when its run is one line with text, and its own line has no comment and ends in a semicolon; the new line is spelt out |
| `DocStyle.BlockKeepsText` | tools/check_doc_style.py:251-263 | the text after each block line's star is verbatim the text after the doc line's marker |
| `DocOutcome.TrailingKeepsText` | tools/check_doc_style.py:235-248 | the text a trailing comment takes from a doc line is all of it but for a leading brief command |
| `DocRewrite.Collect` | tools/check_doc_style.py:512-544 | the pass stops exactly on a comment line; every item fits the lines and is that of a member, every object with a run and every attribute with a candidate has its item, and members on distinct lines give items on distinct declarations |
| `DocMeaning.CommentLineIff` | tools/check_doc_style.py:524-525 | a line is a comment exactly when its first characters behind the blanks begin one |
| `DocRewrite.RunsSharedOrApart` | tools/check_doc_style.py:186-209 | two declarations share their run, or the later one's run lies between them |
| `DocRewrite.FittingRunsAreApart` | tools/check_doc_style.py:641-650 | with distinct declarations and distinct runs each run lies below every earlier declaration |
| `DocRewrite.InPlaceIsSimultaneous` | tools/check_doc_style.py:641-650 | one more edit in place, above those already made, is that edit made with them at once |
| `DocRewrite.Source.ApplyFixes` | tools/check_doc_style.py:641-650 | the loop over any items, shared runs and lines included, does what the loop function says, and breaks off where an index runs past the end |
| `DocRewrite.LoopIsSimultaneous` | tools/check_doc_style.py:641-650 | with every run below the declarations that come later the loop runs through and leaves the simultaneous replacement of the original lines, each edit computed from them |
| `DocOutcome.EditsShow` | tools/check_doc_style.py:641-650 | in the result every rewritten declaration stands at its computed place and classifies as intended; each line of its block carries the text of its doc line, and its trailing comment ends in that text |
| `DocOutcome.UntouchedStays` | tools/check_doc_style.py:641-650 | a line no edit touches is in the result, the next line's output right behind it |
| `DocOutcome.PositionsAscend` | tools/check_doc_style.py:641-650 | the result keeps the order of the lines |
| `DocOutcome.FixedFormsAreWanted` | tools/check_doc_style.py:641-650 | all of this of what the loop leaves for items on distinct declarations with distinct runs |
| `SharedRuns.SharedIsSpoiled` | tools/check_doc_style.py:641-650 | whatever the mix of block and trailing edits, two or more of one run never leave, anywhere in their lines, what is meant for that run |
| `DocShared.LoopIsSimultaneousIff` | tools/check_doc_style.py:641-650 | for fitting items from the last declaration up the loop runs through, and leaves the simultaneous replacement if and only if no two share a run |
| `DocFix.FixIsSimultaneousIff` | tools/check_doc_style.py:641-650 | the same for items in any order |
| `DocFix.Fix` | tools/check_doc_style.py:512-650 | collect and apply: nothing changes when a report is out of date; on distinct lines the result is as meant if and only if runs are distinct, and then every member that wants another form shows it in full and every other line stands in order |
| `DocFix.SharedRunIsSpoiled` | tools/check_doc_style.py:641-650 | what two edits of one run leave, for each pair of forms: the first block's opener wrapped as text, the code below the run wrapped, or a trailing comment over another line |
| `DocFix.TemplateLineShares` | tools/check_doc_style.py:100-102 | a one-line function template makes two declarations share a run |
| `DocFix.DeclarationIsSwallowed` | tools/check_doc_style.py:641-650 | an attribute below such a template takes the run, and the block meant for the template wraps its declaration |
| `Ranges.Coalesce` | tools/_gen_common.py:30-39 | the output is sorted, no two ranges touch, and it covers the same integers |
| `Ranges.CanonicalIsUnique` | tools/_gen_common.py:30-39 | equal coverage gives equal output |
| `Ranges.CanonicalIsFewest` | tools/_gen_common.py:30-31 | no list with the same coverage has fewer ranges |
| `Ranges.InRanges` | tools/_gen_common.py:42-51 | the binary search terminates and decides membership in sorted, disjoint ranges |
| `Ranges.InCoalesced` | tools/_gen_common.py:30-51 | searching the coalesced table decides membership in the original union |
| `Nav.Extractor.constructor` | tools/check_site_links.py:91-100 | the handler starts outside any container, with nothing collected |
| `Nav.GetIsLast` | tools/check_site_links.py:103 | of the pairs of a name the last one gives the value; without one, or without a value, it is empty |
| `Nav.MatchesIff` | tools/check_site_links.py:105-109 | an element is the container exactly when it has the tag, and its last class attribute has the class as a word of its own |
| `Nav.Extractor.HandleStartTag` | tools/check_site_links.py:102-117 | the new state after a start tag |
| `Nav.Extractor.HandleEndTag` | tools/check_site_links.py:119-129 | the new state after an end tag |
| `Nav.Extractor.HandleData` | tools/check_site_links.py:131-133 | the new state after text |
| `Nav.AnchorIs` | tools/check_site_links.py:114-124 | an anchor yields one item: its text normalised, and the value of its last `href` or the empty string |
| `Nav.InsideContainer` | tools/check_site_links.py:112-125 | inside the container every anchor is collected, in document order, and the depth comes back |
| `Nav.AfterContainer` | tools/check_site_links.py:104-111 | after the first container nothing changes any more |
| `Nav.BeforeContainer` | tools/check_site_links.py:84-133 | a document leaves exactly the anchors of its first matching element, or nothing |
| `Nav.Extract` | tools/check_site_links.py:136-145 | a fresh handler fed a well-nested document returns those anchors |
| `Nav.NormaliseKeepsWords` | tools/check_site_links.py:123 | a label keeps the words of its text, and normalising it again changes nothing |
| `Nav.WordsSpell` | tools/check_site_links.py:123 | the words of a text are its stretches without white space, all of them and in order |
| `Nav.LabelIsSingleSpaced` | tools/check_site_links.py:123 | a label has exactly one plain space between its words and no other white space |
| `Fowler.DecodeText` | fuzz/fowler_compat.cpp:49-96 | the loop computes the decoding function, never longer than its input |
| `Fowler.DecodeAt` | fuzz/fowler_compat.cpp:54-93 | one turn decodes the escape or character at the index, digit loops included |
| `Fowler.ControlsDecode` | fuzz/fowler_compat.cpp:56-62 | the six control escapes and the escaped backslash give their characters |
| `Fowler.HexDecodes` | fuzz/fowler_compat.cpp:63-73 | two hexadecimal digits of either case, or one before anything else, give their byte; `\x` with none stays |
| `Fowler.OctalDecodes` | fuzz/fowler_compat.cpp:74-86 | three octal digits, or fewer before anything else, give their value cut to a byte; in a pattern the first is a zero |
| `Fowler.OthersStay` | fuzz/fowler_compat.cpp:87-90 | every other escape keeps its backslash, in a pattern the digits from 1 on as well |
| `Fowler.PlainHead` | fuzz/fowler_compat.cpp:92-93 | any other character stands for itself, and so does a backslash at the end |
| `Fowler.DecodeDistributes` | fuzz/fowler_compat.cpp:49-96 | on every text and in both modes, decoding distributes over concatenation wherever the decoder's index stops |
| `Fowler.HexRoundTrip` | fuzz/fowler_compat.cpp:63-73 | in both modes decoding undoes `\xHH` escaping of any bytes, whatever text follows |
| `Fowler.OctalRoundTrip` | fuzz/fowler_compat.cpp:74-86 | in text mode it undoes three-digit octal escaping, whatever text follows |
| `Fowler.OctalInPatternIff` | fuzz/fowler_compat.cpp:47-48 | in a pattern it does so if and only if every byte is below 64 |
| `Fowler.SplitTabs` | fuzz/fowler_compat.cpp:98-108 | the loop computes the split on tabs |
| `Fowler.SplitThenGlue` | fuzz/fowler_compat.cpp:98-108 | joining the fields on tabs gives the line back, and no field holds a tab |
| `Fowler.GlueThenSplit` | fuzz/fowler_compat.cpp:98-108 | splitting joined fields gives the fields back |
| `MatchWalk.Count` | benchmarks/bench_engines.cpp:330-341 | the loop terminates and counts the spans of the recursive walk |
| `MatchWalk.WalkSteps` | benchmarks/bench_engines.cpp:330-341 | the walk starts with the match from the first position; after a span with text the engine is asked at its end, after an empty one a position further; it stops past the text or where nothing is found |
| `MatchWalk.SpansInOrder` | benchmarks/bench_engines.cpp:357-362 | the spans are ordered and do not overlap, no two start together, and there are at most size + 1 |
| `MatchWalk.NothingMissed` | benchmarks/bench_engines.cpp:357-362 | with a leftmost engine, wherever a match starts a counted span starts too, or takes the character there |

## Left out

- The engine itself, std::regex, PCRE2, RE2 and Python's `re`: their source is not in these files; where one is needed it
  is an arbitrary function under a stated contract.
- `caret_after_lookahead`, `allowlisted`, `counted_repeat_load` and the input splitting of the fuzz target: substring
  searches and a sum.
- Floating-point rounding, and the fixed width of C++ integers where digits accumulate: numbers are naturals and exact
  reals. The encoder's bytes are bit vectors, truncation included.
- NullableScan.ScanDecidesRepeatedEmptyGroups: for plain groups and the anchors `^` and `$` only; with other groups and
  anchors the scan is not always right, and `ScanIsRightIff` gives the condition.
- Valid: patterns with backreferences, `\x41`-style escapes, `\0`, literal braces or numerals with leading zeros are not
  among the terms, so the theorems about printed terms do not speak of them; the scanners themselves are modelled on
  every text.
- The generator's `subject` and the comparison loop around the engines: draws from two tables, and calls into engines.
- Generator.Generator.Below: the random engine is an arbitrary stream of numbers; its actual sequence is not modelled.
- DocStyle.Intervening: word characters are ASCII letters, digits and the underscore, where Python's `\b` also counts
  letters of other scripts.
- DocFix.FixIsSimultaneousIff: declarations on distinct lines. Of members reported on one line (`int a, b;`) the loop is
  modelled, its result only as that of the loop; the order in which their kinds and names put such items is not.
- DocRewrite.Source.ApplyFixes: one file's lines; reading the Doxygen XML, choosing files, skipping generated headers and
  writing the result are input and output.
- The other prose checks of `tools/check_doc_style.py` (double briefs, split sentences, stacked and wedged blocks).
- Nav.Extract: documents are well nested with no anchor inside an anchor; how the HTML parser turns text into events, and
  the resolution of link targets, are not modelled.
- Ratios.RatioIsConsistent: the table and prose parsers around the test.
- The bucket tally, the conformance files' parser and the pinned counts of `fuzz/fowler_compat.cpp`.
- Timing, warm-up, allocation counters, subprocesses and reports of the benchmark programs.
- Sorting is a library call in the sources; it is an insertion sort here, known only by its result.

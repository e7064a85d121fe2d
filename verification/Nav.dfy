/** `_NavExtractor` of tools/check_site_links.py: a parser-event handler that collects the anchors of the first
    container that matches. */
module Nav {
  import opened Wrappers
  import opened Lines

  type Attrs = seq<(string, Option<string>)>

  datatype Event = Start(tag: string, attrs: Attrs) | End(tag: string) | Data(text: string)

  /** The value kept for a name when the attributes become a dictionary: the last one. Absent, valueless and empty
      all read as the empty string. */
  function Get(attrs: Attrs, name: string): string {
    if attrs == [] then ""
    else
      var last := attrs[|attrs| - 1];
      if last.0 == name then if last.1.Some? then last.1.value else "" else Get(attrs[..|attrs| - 1], name)
  }

  /** By index: the last pair of the name decides, and without one nothing is found. */
  lemma {:induction false} GetIsLast(attrs: Attrs, name: string, i: nat)
    requires i <= |attrs| && forall k :: i <= k < |attrs| ==> attrs[k].0 != name
    ensures i == 0 ==> Get(attrs, name) == ""
    ensures i > 0 && attrs[i - 1].0 == name ==>
              match attrs[i - 1].1 case None => Get(attrs, name) == "" case Some(value) => Get(attrs, name) == value
    decreases |attrs|
  {
    if i < |attrs| { GetIsLast(attrs[..|attrs| - 1], name, i); }
  }

  // ---------------------------------------------------------------- words

  /** The maximal stretches of `s` without white space; `word` is the one being read. */
  function WordsFrom(s: string, word: string): seq<string> {
    if s == "" then if word == "" then [] else [word]
    else if IsSpace(s[0]) then (if word == "" then [] else [word]) + WordsFrom(s[1..], "")
    else WordsFrom(s[1..], word + [s[0]])
  }

  function Words(s: string): seq<string> { WordsFrom(s, "") }

  function JoinWords(ws: seq<string>): string {
    if ws == [] then "" else if |ws| == 1 then ws[0] else ws[0] + " " + JoinWords(ws[1..])
  }

  function Spaced(s: string): string {
    if s == "" then "" else [if s[0] == '\U{A0}' then ' ' else s[0]] + Spaced(s[1..])
  }

  /** A label: no-break spaces made plain, then words with one space between. */
  function Normalise(s: string): string { JoinWords(Words(Spaced(s))) }

  predicate WordText(w: string) { w != "" && forall k :: 0 <= k < |w| ==> !IsSpace(w[k]) }

  predicate AllWords(ws: seq<string>) { forall k :: 0 <= k < |ws| ==> WordText(ws[k]) }

  lemma {:induction false} WordsAreWords(s: string, word: string)
    requires forall k :: 0 <= k < |word| ==> !IsSpace(word[k])
    ensures AllWords(WordsFrom(s, word))
    decreases |s|
  {
    if s != "" {
      if IsSpace(s[0]) { WordsAreWords(s[1..], ""); } else { WordsAreWords(s[1..], word + [s[0]]); }
    }
  }

  lemma {:induction false} ReadWord(w: string, rest: string, word: string)
    requires forall k :: 0 <= k < |w| ==> !IsSpace(w[k])
    ensures WordsFrom(w + rest, word) == WordsFrom(rest, word + w)
    decreases |w|
  {
    if w == "" {
      assert w + rest == rest && word + w == word;
    } else {
      assert (w + rest)[1..] == w[1..] + rest && word + w == word + [w[0]] + w[1..];
      ReadWord(w[1..], rest, word + [w[0]]);
    }
  }

  /** Joining words and splitting them gives the words back. */
  lemma {:induction false} WordsOfJoined(ws: seq<string>)
    requires AllWords(ws)
    ensures Words(JoinWords(ws)) == ws
    decreases |ws|
  {
    if |ws| == 1 {
      ReadWord(ws[0], "", "");
      assert ws[0] + "" == ws[0] && "" + ws[0] == ws[0];
    } else if ws != [] {
      WordsOfJoined(ws[1..]);
      WordThen(ws[0], JoinWords(ws[1..]));
      assert JoinWords(ws) == ws[0] + " " + JoinWords(ws[1..]) && ws == [ws[0]] + ws[1..];
    }
  }

  lemma WordThen(w: string, tail: string)
    requires WordText(w)
    ensures Words(w + " " + tail) == [w] + Words(tail)
  {
    hide IsSpace;
    var rest := " " + tail;
    assert w + " " + tail == w + rest && rest[1..] == tail && "" + w == w;
    ReadWord(w, rest, "");
    PlainBlank();
  }

  lemma PlainBlank()
    ensures IsSpace(' ')
  {
  }

  lemma {:induction false} SpacedWords(s: string, word: string)
    ensures WordsFrom(Spaced(s), word) == WordsFrom(s, word)
    decreases |s|
  {
    if s != "" {
      assert Spaced(s)[1..] == Spaced(s[1..]);
      if IsSpace(s[0]) { SpacedWords(s[1..], ""); } else { SpacedWords(s[1..], word + [s[0]]); }
    }
  }

  /** A normalised label has the words of its text, and normalising it again changes nothing. */
  lemma NormaliseKeepsWords(s: string)
    ensures Words(Normalise(s)) == Words(s) && Normalise(Normalise(s)) == Normalise(s)
  {
    SpacedWords(s, "");
    WordsAreWords(s, "");
    WordsOfJoined(Words(s));
    SpacedWords(Normalise(s), "");
  }

  /** How a text is made of words: white space before each and after the last, and some between any two. */
  ghost predicate Spells(s: string, ws: seq<string>)
    decreases |ws|
  {
    if ws == [] then AllSpace(s)
    else exists gap, rest :: SpellsFirst(s, gap, ws[0], rest) && Spells(rest, ws[1..])
  }

  predicate SpellsFirst(s: string, gap: string, w: string, rest: string) {
    s == gap + w + rest && AllSpace(gap) && WordText(w) && (rest == "" || IsSpace(rest[0]))
  }

  /** The words are those the text is made of. */
  lemma {:induction false} WordsSpell(s: string)
    ensures Spells(s, Words(s))
    decreases |s|
  {
    hide IsSpace, Words;
    if s == "" {
      NoWords();
    } else if IsSpace(s[0]) {
      BlankGone(s);
      WordsSpell(s[1..]);
      var ws := Words(s[1..]);
      if ws != [] {
        var gap, rest :| SpellsFirst(s[1..], gap, ws[0], rest) && Spells(rest, ws[1..]);
        assert SpellsFirst(s, [s[0]] + gap, ws[0], rest);
      }
    } else {
      var w, rest := FirstWord(s);
      WordsSpell(rest);
      var ws := Words(s);
      assert ws == [w] + Words(rest) && ws[1..] == Words(rest);
      assert SpellsFirst(s, "", ws[0], rest) && Spells(rest, ws[1..]);
    }
  }

  lemma {:induction false} FirstWord(s: string) returns (w: string, rest: string)
    requires s != "" && !IsSpace(s[0])
    ensures s == w + rest && WordText(w) && (rest == "" || IsSpace(rest[0])) && |rest| < |s|
    ensures Words(s) == [w] + Words(rest)
  {
    w, rest := Cut(s);
    ReadWord(w, rest, "");
    assert "" + w == w;
  }

  lemma {:induction false} Cut(s: string) returns (w: string, rest: string)
    requires s != "" && !IsSpace(s[0])
    ensures s == w + rest && WordText(w) && (rest == "" || IsSpace(rest[0])) && |rest| < |s|
    decreases |s|
  {
    if |s| == 1 || IsSpace(s[1]) {
      w, rest := s[..1], s[1..];
    } else {
      w, rest := Cut(s[1..]);
      w := [s[0]] + w;
    }
  }

  lemma BlankGone(s: string)
    requires s != "" && IsSpace(s[0])
    ensures Words(s) == Words(s[1..])
  {
  }

  /** `w` stands in the text as a word of its own: between blanks, or at an end. */
  predicate WordAt(s: string, a: string, w: string, b: string) {
    s == a + w + b && WordText(w) && (a == "" || IsSpace(a[|a| - 1])) && (b == "" || IsSpace(b[0]))
  }

  lemma BlankFirst(s: string, a: string, w: string, b: string)
    requires WordAt(s, a, w, b) && (s == "" || IsSpace(s[0]))
    ensures a != ""
  {
    hide IsSpace;
    assert (w + b)[0] == w[0] && "" + w + b == w + b;
  }

  lemma {:induction false} WordIsThere(s: string, w: string)
    requires w in Words(s)
    ensures exists a, b :: WordAt(s, a, w, b)
    decreases |s|
  {
    hide IsSpace;
    if s != "" && IsSpace(s[0]) {
      WordIsThere(s[1..], w);
      var a, b :| WordAt(s[1..], a, w, b);
      assert WordAt(s, [s[0]] + a, w, b);
    } else if s != "" {
      var first, rest := FirstWord(s);
      if w == first {
        assert WordAt(s, "", w, rest);
      } else {
        WordIsThere(rest, w);
        var a, b :| WordAt(rest, a, w, b);
        BlankFirst(rest, a, w, b);
        assert WordAt(s, first + a, w, b);
      }
    }
  }

  lemma {:induction false} WordIsFound(s: string, a: string, w: string, b: string)
    requires WordAt(s, a, w, b)
    ensures w in Words(s)
    decreases |s|
  {
    hide IsSpace;
    if a == "" {
      assert s == w + b && "" + w == w;
      ReadWord(w, b, "");
    } else if IsSpace(s[0]) {
      assert s[1..] == a[1..] + w + b;
      WordIsFound(s[1..], a[1..], w, b);
    } else {
      var first, rest := FirstWord(s);
      assert s[|a| - 1] == a[|a| - 1] && forall k :: 0 <= k < |first| ==> s[k] == first[k];
      assert rest == s[|first|..] == a[|first|..] + w + b;
      WordIsFound(rest, a[|first|..], w, b);
    }
  }

  /** The container is the element of its tag whose class attribute, the last one given, has the class as a word. */
  lemma MatchesIff(c: Container, tag: string, attrs: Attrs, i: nat)
    requires i < |attrs| && attrs[i].0 == "class" && forall k :: i < k < |attrs| ==> attrs[k].0 != "class"
    ensures c.Matches(tag, attrs) <==>
            tag == c.tag && attrs[i].1.Some? && exists a, b :: WordAt(attrs[i].1.value, a, c.cls, b)
  {
    hide Words, WordAt;
    GetIsLast(attrs, "class", i + 1);
    var s := Get(attrs, "class");
    NoWords();
    if c.cls in Words(s) { WordIsThere(s, c.cls); }
    if a, b :| WordAt(s, a, c.cls, b) { WordIsFound(s, a, c.cls, b); }
  }

  lemma NoWords()
    ensures Words("") == []
  {
  }

  /** Between the words of a label stands exactly one plain space, and no other white space anywhere. */
  predicate SingleSpaced(s: string) {
    forall k :: 0 <= k < |s| && IsSpace(s[k]) ==> s[k] == ' ' && 0 < k < |s| - 1 && !IsSpace(s[k - 1]) && !IsSpace(s[k + 1])
  }

  lemma {:induction false} JoinIsSingleSpaced(ws: seq<string>)
    requires AllWords(ws)
    ensures var s := JoinWords(ws); SingleSpaced(s) && (s != "" ==> !IsSpace(s[0])) && (s == "" <==> ws == [])
    decreases |ws|
  {
    if |ws| > 1 {
      JoinIsSingleSpaced(ws[1..]);
      assert WordText(ws[0]) && WordText(ws[1]);
      JoinStep(ws[0], JoinWords(ws[1..]));
    } else if ws != [] {
      assert WordText(ws[0]);
    }
  }

  lemma JoinStep(w: string, tail: string)
    requires WordText(w) && SingleSpaced(tail) && tail != "" && !IsSpace(tail[0])
    ensures SingleSpaced(w + " " + tail)
  {
    var s := w + " " + tail;
    forall k | 0 <= k < |s| && IsSpace(s[k])
      ensures s[k] == ' ' && 0 < k < |s| - 1 && !IsSpace(s[k - 1]) && !IsSpace(s[k + 1])
    {
      if k > |w| {
        assert s[k] == tail[k - |w| - 1];
      }
    }
  }

  /** A label is single-spaced. Together with its words, which are those of its text, that says every character of it. */
  lemma LabelIsSingleSpaced(s: string)
    ensures SingleSpaced(Normalise(s))
  {
    SpacedWords(s, "");
    WordsAreWords(s, "");
    JoinIsSingleSpaced(Words(s));
  }

  // ---------------------------------------------------------------- the handler

  datatype State = State(depth: nat, done: bool, inA: bool, href: string, pieces: seq<string>, items: seq<(string, string)>)

  function Joined(pieces: seq<string>): string { if pieces == [] then "" else pieces[0] + Joined(pieces[1..]) }

  /** What is being looked for: an element of this tag whose class attribute has this token. */
  datatype Container = Container(tag: string, cls: string) {
    predicate Matches(tag: string, attrs: Attrs) { tag == this.tag && cls in Words(Get(attrs, "class")) }
  }

  function Step(c: Container, st: State, e: Event): State {
    match e
    case Start(tag, attrs) =>
      if st.depth == 0 then if !st.done && c.Matches(tag, attrs) then st.(depth := 1) else st
      else
        var st1 := if tag == c.tag then st.(depth := st.depth + 1) else st;
        if tag == "a" then st1.(inA := true, href := Get(attrs, "href"), pieces := []) else st1
    case End(tag) =>
      if st.depth == 0 then st
      else
        var st1 := if tag == "a" && st.inA
                   then st.(items := st.items + [(Normalise(Joined(st.pieces)), st.href)], inA := false) else st;
        if tag == c.tag then st1.(depth := st.depth - 1, done := if st.depth == 1 then true else st.done) else st1
    case Data(text) => if st.inA then st.(pieces := st.pieces + [text]) else st
  }

  function Run(c: Container, st: State, events: seq<Event>): State
    decreases |events|
  {
    if events == [] then st else Run(c, Step(c, st, events[0]), events[1..])
  }

  class Extractor {
    const container: Container
    var depth: nat
    var done: bool
    var inA: bool
    var href: string
    var pieces: seq<string>
    var items: seq<(string, string)>

    function Now(): State
      reads this
    {
      State(depth, done, inA, href, pieces, items)
    }

    constructor (containerTag: string, containerClass: string)
      ensures container == Container(containerTag, containerClass) && Now() == State(0, false, false, "", [], [])
    {
      container := Container(containerTag, containerClass);
      depth, done, inA, href, pieces, items := 0, false, false, "", [], [];
    }

    method HandleStartTag(tag: string, attrs: Attrs)
      modifies this
      ensures Now() == Step(container, old(Now()), Start(tag, attrs))
    {
      if depth == 0 {
        if !done && tag == container.tag && container.cls in Words(Get(attrs, "class")) {
          depth := 1;
        }
        return;
      }
      if tag == container.tag {
        depth := depth + 1;
      }
      if tag == "a" {
        inA := true;
        href := Get(attrs, "href");
        pieces := [];
      }
    }

    method HandleEndTag(tag: string)
      modifies this
      ensures Now() == Step(container, old(Now()), End(tag))
    {
      if depth == 0 {
        return;
      }
      if tag == "a" && inA {
        items := items + [(Normalise(Joined(pieces)), href)];
        inA := false;
      }
      if tag == container.tag {
        depth := depth - 1;
        if depth == 0 {
          done := true;
        }
      }
    }

    method HandleData(text: string)
      modifies this
      ensures Now() == Step(container, old(Now()), Data(text))
    {
      if inA {
        pieces := pieces + [text];
      }
    }

    method Feed(events: seq<Event>)
      modifies this
      ensures Now() == Run(container, old(Now()), events)
    {
      for k := 0 to |events|
        invariant Run(container, Now(), events[k..]) == Run(container, old(Now()), events)
      {
        assert events[k..][0] == events[k] && events[k..][1..] == events[k + 1..];
        match events[k]
        case Start(tag, attrs) => HandleStartTag(tag, attrs);
        case End(tag) => HandleEndTag(tag);
        case Data(text) => HandleData(text);
      }
    }
  }

  // ---------------------------------------------------------------- documents

  /** A well-nested document: a list of text, elements with content, and void elements that are never closed. */
  datatype Doc =
    | Nil
    | Text(text: string, rest: Doc)
    | Elem(tag: string, attrs: Attrs, kids: Doc, rest: Doc)
    | Void(tag: string, attrs: Attrs, rest: Doc)

  function Events(d: Doc): seq<Event> {
    match d
    case Nil => []
    case Text(text, rest) => [Data(text)] + Events(rest)
    case Elem(tag, attrs, kids, rest) => [Start(tag, attrs)] + Events(kids) + [End(tag)] + Events(rest)
    case Void(tag, attrs, rest) => [Start(tag, attrs)] + Events(rest)
  }

  /** Neither anchors nor elements of the container's tag are void, and no anchor lies inside an anchor. */
  predicate Proper(d: Doc, tag: string, inAnchor: bool) {
    match d
    case Nil => true
    case Text(_, rest) => Proper(rest, tag, inAnchor)
    case Elem(t, _, kids, rest) => !(inAnchor && t == "a") && Proper(kids, tag, inAnchor || t == "a") && Proper(rest, tag, inAnchor)
    case Void(t, _, rest) => t != tag && t != "a" && Proper(rest, tag, inAnchor)
  }

  /** All the text of a document, in order. */
  function TextOf(d: Doc): string {
    match d
    case Nil => ""
    case Text(text, rest) => text + TextOf(rest)
    case Elem(_, _, kids, rest) => TextOf(kids) + TextOf(rest)
    case Void(_, _, rest) => TextOf(rest)
  }

  /** The anchors of a document, in document order: normalised label and target. */
  function Anchors(d: Doc): seq<(string, string)> {
    match d
    case Nil => []
    case Text(_, rest) => Anchors(rest)
    case Elem(tag, attrs, kids, rest) =>
      (if tag == "a" then [(Normalise(TextOf(kids)), Get(attrs, "href"))] else Anchors(kids)) + Anchors(rest)
    case Void(_, _, rest) => Anchors(rest)
  }

  /** One anchor: its label is its text, normalised, and its target the value of the last `href`; empty without one. */
  lemma AnchorIs(attrs: Attrs, kids: Doc, i: nat)
    requires i <= |attrs| && forall k :: i <= k < |attrs| ==> attrs[k].0 != "href"
    ensures var found := Anchors(Elem("a", attrs, kids, Nil));
            && |found| == 1 && found[0].0 == Normalise(TextOf(kids))
            && (i == 0 ==> found[0].1 == "")
            && (i > 0 && attrs[i - 1].0 == "href" ==>
                  match attrs[i - 1].1 case None => found[0].1 == "" case Some(value) => found[0].1 == value)
  {
    hide Get, Normalise, TextOf;
    GetIsLast(attrs, "href", i);
  }

  /** The content of the first element, in document order, that matches. */
  function FirstMatch(d: Doc, c: Container): Option<Doc> {
    match d
    case Nil => None
    case Text(_, rest) => FirstMatch(rest, c)
    case Elem(tag, attrs, kids, rest) =>
      if c.Matches(tag, attrs) then Some(kids)
      else
        var inner := FirstMatch(kids, c);
        if inner.Some? then inner else FirstMatch(rest, c)
    case Void(_, _, rest) => FirstMatch(rest, c)
  }

  // ---------------------------------------------------------------- the handler on a document

  lemma {:induction false} RunConcat(c: Container, st: State, a: seq<Event>, b: seq<Event>)
    ensures Run(c, st, a + b) == Run(c, Run(c, st, a), b)
    decreases |a|
  {
    if a == [] {
      assert a + b == b;
    } else {
      assert (a + b)[1..] == a[1..] + b;
      RunConcat(c, Step(c, st, a[0]), a[1..], b);
    }
  }

  lemma RunOne(c: Container, st: State, e: Event)
    ensures Run(c, st, [e]) == Step(c, st, e)
  {
    assert [e][1..] == [];
  }

  /** An element: its start, its content, its end and what follows. */
  lemma RunElem(c: Container, st: State, d: Doc)
    requires d.Elem?
    ensures Run(c, st, Events(d)) ==
            Run(c, Step(c, Run(c, Step(c, st, Start(d.tag, d.attrs)), Events(d.kids)), End(d.tag)), Events(d.rest))
  {
    var a, b := [Start(d.tag, d.attrs)], Events(d.kids);
    RunConcat(c, st, a + b + [End(d.tag)], Events(d.rest));
    RunConcat(c, st, a + b, [End(d.tag)]);
    RunConcat(c, st, a, b);
    RunOne(c, st, a[0]);
    RunOne(c, Run(c, st, a + b), End(d.tag));
  }

  lemma RunFirst(c: Container, st: State, e: Event, events: seq<Event>)
    ensures Run(c, st, [e] + events) == Run(c, Step(c, st, e), events)
  {
    assert ([e] + events)[1..] == events;
  }

  lemma {:induction false} JoinedConcat(a: seq<string>, b: seq<string>)
    ensures Joined(a + b) == Joined(a) + Joined(b)
    decreases |a|
  {
    if a == [] {
      assert a + b == b;
    } else {
      assert (a + b)[1..] == a[1..] + b;
      JoinedConcat(a[1..], b);
    }
  }

  /** Inside the container a start tag of no anchor, and then its end tag, leave all but the depth alone. */
  lemma OtherTags(c: Container, st: State, tag: string, attrs: Attrs)
    requires st.depth > 0 && tag != "a"
    ensures Step(c, st, Start(tag, attrs)) == st.(depth := if tag == c.tag then st.depth + 1 else st.depth)
    ensures tag == c.tag && st.depth > 1 ==> Step(c, st, End(tag)) == st.(depth := st.depth - 1)
    ensures tag != c.tag ==> Step(c, st, End(tag)) == st
  {
  }

  /** Inside an anchor the text gathers and nothing else changes. */
  lemma {:induction false} InsideAnchor(c: Container, st: State, d: Doc)
    requires Proper(d, c.tag, true) && st.depth > 0 && st.inA
    ensures var st' := Run(c, st, Events(d));
            st' == st.(pieces := st'.pieces) && Joined(st'.pieces) == Joined(st.pieces) + TextOf(d)
    decreases d
  {
    hide Step, Run, Joined, Get;
    match d
    case Nil => RunNone(c, st);
    case Text(text, rest) =>
      RunFirst(c, st, Data(text), Events(rest));
      DataGathers(c, st, text);
      InsideAnchor(c, Step(c, st, Data(text)), rest);
    case Elem(tag, attrs, kids, rest) =>
      RunElem(c, st, d);
      OtherTags(c, st, tag, attrs);
      var st1 := Step(c, st, Start(tag, attrs));
      InsideAnchor(c, st1, kids);
      var st2 := Run(c, st1, Events(kids));
      OtherTags(c, st2, tag, attrs);
      var st3 := Step(c, st2, End(tag));
      InsideAnchor(c, st3, rest);
      assert st3 == st.(pieces := st2.pieces);
      assert (Joined(st.pieces) + TextOf(kids)) + TextOf(rest) == Joined(st.pieces) + (TextOf(kids) + TextOf(rest));
    case Void(tag, attrs, rest) =>
      RunFirst(c, st, Start(tag, attrs), Events(rest));
      OtherTags(c, st, tag, attrs);
      InsideAnchor(c, st, rest);
  }

  lemma RunNone(c: Container, st: State)
    ensures Run(c, st, []) == st
  {
  }

  lemma DataGathers(c: Container, st: State, text: string)
    requires st.inA
    ensures var st' := Step(c, st, Data(text));
            st' == st.(pieces := st'.pieces) && Joined(st'.pieces) == Joined(st.pieces) + text
  {
    JoinedConcat(st.pieces, [text]);
    assert [text][1..] == [] && text + "" == text;
  }

  /** What inside the container does not change, anchors being closed. */
  predicate Within(a: State, b: State, found: seq<(string, string)>) {
    b.depth == a.depth && b.done == a.done && !b.inA && b.items == a.items + found
  }

  lemma WithinTwice(a: State, b: State, e: State, first: seq<(string, string)>, second: seq<(string, string)>)
    requires Within(a, b, first) && Within(b, e, second)
    ensures Within(a, e, first + second)
  {
  }

  /** Inside the container the anchors are collected, in order. */
  lemma {:induction false} InsideContainer(c: Container, st: State, d: Doc)
    requires Proper(d, c.tag, false) && st.depth > 0 && !st.inA
    ensures Within(st, Run(c, st, Events(d)), Anchors(d))
    decreases d, 1
  {
    hide Step, Run, Normalise;
    match d
    case Nil => RunNone(c, st);
    case Text(text, rest) =>
      RunFirst(c, st, Data(text), Events(rest));
      DataIgnored(c, st, text);
      InsideContainer(c, st, rest);
    case Elem(tag, attrs, kids, rest) =>
      RunElem(c, st, d);
      var st3 := Step(c, Run(c, Step(c, st, Start(tag, attrs)), Events(kids)), End(tag));
      if tag == "a" { AnchorCollected(c, st, attrs, kids); } else { OtherElement(c, st, d); }
      InsideContainer(c, st3, rest);
      WithinTwice(st, st3, Run(c, st3, Events(rest)), Anchors(Elem(tag, attrs, kids, Nil)), Anchors(rest));
    case Void(tag, attrs, rest) =>
      RunFirst(c, st, Start(tag, attrs), Events(rest));
      OtherTags(c, st, tag, attrs);
      InsideContainer(c, st, rest);
  }

  lemma DataIgnored(c: Container, st: State, text: string)
    requires !st.inA
    ensures Step(c, st, Data(text)) == st
  {
  }

  /** One anchor: its label is the text inside it, normalised. */
  lemma AnchorCollected(c: Container, st: State, attrs: Attrs, kids: Doc)
    requires Proper(kids, c.tag, true) && st.depth > 0 && !st.inA
    ensures Within(st, Step(c, Run(c, Step(c, st, Start("a", attrs)), Events(kids)), End("a")),
                   Anchors(Elem("a", attrs, kids, Nil)))
  {
    hide Run, Normalise, Get;
    var st1 := Step(c, st, Start("a", attrs));
    InsideAnchor(c, st1, kids);
    assert Joined([]) == "" && "" + TextOf(kids) == TextOf(kids);
  }

  lemma {:induction false} OtherElement(c: Container, st: State, d: Doc)
    requires d.Elem? && d.tag != "a" && Proper(d, c.tag, false) && st.depth > 0 && !st.inA
    ensures Within(st, Step(c, Run(c, Step(c, st, Start(d.tag, d.attrs)), Events(d.kids)), End(d.tag)),
                   Anchors(Elem(d.tag, d.attrs, d.kids, Nil)))
    decreases d, 0
  {
    hide Run, Step, Normalise;
    OtherTags(c, st, d.tag, d.attrs);
    var st1 := Step(c, st, Start(d.tag, d.attrs));
    InsideContainer(c, st1, d.kids);
    OtherTags(c, Run(c, st1, Events(d.kids)), d.tag, d.attrs);
    assert Anchors(d.kids) + [] == Anchors(d.kids);
  }

  /** After the first container nothing changes any more. */
  lemma {:induction false} AfterContainer(c: Container, st: State, d: Doc)
    requires st.depth == 0 && st.done && !st.inA
    ensures Run(c, st, Events(d)) == st
    decreases d
  {
    hide Normalise;
    match d
    case Nil =>
    case Text(text, rest) =>
      RunFirst(c, st, Data(text), Events(rest));
      AfterContainer(c, st, rest);
    case Elem(tag, attrs, kids, rest) =>
      RunElem(c, st, d);
      AfterContainer(c, st, kids);
      AfterContainer(c, st, rest);
    case Void(tag, attrs, rest) =>
      RunFirst(c, st, Start(tag, attrs), Events(rest));
      AfterContainer(c, st, rest);
  }

  /** What is proper inside an anchor is proper outside one. */
  lemma {:induction false} ProperAnywhere(d: Doc, tag: string)
    ensures Proper(d, tag, true) ==> Proper(d, tag, false)
    decreases d
  {
    match d
    case Nil =>
    case Text(_, rest) => ProperAnywhere(rest, tag);
    case Elem(t, _, kids, rest) => ProperAnywhere(kids, tag); ProperAnywhere(rest, tag);
    case Void(_, _, rest) => ProperAnywhere(rest, tag);
  }

  /** The first matching element: its anchors are collected and then nothing else. */
  lemma MatchedContainer(c: Container, st: State, d: Doc)
    requires d.Elem? && Proper(d, c.tag, false) && c.Matches(d.tag, d.attrs)
    requires st.depth == 0 && !st.done && !st.inA
    ensures var st' := Run(c, st, Events(d));
            st'.depth == 0 && st'.done && !st'.inA && st'.items == st.items + Anchors(d.kids)
  {
    hide Normalise;
    RunElem(c, st, d);
    ProperAnywhere(d.kids, c.tag);
    var st1 := st.(depth := 1);
    InsideContainer(c, st1, d.kids);
    AfterContainer(c, Step(c, Run(c, st1, Events(d.kids)), End(d.tag)), d.rest);
  }

  /** Before any container has matched: the first one that does decides everything. */
  lemma {:induction false} BeforeContainer(c: Container, st: State, d: Doc)
    requires Proper(d, c.tag, false) && st.depth == 0 && !st.done && !st.inA
    ensures var st', m := Run(c, st, Events(d)), FirstMatch(d, c);
            if m.None? then st' == st
            else st'.depth == 0 && st'.done && !st'.inA && st'.items == st.items + Anchors(m.value)
    decreases d
  {
    hide Normalise;
    match d
    case Nil =>
    case Text(text, rest) =>
      RunFirst(c, st, Data(text), Events(rest));
      BeforeContainer(c, st, rest);
    case Elem(tag, attrs, kids, rest) =>
      RunElem(c, st, d);
      if c.Matches(tag, attrs) {
        MatchedContainer(c, st, d);
      } else {
        ProperAnywhere(kids, c.tag);
        BeforeContainer(c, st, kids);
        var st2 := Run(c, st, Events(kids));
        if FirstMatch(kids, c).Some? { AfterContainer(c, st2, rest); } else { BeforeContainer(c, st, rest); }
      }
    case Void(tag, attrs, rest) =>
      RunFirst(c, st, Start(tag, attrs), Events(rest));
      BeforeContainer(c, st, rest);
  }

  /** On every well-nested document the handler ends up with exactly the anchors of the first matching container. */
  method Extract(c: Container, d: Doc) returns (items: seq<(string, string)>)
    requires Proper(d, c.tag, false)
    ensures items == match FirstMatch(d, c) case None => [] case Some(kids) => Anchors(kids)
  {
    var x := new Extractor(c.tag, c.cls);
    BeforeContainer(c, x.Now(), d);
    x.Feed(Events(d));
    items := x.items;
  }
}

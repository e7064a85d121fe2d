/** One regular-expression syntax, one printer and one meaning, shared by the pattern scanners
    (fuzz/fuzz_compat.cpp) and the pattern generator (fuzz/pcre2_differential.cpp). */
module Regex {
  import opened Decimal

  /** What follows an opening parenthesis. */
  datatype Open = Capture | NonCapture | Named(name: string) | Look(ahead: bool, negative: bool)

  datatype Op = Star | Plus | Opt | Exactly(n: nat) | AtLeast(n: nat) | Between(n: nat, m: nat)

  /** `Lit`, `Esc` and `Class` each consume one character; `Lit` holds the encoding of one character. */
  datatype Regex =
    | Eps
    | Lit(text: string)
    | Esc(c: char)
    | Class(items: string)
    | Anchor(text: string)
    | Cat(a: Regex, b: Regex)
    | Or(a: Regex, b: Regex)
    | Group(open: Open, body: Regex)
    | Rep(atom: Regex, op: Op, lazy: bool)

  // ---------------------------------------------------------------- printing

  function OpenText(o: Open): string {
    match o
    case Capture => "("
    case NonCapture => "(?:"
    case Named(name) => "(?<" + name + ">"
    case Look(ahead, negative) => (if ahead then "(?" else "(?<") + (if negative then "!" else "=")
  }

  function OpText(op: Op): (s: string)
    ensures s != "" && s[0] in "*+?{"
  {
    match op
    case Star => "*"
    case Plus => "+"
    case Opt => "?"
    case Exactly(n) => "{" + Numeral(n) + "}"
    case AtLeast(n) => "{" + Numeral(n) + ",}"
    case Between(n, m) => "{" + Numeral(n) + "," + Numeral(m) + "}"
  }

  function LazyText(lazy: bool): string { if lazy then "?" else "" }

  function Print(r: Regex): string {
    match r
    case Eps => ""
    case Lit(text) => text
    case Esc(c) => ['\\', c]
    case Class(items) => "[" + items + "]"
    case Anchor(text) => text
    case Cat(a, b) => Print(a) + Print(b)
    case Or(a, b) => Print(a) + "|" + Print(b)
    case Group(o, body) => OpenText(o) + Print(body) + ")"
    case Rep(a, op, lazy) => Print(a) + OpText(op) + LazyText(lazy)
  }

  // ---------------------------------------------------------------- well-formed terms

  predicate Plain(c: char) { c !in "\\[()|*+?{}^$" }

  /** A byte that continues a character of more than one byte (UTF8-tail in section 4 of RFC 3629). */
  predicate Continues(c: char) { 0x80 <= c as int <= 0xBF }

  /** How many bytes the UTF-8 encoding of a character takes, from the first of them; 0 where it cannot start one. */
  function BytesOf(lead: char): nat {
    var b := lead as int;
    if b <= 0x7F then 1 else if 0xC2 <= b <= 0xDF then 2 else if 0xE0 <= b <= 0xEF then 3 else if 0xF0 <= b <= 0xF4 then 4 else 0
  }

  /** The bytes of one character that needs no escape: its shortest encoding, and no surrogate. */
  predicate OneCharacter(s: string) {
    && s != "" && Plain(s[0]) && |s| == BytesOf(s[0])
    && (forall k :: 1 <= k < |s| ==> Continues(s[k]))
    && (s[0] == '\U{E0}' ==> s[1] >= '\U{A0}') && (s[0] == '\U{ED}' ==> s[1] <= '\U{9F}')
    && (s[0] == '\U{F0}' ==> s[1] >= '\U{90}') && (s[0] == '\U{F4}' ==> s[1] <= '\U{8F}')
  }

  predicate AllPlain(s: string) { forall k :: 0 <= k < |s| ==> Plain(s[k]) }

  lemma CharacterPlain(s: string)
    requires OneCharacter(s)
    ensures s != "" && AllPlain(s)
  {
  }

  predicate Alphanumeric(c: char) { IsDigit(c) || 'a' <= c <= 'z' || 'A' <= c <= 'Z' }

  predicate NameText(s: string) { s != "" && forall k :: 0 <= k < |s| ==> Alphanumeric(s[k]) || s[k] == '_' }

  /** An escape that stands for one character: a character class, a control escape or an identity escape. */
  predicate Consuming(c: char) { c in "dDwWsSnrtfv" || (!Alphanumeric(c) && c != '_') }

  /** The text between the brackets of a class: no bare `]`, and no dangling backslash. */
  predicate ClassText(s: string) {
    if s == "" then true
    else if s[0] == '\\' then |s| >= 2 && ClassText(s[2..])
    else s[0] != ']' && ClassText(s[1..])
  }

  predicate AnchorText(s: string) { s == "^" || s == "$" || s == "\\b" || s == "\\B" || s == "\\A" }

  predicate IsAtom(r: Regex) { r.Lit? || r.Esc? || r.Class? || r.Group? }

  /** Terms whose text parses back as themselves. Concatenation may nest either way; an alternation needs
      a group to stand under anything but another alternation; a repeat takes one atom, of one byte if literal. */
  predicate Valid(r: Regex) {
    match r
    case Eps => true
    case Lit(text) => OneCharacter(text)
    case Esc(c) => Consuming(c)
    case Class(items) => ClassText(items)
    case Anchor(text) => AnchorText(text)
    case Cat(a, b) => !a.Or? && !b.Or? && Valid(a) && Valid(b)
    case Or(a, b) => Valid(a) && Valid(b)
    case Group(o, body) => (o.Named? ==> NameText(o.name)) && Valid(body)
    case Rep(a, op, _) =>
      IsAtom(a) && Valid(a) && (a.Lit? ==> |a.text| == 1) && (op.Between? ==> op.n <= op.m)
  }

  /** Text that cannot be read as a quantifier of what precedes it, or as the end of one. */
  predicate Unquantified(s: string) { s == "" || s[0] !in "*+?{}" }

  /** Printed text never starts with a quantifier, so what precedes it keeps its own. */
  lemma {:induction false} PrintUnquantified(r: Regex)
    requires Valid(r)
    ensures Unquantified(Print(r))
    decreases r
  {
    match r
    case Cat(a, b) => PrintUnquantified(a); PrintUnquantified(b);
    case Or(a, b) => PrintUnquantified(a);
    case Rep(a, _, _) => AtomStart(a);
    case Lit(text) => assert Plain(text[0]);
    case _ =>
  }

  lemma AtomStart(r: Regex)
    requires Valid(r) && IsAtom(r)
    ensures Print(r) != "" && Print(r)[0] !in "*+?{}"
  {
    if r.Lit? { assert Plain(r.text[0]); }
  }

  lemma NameChar(c: char)
    requires Alphanumeric(c) || c == '_'
    ensures Plain(c)
  {
  }

  /** A cursor at the text of a concatenation, or of an alternation, sees the first part and then the rest. */
  lemma PartsText(a: Regex, b: Regex, rest: string)
    ensures Print(Cat(a, b)) + rest == Print(a) + (Print(b) + rest)
    ensures Print(Or(a, b)) + rest == Print(a) + ("|" + (Print(b) + rest))
  {
  }

  /** After its parenthesis an opener holds only plain characters, but for the question mark in second place. */
  lemma OpenerPlain(o: Open)
    requires o.Named? ==> NameText(o.name)
    ensures forall k :: 1 <= k < |OpenText(o)| ==> Plain(OpenText(o)[k]) || (k == 1 && OpenText(o)[k] == '?')
  {
    if o.Named? {
      var text := OpenText(o);
      assert text == "(?<" + o.name + ">";
      forall k | 1 <= k < |text| ensures Plain(text[k]) || (k == 1 && text[k] == '?') {
        if 3 <= k < |text| - 1 { NameChar(o.name[k - 3]); }
      }
    }
  }

  /** A quantifier's text holds digits, a comma and the characters of its kind. */
  lemma QuantifierChars(op: Op, lazy: bool)
    ensures var q := OpText(op) + LazyText(lazy); forall k :: 0 <= k < |q| ==> IsDigit(q[k]) || q[k] in "*+?{},"
    ensures !op.Star? && !op.Plus? ==> var q := OpText(op) + LazyText(lazy);
              forall k :: 0 <= k < |q| ==> IsDigit(q[k]) || q[k] in "?{},"
  {
  }

  // ---------------------------------------------------------------- meaning

  /** `consumes` gives the characters a one-character atom matches, by the atom's text; `holds` says where an
      anchor holds; a lenient reading lets every assertion hold, lookarounds included. */
  datatype Interp = Interp(consumes: (string, char) -> bool, holds: (string, string, int) -> bool, lenient: bool)

  predicate Allowed(op: Op, n: nat) {
    match op
    case Star => true
    case Plus => n >= 1
    case Opt => n <= 1
    case Exactly(k) => n == k
    case AtLeast(k) => n >= k
    case Between(k, m) => k <= n <= m
  }

  /** `r` matches the subject `s` from position `i` to position `j`. */
  ghost predicate Match(I: Interp, r: Regex, s: string, i: int, j: int)
    requires 0 <= i <= j <= |s|
    decreases r, 0
  {
    match r
    case Eps => i == j
    case Lit(_) => j == i + 1 && I.consumes(Print(r), s[i])
    case Esc(_) => j == i + 1 && I.consumes(Print(r), s[i])
    case Class(_) => j == i + 1 && I.consumes(Print(r), s[i])
    case Anchor(text) => i == j && (I.lenient || I.holds(text, s, i))
    case Cat(a, b) => exists k :: i <= k <= j && Match(I, a, s, i, k) && Match(I, b, s, k, j)
    case Or(a, b) => Match(I, a, s, i, j) || Match(I, b, s, i, j)
    case Group(Look(ahead, negative), body) =>
      i == j && (I.lenient || negative != if ahead then exists k :: i <= k <= |s| && Match(I, body, s, i, k)
                                          else exists k :: 0 <= k <= i && Match(I, body, s, k, i))
    case Group(_, body) => Match(I, body, s, i, j)
    case Rep(a, op, _) => exists n: nat :: Allowed(op, n) && MatchTimes(I, a, n, s, i, j)
  }

  /** `n` consecutive matches of `r` cover the subject from `i` to `j`. */
  ghost predicate MatchTimes(I: Interp, r: Regex, n: nat, s: string, i: int, j: int)
    requires 0 <= i <= j <= |s|
    decreases r, n + 1
  {
    if n == 0 then i == j
    else exists k :: i <= k <= j && Match(I, r, s, i, k) && MatchTimes(I, r, n - 1, s, k, j)
  }

  /** The empty word is in the language of `r`. */
  ghost predicate MatchesEmpty(I: Interp, r: Regex) { Match(I, r, "", 0, 0) }

  // ---------------------------------------------------------------- the empty word, syntactically

  predicate MinZero(op: Op) { op.Star? || op.Opt? || (!op.Plus? && op.n == 0) }

  predicate Nullable(r: Regex) {
    match r
    case Eps => true
    case Lit(_) => false
    case Esc(_) => false
    case Class(_) => false
    case Anchor(_) => true
    case Cat(a, b) => Nullable(a) && Nullable(b)
    case Or(a, b) => Nullable(a) || Nullable(b)
    case Group(o, body) => o.Look? || Nullable(body)
    case Rep(a, op, _) => MinZero(op) || Nullable(a)
  }

  /** Whatever the subject, the position and the way assertions evaluate, only a nullable term matches empty. */
  lemma {:induction false} EmptyMatchIsNullable(I: Interp, r: Regex, s: string, i: int)
    requires 0 <= i <= |s|
    requires Match(I, r, s, i, i)
    ensures Nullable(r)
    decreases r
  {
    match r
    case Cat(a, b) => EmptyMatchIsNullable(I, a, s, i); EmptyMatchIsNullable(I, b, s, i);
    case Or(a, b) =>
      if Match(I, a, s, i, i) { EmptyMatchIsNullable(I, a, s, i); } else { EmptyMatchIsNullable(I, b, s, i); }
    case Group(o, body) => if !o.Look? { EmptyMatchIsNullable(I, body, s, i); }
    case Rep(a, op, _) =>
      var n: nat :| Allowed(op, n) && MatchTimes(I, a, n, s, i, i);
      if n > 0 { EmptyMatchIsNullable(I, a, s, i); }
    case _ =>
  }

  /** Read leniently, a nullable term matches empty everywhere. */
  lemma {:induction false} NullableMatchesEmpty(I: Interp, r: Regex, s: string, i: int)
    requires 0 <= i <= |s| && I.lenient && Valid(r)
    requires Nullable(r)
    ensures Match(I, r, s, i, i)
    decreases r
  {
    match r
    case Cat(a, b) => NullableMatchesEmpty(I, a, s, i); NullableMatchesEmpty(I, b, s, i);
    case Or(a, b) =>
      if Nullable(a) { NullableMatchesEmpty(I, a, s, i); } else { NullableMatchesEmpty(I, b, s, i); }
    case Group(o, body) => if !o.Look? { NullableMatchesEmpty(I, body, s, i); }
    case Rep(a, op, _) =>
      if Nullable(a) {
        NullableMatchesEmpty(I, a, s, i);
        var n: nat := match op case Star => 0 case Plus => 1 case Opt => 0
                               case Exactly(k) => k case AtLeast(k) => k case Between(k, _) => k;
        EmptyIterations(I, a, n, s, i);
        assert Allowed(op, n);
      } else {
        assert Allowed(op, 0) && MatchTimes(I, a, 0, s, i, i);
      }
    case _ =>
  }

  lemma {:induction false} EmptyIterations(I: Interp, r: Regex, n: nat, s: string, i: int)
    requires 0 <= i <= |s| && Match(I, r, s, i, i)
    ensures MatchTimes(I, r, n, s, i, i)
  {
    if n > 0 { EmptyIterations(I, r, n - 1, s, i); }
  }

  /** The language of a valid term contains the empty word exactly when the term is nullable. */
  lemma EmptyWordIffNullable(I: Interp, r: Regex)
    requires I.lenient && Valid(r)
    ensures MatchesEmpty(I, r) <==> Nullable(r)
  {
    if MatchesEmpty(I, r) { EmptyMatchIsNullable(I, r, "", 0); }
    if Nullable(r) { NullableMatchesEmpty(I, r, "", 0); }
  }

  /** A body that cannot match empty bounds its own iterations by the text they cover. */
  lemma {:induction false} IterationsConsume(I: Interp, r: Regex, n: nat, s: string, i: int, j: int)
    requires 0 <= i <= j <= |s| && MatchTimes(I, r, n, s, i, j)
    requires !Nullable(r)
    ensures n <= j - i
    decreases n
  {
    if n > 0 {
      var k :| i <= k <= j && Match(I, r, s, i, k) && MatchTimes(I, r, n - 1, s, k, j);
      if k == i { EmptyMatchIsNullable(I, r, s, i); }
      IterationsConsume(I, r, n - 1, s, k, j);
    }
  }

  /** Why a nullable body is the dangerous one: a repeat of it can iterate without bound on no text at all
      exactly when the body matches the empty word. */
  lemma UnboundedIterationsIffEmpty(I: Interp, r: Regex)
    requires I.lenient && Valid(r)
    ensures MatchesEmpty(I, r) ==> forall n: nat :: MatchTimes(I, r, n, "", 0, 0)
    ensures !MatchesEmpty(I, r) ==> forall n: nat :: MatchTimes(I, r, n, "", 0, 0) ==> n == 0
  {
    EmptyWordIffNullable(I, r);
    forall n: nat
      ensures if MatchesEmpty(I, r) then MatchTimes(I, r, n, "", 0, 0) else MatchTimes(I, r, n, "", 0, 0) ==> n == 0
    {
      if MatchesEmpty(I, r) { EmptyIterations(I, r, n, "", 0); }
      else if MatchTimes(I, r, n, "", 0, 0) { IterationsConsume(I, r, n, "", 0, 0); }
    }
  }
}

/** Lines of text as the Python tools handle them: white space, stripping, prefixes. */
module Lines {

  /** The characters that count as white space in a Python string. */
  predicate IsSpace(c: char) {
    var n := c as int;
    9 <= n <= 13 || 28 <= n <= 32 || n == 0x85 || n == 0xA0 || n == 0x1680 || 0x2000 <= n <= 0x200A ||
    n == 0x2028 || n == 0x2029 || n == 0x202F || n == 0x205F || n == 0x3000
  }

  /** The white space of Python, character by character. */
  const BLANKS: string :=
    "\U{9}\U{A}\U{B}\U{C}\U{D}\U{1C}\U{1D}\U{1E}\U{1F}\U{20}\U{85}\U{A0}\U{1680}\U{2000}\U{2001}\U{2002}\U{2003}\U{2004}" +
    "\U{2005}\U{2006}\U{2007}\U{2008}\U{2009}\U{200A}\U{2028}\U{2029}\U{202F}\U{205F}\U{3000}"

  lemma BlanksAreSpace(c: char)
    ensures IsSpace(c) <==> c in BLANKS
  {
  }

  predicate AllSpace(s: string) { forall k :: 0 <= k < |s| ==> IsSpace(s[k]) }

  function Lstrip(s: string): (t: string)
    ensures |t| <= |s|
  {
    if s != "" && IsSpace(s[0]) then Lstrip(s[1..]) else s
  }

  function Rstrip(s: string): (t: string)
    ensures |t| <= |s|
  {
    if s != "" && IsSpace(s[|s| - 1]) then Rstrip(s[..|s| - 1]) else s
  }

  function Strip(s: string): (t: string)
  {
    Rstrip(Lstrip(s))
  }

  predicate StartsWith(s: string, p: string) { |p| <= |s| && s[..|p|] == p }

  predicate EndsWith(s: string, p: string) { |p| <= |s| && s[|s| - |p|..] == p }

  lemma {:induction false} LstripFacts(s: string)
    ensures Lstrip(s) == s[|s| - |Lstrip(s)|..] && AllSpace(s[..|s| - |Lstrip(s)|])
    ensures Lstrip(s) != "" ==> !IsSpace(Lstrip(s)[0])
  {
    hide IsSpace;
    if s != "" && IsSpace(s[0]) {
      var u, t := s[1..], Lstrip(s);
      LstripFacts(u);
      assert s[..|s| - |t|] == [s[0]] + u[..|u| - |t|] && s[|s| - |t|..] == u[|u| - |t|..];
    } else {
      assert s[..0] == "" && s[0..] == s;
    }
  }

  lemma {:induction false} RstripFacts(s: string)
    ensures Rstrip(s) <= s && AllSpace(s[|Rstrip(s)|..])
    ensures Rstrip(s) != "" ==> !IsSpace(Rstrip(s)[|Rstrip(s)| - 1])
  {
    hide IsSpace;
    var n, t := |s| - 1, Rstrip(s);
    if s != "" && IsSpace(s[n]) {
      RstripFacts(s[..n]);
      assert s[|t|..] == s[..n][|t|..] + [s[n]];
    } else {
      assert s[|s|..] == "";
    }
  }

  /** Stripped text has no blank at either end. */
  lemma StripFacts(s: string)
    ensures Strip(s) != "" ==> !IsSpace(Strip(s)[0]) && !IsSpace(Strip(s)[|Strip(s)| - 1])
  {
    LstripFacts(s);
    RstripFacts(Lstrip(s));
  }

  /** `p` occurs somewhere in `s`. */
  predicate Contains(s: string, p: string) { exists k :: 0 <= k <= |s| && StartsWith(s[k..], p) }

  lemma {:induction false} LstripSpaces(spaces: string, s: string)
    requires AllSpace(spaces) && (s == "" || !IsSpace(s[0]))
    ensures Lstrip(spaces + s) == s
    decreases |spaces|
  {
    if spaces == "" {
      assert spaces + s == s;
    } else {
      assert (spaces + s)[1..] == spaces[1..] + s;
      LstripSpaces(spaces[1..], s);
    }
  }

  /** Text between non-blank ends is what stripping leaves of it. */
  lemma StripSpaces(spaces: string, s: string)
    requires AllSpace(spaces) && s != "" && !IsSpace(s[0]) && !IsSpace(s[|s| - 1])
    ensures Strip(spaces + s) == s && Rstrip(spaces + s) == spaces + s
  {
    LstripSpaces(spaces, s);
  }
}

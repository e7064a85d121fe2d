/** `decode` and `split_tabs` of fuzz/fowler_compat.cpp: the escapes of the POSIX conformance files. */
module Fowler {
  import opened Wrappers
  import opened GroupReport
  import opened Text

  predicate IsHex(c: char) { '0' <= c <= '9' || 'a' <= c <= 'f' || 'A' <= c <= 'F' }

  predicate IsOctal(c: char) { '0' <= c <= '7' }

  function HexValue(c: char): (v: nat)
    requires IsHex(c)
    ensures v < 16
  {
    if c <= '9' then c as int - '0' as int else (if c <= 'F' then c as int - 'A' as int else c as int - 'a' as int) + 10
  }

  function OctalValue(c: char): (v: nat)
    requires IsOctal(c)
    ensures v < 8
  {
    c as int - '0' as int
  }

  /** The byte a number is truncated to. */
  function ToByte(v: nat): char { (v % 256) as char }

  /** At most `limit` hexadecimal digits from the head of `s`: the value accumulated onto `acc`, and how many. */
  function ReadHex(s: string, limit: nat, acc: nat): (x: (nat, nat))
    ensures x.1 <= limit && x.1 <= |s|
  {
    if limit == 0 || s == "" || !IsHex(s[0]) then (acc, 0)
    else var x := ReadHex(s[1..], limit - 1, acc * 16 + HexValue(s[0])); (x.0, x.1 + 1)
  }

  function ReadOctal(s: string, limit: nat, acc: nat): (x: (nat, nat))
    ensures x.1 <= limit && x.1 <= |s|
    ensures limit > 0 && s != "" && IsOctal(s[0]) ==> x.1 > 0
  {
    if limit == 0 || s == "" || !IsOctal(s[0]) then (acc, 0)
    else var x := ReadOctal(s[1..], limit - 1, acc * 8 + OctalValue(s[0])); (x.0, x.1 + 1)
  }

  /** The control characters with a letter of their own. */
  function Control(d: char): Option<char> {
    match d
    case 'n' => Some('\n')
    case 't' => Some('\t')
    case 'r' => Some('\r')
    case 'f' => Some('\U{C}')
    case 'v' => Some('\U{B}')
    case 'a' => Some('\U{7}')
    case '\\' => Some('\\')
    case _ => None
  }

  /** What the head of the text decodes to, and how much text that takes. */
  function Head(s: string, isPattern: bool): (x: (string, nat))
    requires s != ""
    ensures 1 <= |x.0| <= x.1 <= |s|
  {
    if s[0] != '\\' || |s| < 2 then ([s[0]], 1)
    else
      var d := s[1];
      if Control(d).Some? then ([Control(d).value], 2)
      else
        var (hex, n) := if d == 'x' then ReadHex(s[2..], 2, 0) else (0, 0);
        if n > 0 then ([ToByte(hex)], 2 + n)
        else if d == '0' || (!isPattern && '1' <= d <= '7') then
          var (octal, m) := ReadOctal(s[1..], 3, 0);
          ([ToByte(octal)], 1 + m)
        else (['\\', d], 2)
  }

  function Decode(s: string, isPattern: bool): (t: string)
    ensures |t| <= |s|
    decreases |s|
  {
    if s == "" then "" else var (t, n) := Head(s, isPattern); t + Decode(s[n..], isPattern)
  }

  lemma {:induction false} ReadHexStep(s: string, i: nat, limit: nat, acc: nat)
    requires i < |s| && limit > 0 && IsHex(s[i])
    ensures var x := ReadHex(Drop(s, i + 1), limit - 1, acc * 16 + HexValue(s[i]));
            ReadHex(Drop(s, i), limit, acc) == (x.0, x.1 + 1)
  {
    assert Drop(s, i)[1..] == Drop(s, i + 1);
  }

  lemma {:induction false} ReadOctalStep(s: string, i: nat, limit: nat, acc: nat)
    requires i < |s| && limit > 0 && IsOctal(s[i])
    ensures var x := ReadOctal(Drop(s, i + 1), limit - 1, acc * 8 + OctalValue(s[i]));
            ReadOctal(Drop(s, i), limit, acc) == (x.0, x.1 + 1)
  {
    assert Drop(s, i)[1..] == Drop(s, i + 1);
  }

  /** The decoder itself, over every text and in both modes. */
  method DecodeText(s: string, isPattern: bool) returns (out: string)
    ensures out == Decode(s, isPattern)
  {
    hide Head, Decode;
    out := "";
    var i: nat := 0;
    while i < |s|
      invariant i <= |s|
      invariant out + Decode(s[i..], isPattern) == Decode(s, isPattern)
    {
      var t, k := DecodeAt(s, i, isPattern);
      DecodeStep(s[i..], isPattern);
      assert s[i..][k - i..] == s[k..];
      assert out + (t + Decode(s[k..], isPattern)) == (out + t) + Decode(s[k..], isPattern);
      out := out + t;
      i := k;
    }
    assert s[i..] == "" && out + "" == out;
    DecodeNone(isPattern);
  }

  /** Up to two hexadecimal digits from `start`. */
  method HexAt(s: string, start: nat) returns (v: nat, k: nat)
    requires start <= |s|
    ensures start <= k <= |s| && (v, k - start) == ReadHex(Drop(s, start), 2, 0)
  {
    hide ReadHex, Drop, HexValue;
    var n: nat := 0;
    v, k := 0, start;
    ghost var all := ReadHex(Drop(s, start), 2, 0);
    while k < |s| && n < 2 && IsHex(s[k])
      invariant k <= |s| && n <= 2 && k == start + n
      invariant ReadHex(Drop(s, k), 2 - n, v) == (all.0, all.1 - n)
    {
      ReadHexStep(s, k, 2 - n, v);
      v := v * 16 + HexValue(s[k]);
      k := k + 1;
      n := n + 1;
    }
    HexEnds(s, k, 2 - n, v);
  }

  /** Up to three octal digits from `start`. */
  method OctalAt(s: string, start: nat) returns (v: nat, k: nat)
    requires start <= |s|
    ensures start <= k <= |s| && (v, k - start) == ReadOctal(Drop(s, start), 3, 0)
  {
    hide ReadOctal, Drop, OctalValue;
    var n: nat := 0;
    v, k := 0, start;
    ghost var all := ReadOctal(Drop(s, start), 3, 0);
    while k < |s| && n < 3 && IsOctal(s[k])
      invariant k <= |s| && n <= 3 && k == start + n
      invariant ReadOctal(Drop(s, k), 3 - n, v) == (all.0, all.1 - n)
    {
      ReadOctalStep(s, k, 3 - n, v);
      v := v * 8 + OctalValue(s[k]);
      k := k + 1;
      n := n + 1;
    }
    OctalEnds(s, k, 3 - n, v);
  }

  /** One turn of the loop: what is appended, and the index that follows. */
  method DecodeAt(s: string, i: nat, isPattern: bool) returns (t: string, k: nat)
    requires i < |s|
    ensures i < k <= |s| && (t, k - i) == Head(s[i..], isPattern)
  {
    hide ReadHex, ReadOctal, Control, ToByte;
    ghost var rest := s[i..];
    if s[i] == '\\' && i + 1 < |s| {
      var d := s[i + 1];
      assert rest[0] == s[i] && rest[1] == d && rest[1..] == Drop(s, i + 1) && rest[2..] == Drop(s, i + 2);
      if Control(d).Some? {
        return [Control(d).value], i + 2;
      }
      if d == 'x' {
        var v;
        v, k := HexAt(s, i + 2);
        if k > i + 2 {
          return [ToByte(v)], k;
        }
      }
      if d == '0' || (!isPattern && '1' <= d <= '7') {
        var v;
        v, k := OctalAt(s, i + 1);
        return [ToByte(v)], k;
      }
      return ['\\', d], i + 2;
    }
    return [s[i]], i + 1;
  }

  lemma HexEnds(s: string, k: nat, limit: nat, acc: nat)
    requires k <= |s| && (limit == 0 || k == |s| || !IsHex(s[k]))
    ensures ReadHex(Drop(s, k), limit, acc) == (acc, 0)
  {
  }

  lemma OctalEnds(s: string, k: nat, limit: nat, acc: nat)
    requires k <= |s| && (limit == 0 || k == |s| || !IsOctal(s[k]))
    ensures ReadOctal(Drop(s, k), limit, acc) == (acc, 0)
  {
  }

  // ---------------------------------------------------------------- concatenation

  /** The decoder's index stops at `i`: no escape of `s` straddles it. */
  predicate Boundary(s: string, i: nat, isPattern: bool)
    requires i <= |s|
    decreases |s|
  {
    i == 0 || var n := Head(s, isPattern).1; n <= i && Boundary(s[n..], i - n, isPattern)
  }

  lemma {:induction false} ReadHexPrefix(s: string, i: nat, limit: nat, acc: nat)
    requires i <= |s| && ReadHex(s, limit, acc).1 <= i
    ensures ReadHex(s[..i], limit, acc) == ReadHex(s, limit, acc)
    decreases limit
  {
    if limit > 0 && i > 0 && IsHex(s[0]) {
      CutAgain(s, i, 1);
      ReadHexPrefix(s[1..], i - 1, limit - 1, acc * 16 + HexValue(s[0]));
    }
  }

  lemma {:induction false} ReadOctalPrefix(s: string, i: nat, limit: nat, acc: nat)
    requires i <= |s| && ReadOctal(s, limit, acc).1 <= i
    ensures ReadOctal(s[..i], limit, acc) == ReadOctal(s, limit, acc)
    decreases limit
  {
    if limit > 0 && i > 0 && IsOctal(s[0]) {
      CutAgain(s, i, 1);
      ReadOctalPrefix(s[1..], i - 1, limit - 1, acc * 8 + OctalValue(s[0]));
    }
  }

  /** What comes after the head has no say in it. */
  lemma HeadPrefix(s: string, i: nat, isPattern: bool)
    requires s != "" && Head(s, isPattern).1 <= i <= |s|
    ensures Head(s[..i], isPattern) == Head(s, isPattern)
  {
    hide Control, ToByte;
    if s[0] == '\\' && |s| >= 2 {
      CutAgain(s, i, 1);
      CutAgain(s, i, 2);
      if ReadHex(s[2..], 2, 0).1 <= i - 2 { ReadHexPrefix(s[2..], i - 2, 2, 0); }
      if ReadOctal(s[1..], 3, 0).1 <= i - 1 { ReadOctalPrefix(s[1..], i - 1, 3, 0); }
    }
  }

  lemma DecodeStep(s: string, isPattern: bool)
    requires s != ""
    ensures var (t, n) := Head(s, isPattern); Decode(s, isPattern) == t + Decode(s[n..], isPattern)
  {
    hide Head;
  }

  /** Decoding distributes over concatenation, on every text and in both modes, wherever the text is cut between two
      escapes. */
  lemma {:induction false} DecodeDistributes(s: string, i: nat, isPattern: bool)
    requires i <= |s| && Boundary(s, i, isPattern)
    ensures Decode(s, isPattern) == Decode(s[..i], isPattern) + Decode(s[i..], isPattern)
    decreases |s|
  {
    hide Head, Decode;
    if i == 0 {
      DecodeNone(isPattern);
      assert s[0..] == s && s[..0] == "";
    } else {
      var (t, n) := Head(s, isPattern);
      HeadPrefix(s, i, isPattern);
      DecodeStep(s, isPattern);
      DecodeStep(s[..i], isPattern);
      CutAgain(s, i, n);
      DecodeDistributes(s[n..], i - n, isPattern);
      var a, b := Decode(s[n..][..i - n], isPattern), Decode(s[i..], isPattern);
      assert t + (a + b) == (t + a) + b;
    }
  }

  lemma CutAgain(s: string, i: nat, n: nat)
    requires n <= i <= |s|
    ensures s[..i][n..] == s[n..][..i - n] && s[n..][i - n..] == s[i..]
  {
  }

  lemma DecodeNone(isPattern: bool)
    ensures Decode("", isPattern) == ""
  {
  }

  // ---------------------------------------------------------------- every escape, spelt out

  /** One escape of `n` characters at the head of a text. */
  lemma EscapeDecodes(escape: string, rest: string, t: string, isPattern: bool)
    requires escape != "" && Head(escape + rest, isPattern) == (t, |escape|)
    ensures Decode(escape + rest, isPattern) == t + Decode(rest, isPattern)
  {
    hide Head;
    DecodeStep(escape + rest, isPattern);
    assert (escape + rest)[|escape|..] == rest;
  }

  /** The control escapes and the escaped backslash. */
  lemma ControlsDecode(rest: string, isPattern: bool)
    ensures Decode(['\\', 'n'] + rest, isPattern) == ['\n'] + Decode(rest, isPattern)
    ensures Decode(['\\', 't'] + rest, isPattern) == ['\t'] + Decode(rest, isPattern)
    ensures Decode(['\\', 'r'] + rest, isPattern) == ['\r'] + Decode(rest, isPattern)
    ensures Decode(['\\', 'f'] + rest, isPattern) == ['\U{C}'] + Decode(rest, isPattern)
    ensures Decode(['\\', 'v'] + rest, isPattern) == ['\U{B}'] + Decode(rest, isPattern)
    ensures Decode(['\\', 'a'] + rest, isPattern) == ['\U{7}'] + Decode(rest, isPattern)
    ensures Decode(['\\', '\\'] + rest, isPattern) == ['\\'] + Decode(rest, isPattern)
  {
    hide Decode;
    EscapeDecodes(['\\', 'n'], rest, ['\n'], isPattern);
    EscapeDecodes(['\\', 't'], rest, ['\t'], isPattern);
    EscapeDecodes(['\\', 'r'], rest, ['\r'], isPattern);
    EscapeDecodes(['\\', 'f'], rest, ['\U{C}'], isPattern);
    EscapeDecodes(['\\', 'v'], rest, ['\U{B}'], isPattern);
    EscapeDecodes(['\\', 'a'], rest, ['\U{7}'], isPattern);
    EscapeDecodes(['\\', '\\'], rest, ['\\'], isPattern);
  }

  /** Any other character keeps its backslash; in a pattern so do the digits from 1 on. */
  lemma OthersStay(d: char, rest: string, isPattern: bool)
    requires d !in "ntrfva\\x01234567" || (isPattern && d in "1234567")
    ensures Decode(['\\', d] + rest, isPattern) == ['\\', d] + Decode(rest, isPattern)
  {
    hide Decode;
    EscapeDecodes(['\\', d], rest, ['\\', d], isPattern);
  }

  const LOWER := "0123456789abcdef"
  const UPPER := "0123456789ABCDEF"

  /** `c` is the hexadecimal digit of value `v`, in either case. */
  predicate HexStands(c: char, v: nat) { v < 16 && (c == LOWER[v] || c == UPPER[v]) }

  predicate NoHexAhead(s: string) { s == "" || forall v: nat :: v < 16 ==> s[0] != LOWER[v] && s[0] != UPPER[v] }

  lemma HexDigits(c: char, v: nat)
    ensures HexStands(c, v) <==> IsHex(c) && HexValue(c) == v
  {
  }

  lemma NoHexDigit(s: string)
    requires NoHexAhead(s)
    ensures s == "" || !IsHex(s[0])
  {
    if s != "" && IsHex(s[0]) { HexDigits(s[0], HexValue(s[0])); }
  }

  /** Two hexadecimal digits, one before anything else, and none at all. */
  lemma HexDecodes(a: char, b: char, va: nat, vb: nat, rest: string, isPattern: bool)
    requires HexStands(a, va) && HexStands(b, vb)
    ensures Decode(['\\', 'x', a, b] + rest, isPattern) == [(16 * va + vb) as char] + Decode(rest, isPattern)
    ensures NoHexAhead(rest) ==> Decode(['\\', 'x', a] + rest, isPattern) == [va as char] + Decode(rest, isPattern)
    ensures NoHexAhead(rest) ==> Decode(['\\', 'x'] + rest, isPattern) == ['\\', 'x'] + Decode(rest, isPattern)
  {
    hide Decode, HexStands, NoHexAhead, HexValue, IsHex;
    HexDigits(a, va);
    HexDigits(b, vb);
    HexHeadTwo(a, b, rest, isPattern);
    EscapeDecodes(['\\', 'x', a, b], rest, [(16 * va + vb) as char], isPattern);
    if NoHexAhead(rest) {
      NoHexDigit(rest);
      HexHeadLess(a, rest, isPattern);
      EscapeDecodes(['\\', 'x', a], rest, [va as char], isPattern);
      EscapeDecodes(['\\', 'x'], rest, ['\\', 'x'], isPattern);
    }
  }

  lemma HexHeadTwo(a: char, b: char, rest: string, isPattern: bool)
    requires IsHex(a) && IsHex(b)
    ensures Head(['\\', 'x', a, b] + rest, isPattern) == ([(16 * HexValue(a) + HexValue(b)) as char], 4)
  {
    hide IsHex, HexValue;
    var s := ['\\', 'x', a, b] + rest;
    assert s[2..] == [a] + ([b] + rest) && s[2..][1..] == [b] + rest && ([b] + rest)[1..] == rest;
    assert ReadHex(rest, 0, 16 * HexValue(a) + HexValue(b)) == (16 * HexValue(a) + HexValue(b), 0);
    assert ReadHex([b] + rest, 1, HexValue(a)) == (16 * HexValue(a) + HexValue(b), 1);
    assert ReadHex(s[2..], 2, 0) == (16 * HexValue(a) + HexValue(b), 2);
  }

  lemma HexHeadLess(a: char, rest: string, isPattern: bool)
    requires IsHex(a) && (rest == "" || !IsHex(rest[0]))
    ensures Head(['\\', 'x', a] + rest, isPattern) == ([HexValue(a) as char], 3)
    ensures Head(['\\', 'x'] + rest, isPattern) == (['\\', 'x'], 2)
  {
    hide IsHex, HexValue;
    var s, t := ['\\', 'x', a] + rest, ['\\', 'x'] + rest;
    assert s[2..] == [a] + rest && s[2..][1..] == rest && t[2..] == rest;
    assert ReadHex(rest, 1, HexValue(a)) == (HexValue(a), 0) && ReadHex(rest, 2, 0) == (0, 0);
    assert ReadHex(s[2..], 2, 0) == (HexValue(a), 1);
  }

  /** `c` is the octal digit of value `v`. */
  predicate OctalStands(c: char, v: nat) { v < 8 && c == LOWER[v] }

  predicate NoOctalAhead(s: string) { s == "" || s[0] !in "01234567" }

  lemma OctalDigits(c: char, v: nat)
    ensures OctalStands(c, v) <==> IsOctal(c) && OctalValue(c) == v
  {
  }

  /** Three octal digits, cut to a byte, or two or one before anything else; in a pattern the first must be a zero. */
  lemma OctalDecodes(a: char, b: char, c: char, va: nat, vb: nat, vc: nat, rest: string, isPattern: bool)
    requires OctalStands(a, va) && OctalStands(b, vb) && OctalStands(c, vc) && (isPattern ==> va == 0)
    ensures Decode(['\\', a, b, c] + rest, isPattern) == [((64 * va + 8 * vb + vc) % 256) as char] + Decode(rest, isPattern)
    ensures NoOctalAhead(rest) ==> Decode(['\\', a, b] + rest, isPattern) == [(8 * va + vb) as char] + Decode(rest, isPattern)
    ensures NoOctalAhead(rest) ==> Decode(['\\', a] + rest, isPattern) == [va as char] + Decode(rest, isPattern)
  {
    hide Decode, OctalValue, IsOctal;
    OctalDigits(a, va);
    OctalDigits(b, vb);
    OctalDigits(c, vc);
    OctalHeadThree(a, b, c, rest, isPattern);
    EscapeDecodes(['\\', a, b, c], rest, [((64 * va + 8 * vb + vc) % 256) as char], isPattern);
    if NoOctalAhead(rest) {
      NoOctalDigit(rest);
      OctalHeadLess(a, b, rest, isPattern);
      EscapeDecodes(['\\', a, b], rest, [(8 * va + vb) as char], isPattern);
      EscapeDecodes(['\\', a], rest, [va as char], isPattern);
    }
  }

  lemma NoOctalDigit(s: string)
    requires NoOctalAhead(s)
    ensures s == "" || !IsOctal(s[0])
  {
  }

  lemma OctalHeadThree(a: char, b: char, c: char, rest: string, isPattern: bool)
    requires IsOctal(a) && IsOctal(b) && IsOctal(c) && (isPattern ==> OctalValue(a) == 0)
    ensures var v := 64 * OctalValue(a) + 8 * OctalValue(b) + OctalValue(c);
            Head(['\\', a, b, c] + rest, isPattern) == ([(v % 256) as char], 4)
  {
    var s, x, y, z := ['\\', a, b, c] + rest, OctalValue(a), OctalValue(b), OctalValue(c);
    assert s[1..] == [a, b, c] + rest && s[1..][1..] == [b, c] + rest;
    assert ([b, c] + rest)[1..] == [c] + rest && ([c] + rest)[1..] == rest;
    assert ReadOctal(rest, 0, 64 * x + 8 * y + z) == (64 * x + 8 * y + z, 0);
    assert ReadOctal([c] + rest, 1, 8 * x + y) == (64 * x + 8 * y + z, 1);
    assert ReadOctal([b, c] + rest, 2, x) == (64 * x + 8 * y + z, 2);
    assert ReadOctal(s[1..], 3, 0) == (64 * x + 8 * y + z, 3);
  }

  lemma OctalHeadLess(a: char, b: char, rest: string, isPattern: bool)
    requires IsOctal(a) && IsOctal(b) && (isPattern ==> OctalValue(a) == 0) && (rest == "" || !IsOctal(rest[0]))
    ensures Head(['\\', a, b] + rest, isPattern) == ([(8 * OctalValue(a) + OctalValue(b)) as char], 3)
    ensures Head(['\\', a] + rest, isPattern) == ([OctalValue(a) as char], 2)
  {
    var s, t, x, y := ['\\', a, b] + rest, ['\\', a] + rest, OctalValue(a), OctalValue(b);
    assert s[1..] == [a, b] + rest && s[1..][1..] == [b] + rest && ([b] + rest)[1..] == rest;
    assert t[1..] == [a] + rest && t[1..][1..] == rest;
    assert ReadOctal(rest, 1, 8 * x + y) == (8 * x + y, 0) && ReadOctal(rest, 2, x) == (x, 0);
    assert ReadOctal([b] + rest, 2, x) == (8 * x + y, 1);
    assert ReadOctal(s[1..], 3, 0) == (8 * x + y, 2) && ReadOctal(t[1..], 3, 0) == (x, 1);
  }

  // ---------------------------------------------------------------- escaping, undone

  predicate Bytes(s: string) { forall k :: 0 <= k < |s| ==> s[k] as int < 256 }

  function HexDigit(v: nat): (c: char)
    requires v < 16
    ensures IsHex(c) && HexValue(c) == v
  {
    if v < 10 then ('0' as int + v) as char else ('a' as int + v - 10) as char
  }

  function OctalDigit(v: nat): (c: char)
    requires v < 8
    ensures IsOctal(c) && OctalValue(c) == v && (c == '0' <==> v == 0)
  {
    ('0' as int + v) as char
  }

  function HexEscape(c: char): string
    requires c as int < 256
  {
    ['\\', 'x', HexDigit(c as int / 16), HexDigit(c as int % 16)]
  }

  function OctalEscape(c: char): string
    requires c as int < 256
  {
    ['\\', OctalDigit(c as int / 64), OctalDigit(c as int / 8 % 8), OctalDigit(c as int % 8)]
  }

  function HexEscapes(s: string): string
    requires Bytes(s)
  {
    if s == "" then "" else HexEscape(s[0]) + HexEscapes(s[1..])
  }

  function OctalEscapes(s: string): string
    requires Bytes(s)
  {
    if s == "" then "" else OctalEscape(s[0]) + OctalEscapes(s[1..])
  }

  lemma HexHead(c: char, rest: string, isPattern: bool)
    requires c as int < 256
    ensures Head(HexEscape(c) + rest, isPattern) == ([c], 4)
  {
    var s, v := HexEscape(c) + rest, c as int;
    var a, b := HexDigit(v / 16), HexDigit(v % 16);
    assert s[2..] == [a, b] + rest && s[2..][1..] == [b] + rest && s[2..][1..][1..] == rest;
    assert ReadHex(rest, 0, v) == (v, 0);
    assert ReadHex([b] + rest, 1, v / 16) == (v, 1);
    assert ReadHex(s[2..], 2, 0) == (v, 2);
  }

  lemma OctalHead(c: char, rest: string, isPattern: bool)
    requires c as int < 256 && (!isPattern || c as int < 64)
    ensures Head(OctalEscape(c) + rest, isPattern) == ([c], 4)
  {
    var s, v := OctalEscape(c) + rest, c as int;
    var a, b, d := OctalDigit(v / 64), OctalDigit(v / 8 % 8), OctalDigit(v % 8);
    assert s[1..] == [a, b, d] + rest && s[1..][1..] == [b, d] + rest;
    assert ([b, d] + rest)[1..] == [d] + rest && ([d] + rest)[1..] == rest;
    assert ReadOctal(rest, 0, v) == (v, 0);
    assert ReadOctal([d] + rest, 1, v / 8) == (v, 1);
    assert ReadOctal([b, d] + rest, 2, v / 64) == (v, 2);
    assert ReadOctal(s[1..], 3, 0) == (v, 3);
  }

  /** In either mode, decoding undoes hexadecimal escaping of any bytes, whatever text follows them. */
  lemma {:induction false} HexRoundTrip(s: string, rest: string, isPattern: bool)
    requires Bytes(s)
    ensures Decode(HexEscapes(s) + rest, isPattern) == s + Decode(rest, isPattern)
    decreases |s|
  {
    hide Head, HexEscape;
    if s == "" {
      assert HexEscapes(s) + rest == rest;
    } else {
      var tail := HexEscapes(s[1..]) + rest;
      assert HexEscapes(s) + rest == HexEscape(s[0]) + tail;
      HexHead(s[0], tail, isPattern);
      HexEscapeLength(s[0]);
      assert (HexEscape(s[0]) + tail)[4..] == tail;
      HexRoundTrip(s[1..], rest, isPattern);
      assert s == [s[0]] + s[1..];
    }
  }

  lemma HexEscapeLength(c: char)
    requires c as int < 256
    ensures |HexEscape(c)| == |OctalEscape(c)| == 4
  {
  }

  /** In text mode, decoding undoes three-digit octal escaping; in a pattern it does so for bytes below 64. */
  lemma {:induction false} OctalRoundTrip(s: string, rest: string, isPattern: bool)
    requires Bytes(s) && (isPattern ==> forall k :: 0 <= k < |s| ==> s[k] as int < 64)
    ensures Decode(OctalEscapes(s) + rest, isPattern) == s + Decode(rest, isPattern)
    decreases |s|
  {
    hide Head, OctalEscape;
    if s == "" {
      assert OctalEscapes(s) + rest == rest;
    } else {
      var tail := OctalEscapes(s[1..]) + rest;
      assert OctalEscapes(s) + rest == OctalEscape(s[0]) + tail;
      OctalHead(s[0], tail, isPattern);
      HexEscapeLength(s[0]);
      assert (OctalEscape(s[0]) + tail)[4..] == tail;
      OctalRoundTrip(s[1..], rest, isPattern);
      assert s == [s[0]] + s[1..];
    }
  }

  /** In a pattern a byte from 64 on keeps its escape: a backreference and two digits. */
  lemma OctalStaysInPattern(c: char, rest: string)
    requires 64 <= c as int < 256
    ensures Decode(OctalEscape(c) + rest, true) == OctalEscape(c) + Decode(rest, true)
  {
    hide Head;
    var s, v := OctalEscape(c) + rest, c as int;
    var a, b, d := OctalDigit(v / 64), OctalDigit(v / 8 % 8), OctalDigit(v % 8);
    BackreferenceHead(a, [b, d] + rest);
    assert s == ['\\', a] + ([b, d] + rest) && s[2..] == [b, d] + rest;
    PlainHead(b, [d] + rest, true);
    PlainHead(d, rest, true);
    assert [b, d] + rest == [b] + ([d] + rest);
  }

  lemma BackreferenceHead(d: char, rest: string)
    requires '1' <= d <= '9'
    ensures Head(['\\', d] + rest, true) == (['\\', d], 2)
  {
  }

  /** A character that is no backslash stands for itself, and so does a backslash at the end. */
  lemma PlainHead(c: char, rest: string, isPattern: bool)
    requires c != '\\' || rest == ""
    ensures Decode([c] + rest, isPattern) == [c] + Decode(rest, isPattern)
  {
    assert ([c] + rest)[1..] == rest;
  }

  /** What octal escaping decodes to in a pattern: bytes below 64 come back, the others stay escaped. */
  function PatternForm(s: string): (t: string)
    requires Bytes(s)
    ensures |t| >= |s|
    ensures |t| == |s| <==> forall k :: 0 <= k < |s| ==> s[k] as int < 64
  {
    if s == "" then ""
    else
      HexEscapeLength(s[0]);
      (if s[0] as int < 64 then [s[0]] else OctalEscape(s[0])) + PatternForm(s[1..])
  }

  lemma {:induction false} OctalInPattern(s: string)
    requires Bytes(s)
    ensures Decode(OctalEscapes(s), true) == PatternForm(s)
    decreases |s|
  {
    hide Head, OctalEscape;
    if s != "" {
      var tail := OctalEscapes(s[1..]);
      OctalInPattern(s[1..]);
      HexEscapeLength(s[0]);
      if s[0] as int < 64 {
        OctalHead(s[0], tail, true);
        assert (OctalEscape(s[0]) + tail)[4..] == tail;
      } else {
        OctalStaysInPattern(s[0], tail);
      }
    }
  }

  /** Three-digit octal escaping is undone in a pattern exactly when every byte is below 64. */
  lemma OctalInPatternIff(s: string)
    requires Bytes(s)
    ensures Decode(OctalEscapes(s), true) == s <==> forall k :: 0 <= k < |s| ==> s[k] as int < 64
  {
    OctalInPattern(s);
    if forall k :: 0 <= k < |s| ==> s[k] as int < 64 {
      OctalRoundTrip(s, "", true);
      assert OctalEscapes(s) + "" == OctalEscapes(s) && s + "" == s;
    }
  }

  // ---------------------------------------------------------------- fields

  function Glue(parts: seq<string>, c: char): string {
    if parts == [] then "" else if |parts| == 1 then parts[0] else parts[0] + [c] + Glue(parts[1..], c)
  }

  method SplitTabs(s: string) returns (v: seq<string>)
    ensures v == Split(s, '\t')
  {
    v := [];
    var cur := "";
    var whole := Split(s, '\t');
    assert s[0..] == s && cur + whole[0] == whole[0] && [] + [whole[0]] + whole[1..] == whole;
    for k := 0 to |s|
      invariant v + [cur + Split(s[k..], '\t')[0]] + Split(s[k..], '\t')[1..] == Split(s, '\t')
    {
      var rest := s[k..];
      assert rest[1..] == s[k + 1..];
      if s[k] == '\t' {
        assert cur + "" == cur;
        v := v + [cur];
        cur := "";
        assert "" + Split(s[k + 1..], '\t')[0] == Split(s[k + 1..], '\t')[0];
      } else {
        assert cur + ([s[k]] + Split(s[k + 1..], '\t')[0]) == (cur + [s[k]]) + Split(s[k + 1..], '\t')[0];
        cur := cur + [s[k]];
      }
    }
    assert s[|s|..] == "" && cur + "" == cur;
    v := v + [cur];
  }

  /** Joining on the separator inverts the split, and splitting inverts the join of fields without separators. */
  lemma {:induction false} SplitThenGlue(s: string, c: char)
    ensures Glue(Split(s, c), c) == s && forall k :: 0 <= k < |Split(s, c)| ==> c !in Split(s, c)[k]
    decreases |s|
  {
    if s != "" {
      var parts := Split(s[1..], c);
      SplitThenGlue(s[1..], c);
      if s[0] == c {
        assert ([""] + parts)[1..] == parts;
      } else if |parts| > 1 {
        assert ([[s[0]] + parts[0]] + parts[1..])[1..] == parts[1..];
      }
    }
  }

  lemma {:induction false} GlueThenSplit(parts: seq<string>, c: char)
    requires parts != [] && forall k :: 0 <= k < |parts| ==> c !in parts[k]
    ensures Split(Glue(parts, c), c) == parts
    decreases |parts|
  {
    if |parts| == 1 {
      SplitNone(parts[0], c);
    } else {
      GlueThenSplit(parts[1..], c);
      SplitFirst(parts[0], Glue(parts[1..], c), c);
      assert parts == [parts[0]] + parts[1..];
    }
  }

  lemma {:induction false} SplitFirst(a: string, b: string, c: char)
    requires c !in a
    ensures Split(a + [c] + b, c) == [a] + Split(b, c)
    decreases |a|
  {
    var s := a + [c] + b;
    if a == "" {
      assert s[1..] == b;
    } else {
      assert s[1..] == a[1..] + [c] + b;
      SplitFirst(a[1..], b, c);
      assert [a[0]] + a[1..] == a;
    }
  }
}

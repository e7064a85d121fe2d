/** UTF-8 as the fuzzers use it: the encoder of fuzz/fuzz_re2.cpp, the position test of
    fuzz/pcre2_differential.cpp and the offset conversions of fuzz/pcre2_arbiter.py (RFC 3629, sections 3 and 4). */
module Utf8 {
  import opened Wrappers

  type Bytes = seq<bv8>
  type Text = seq<bv32>

  /** A Unicode scalar value. */
  predicate Scalar(cp: bv32) { cp <= 0x10FFFF && !(0xD800 <= cp <= 0xDFFF) }

  predicate Scalars(t: Text) { forall k :: 0 <= k < |t| ==> Scalar(t[k]) }

  /** The conversion to a byte drops what does not fit. */
  function Byte(x: bv32): bv8 { (x & 0xFF) as bv8 }

  // The leading bytes by length, and the continuation bytes counted from the last one.
  function Lead2(cp: bv32): bv8 { Byte(0xC0 | (cp >> 6)) }
  function Lead3(cp: bv32): bv8 { Byte(0xE0 | (cp >> 12)) }
  function Lead4(cp: bv32): bv8 { Byte(0xF0 | (cp >> 18)) }
  function Cont0(cp: bv32): bv8 { Byte(0x80 | (cp & 0x3F)) }
  function Cont1(cp: bv32): bv8 { Byte(0x80 | ((cp >> 6) & 0x3F)) }
  function Cont2(cp: bv32): bv8 { Byte(0x80 | ((cp >> 12) & 0x3F)) }

  /** One code point, as the encoder writes it. */
  function Encode(cp: bv32): (b: Bytes)
    ensures 1 <= |b| <= 4
  {
    if cp < 0x80 then [Byte(cp)]
    else if cp < 0x800 then [Lead2(cp), Cont0(cp)]
    else if cp < 0x10000 then [Lead3(cp), Cont1(cp), Cont0(cp)]
    else [Lead4(cp), Cont2(cp), Cont1(cp), Cont0(cp)]
  }

  // ---------------------------------------------------------------- the standard's grammar

  predicate Tail(b: bv8) { 0x80 <= b <= 0xBF }

  /** The UTF8-char production, one alternative per line. */
  predicate WellFormed(b: Bytes) {
    || (|b| == 1 && b[0] <= 0x7F)
    || (|b| == 2 && 0xC2 <= b[0] <= 0xDF && Tail(b[1]))
    || (|b| == 3 && b[0] == 0xE0 && 0xA0 <= b[1] <= 0xBF && Tail(b[2]))
    || (|b| == 3 && 0xE1 <= b[0] <= 0xEC && Tail(b[1]) && Tail(b[2]))
    || (|b| == 3 && b[0] == 0xED && 0x80 <= b[1] <= 0x9F && Tail(b[2]))
    || (|b| == 3 && 0xEE <= b[0] <= 0xEF && Tail(b[1]) && Tail(b[2]))
    || (|b| == 4 && b[0] == 0xF0 && 0x90 <= b[1] <= 0xBF && Tail(b[2]) && Tail(b[3]))
    || (|b| == 4 && 0xF1 <= b[0] <= 0xF3 && Tail(b[1]) && Tail(b[2]) && Tail(b[3]))
    || (|b| == 4 && b[0] == 0xF4 && 0x80 <= b[1] <= 0x8F && Tail(b[2]) && Tail(b[3]))
  }

  /** How many bytes the character that starts with `b` takes. */
  function Length(b: bv8): (n: nat)
    ensures 1 <= n <= 4
  {
    if b < 0xC0 then 1 else if b < 0xE0 then 2 else if b < 0xF0 then 3 else 4
  }

  function Low(b: bv8): bv32 { (b & 0x3F) as bv32 }
  function Join2(x: bv8, y: bv8): bv32 { (((x & 0x1F) as bv32) << 6) | Low(y) }
  function Join3(x: bv8, y: bv8, z: bv8): bv32 { (((x & 0x0F) as bv32) << 12) | (Low(y) << 6) | Low(z) }
  function Join4(x: bv8, y: bv8, z: bv8, w: bv8): bv32 {
    (((x & 0x07) as bv32) << 18) | (Low(y) << 12) | (Low(z) << 6) | Low(w)
  }

  /** The number a well-formed character stands for: the free bits of its bytes, put together. */
  function Value(b: Bytes): bv32
    requires 1 <= |b| <= 4
  {
    if |b| == 1 then b[0] as bv32
    else if |b| == 2 then Join2(b[0], b[1])
    else if |b| == 3 then Join3(b[0], b[1], b[2])
    else Join4(b[0], b[1], b[2], b[3])
  }

  // The bits of one character, by length: encoding then reading, and reading then encoding.

  lemma Bits1(cp: bv32)
    requires cp < 0x80
    ensures Byte(cp) <= 0x7F && Byte(cp) as bv32 == cp
  {
  }

  lemma Bits2(cp: bv32)
    requires 0x80 <= cp < 0x800
    ensures 0xC2 <= Lead2(cp) <= 0xDF && Tail(Cont0(cp)) && Join2(Lead2(cp), Cont0(cp)) == cp
  {
  }

  lemma Bits3(cp: bv32)
    requires 0x800 <= cp < 0x10000
    ensures 0xE0 <= Lead3(cp) <= 0xEF && Tail(Cont1(cp)) && Tail(Cont0(cp))
    ensures (Lead3(cp) == 0xE0 ==> 0xA0 <= Cont1(cp)) && (cp < 0xD800 && Lead3(cp) == 0xED ==> Cont1(cp) <= 0x9F)
    ensures 0xDFFF < cp ==> 0xEE <= Lead3(cp)
  {
  }

  lemma Joined3(cp: bv32)
    requires 0x800 <= cp < 0x10000
    ensures Join3(Lead3(cp), Cont1(cp), Cont0(cp)) == cp
  {
  }

  lemma Bits4(cp: bv32)
    requires 0x10000 <= cp <= 0x10FFFF
    ensures 0xF0 <= Lead4(cp) <= 0xF4 && Tail(Cont2(cp)) && Tail(Cont1(cp)) && Tail(Cont0(cp))
    ensures (Lead4(cp) == 0xF0 ==> 0x90 <= Cont2(cp)) && (Lead4(cp) == 0xF4 ==> Cont2(cp) <= 0x8F)
  {
  }

  lemma Joined4(cp: bv32)
    requires 0x10000 <= cp <= 0x10FFFF
    ensures Join4(Lead4(cp), Cont2(cp), Cont1(cp), Cont0(cp)) == cp
  {
  }

  lemma Unbits2(x: bv8, y: bv8)
    requires 0xC2 <= x <= 0xDF && Tail(y)
    ensures var cp := Join2(x, y); 0x80 <= cp < 0x800 && Lead2(cp) == x && Cont0(cp) == y
  {
  }

  lemma Unbits3(x: bv8, y: bv8, z: bv8)
    requires 0xE0 <= x <= 0xEF && Tail(y) && Tail(z) && (x == 0xE0 ==> 0xA0 <= y) && (x == 0xED ==> y <= 0x9F)
    ensures var cp := Join3(x, y, z);
            0x800 <= cp < 0x10000 && !(0xD800 <= cp <= 0xDFFF) && Lead3(cp) == x && Cont1(cp) == y && Cont0(cp) == z
  {
  }

  lemma Unbits4(x: bv8, y: bv8, z: bv8, w: bv8)
    requires 0xF0 <= x <= 0xF4 && Tail(y) && Tail(z) && Tail(w) && (x == 0xF0 ==> 0x90 <= y) && (x == 0xF4 ==> y <= 0x8F)
    ensures var cp := Join4(x, y, z, w);
            0x10000 <= cp <= 0x10FFFF && Lead4(cp) == x && Cont2(cp) == y && Cont1(cp) == z && Cont0(cp) == w
  {
  }

  /** Every scalar value is written as the standard's grammar asks, and reads back. */
  lemma EncodeIsWellFormed(cp: bv32)
    requires Scalar(cp)
    ensures WellFormed(Encode(cp)) && Length(Encode(cp)[0]) == |Encode(cp)| && Value(Encode(cp)) == cp
  {
    hide Byte, Lead2, Lead3, Lead4, Cont0, Cont1, Cont2, Join2, Join3, Join4;
    if cp < 0x80 { Bits1(cp); }
    else if cp < 0x800 { Bits2(cp); }
    else if cp < 0x10000 { Bits3(cp); Joined3(cp); }
    else { Bits4(cp); Joined4(cp); }
  }

  /** Everything the grammar allows is the encoding of a scalar value: the encoder's image is exactly the grammar. */
  lemma WellFormedIsEncode(b: Bytes)
    requires WellFormed(b)
    ensures Scalar(Value(b)) && Encode(Value(b)) == b && Length(b[0]) == |b|
  {
    hide Byte, Lead2, Lead3, Lead4, Cont0, Cont1, Cont2, Join2, Join3, Join4;
    if |b| == 1 { ByteOfAscii(b[0]); }
    else if |b| == 2 { Unbits2(b[0], b[1]); }
    else if |b| == 3 { Unbits3(b[0], b[1], b[2]); }
    else { Unbits4(b[0], b[1], b[2], b[3]); }
  }

  lemma ByteOfAscii(b: bv8)
    requires b <= 0x7F
    ensures (b as bv32) < 0x80 && Byte(b as bv32) == b
  {
  }

  // ---------------------------------------------------------------- texts

  function EncodeAll(t: Text): (b: Bytes) { if t == [] then [] else Encode(t[0]) + EncodeAll(t[1..]) }

  /** Strict decoding: `None` where the bytes are not a sequence of well-formed characters. */
  function Decode(b: Bytes): Option<Text>
    decreases |b|
  {
    if b == [] then Some([])
    else
      var n := Length(b[0]);
      if n > |b| || !WellFormed(b[..n]) then None
      else match Decode(b[n..])
        case None => None
        case Some(t) => Some([Value(b[..n])] + t)
  }

  lemma DecodeFirst(cp: bv32, rest: Bytes)
    requires Scalar(cp)
    ensures Decode(Encode(cp) + rest) == match Decode(rest) case None => None case Some(t) => Some([cp] + t)
  {
    hide Encode, WellFormed, Value, Length;
    EncodeIsWellFormed(cp);
    var b, n := Encode(cp) + rest, |Encode(cp)|;
    assert b[..n] == Encode(cp) && b[n..] == rest;
  }

  /** Any concatenation of encodings decodes uniquely, to the text it came from. */
  lemma {:induction false} DecodeEncode(t: Text)
    requires Scalars(t)
    ensures Decode(EncodeAll(t)) == Some(t)
    decreases |t|
  {
    if t != [] {
      hide Decode, Encode;
      DecodeEncode(t[1..]);
      DecodeFirst(t[0], EncodeAll(t[1..]));
      assert [t[0]] + t[1..] == t;
    }
  }

  /** Strict decoding accepts nothing but encodings. */
  lemma {:induction false} EncodeDecode(b: Bytes)
    requires Decode(b).Some?
    ensures Scalars(Decode(b).value) && EncodeAll(Decode(b).value) == b
    decreases |b|
  {
    if b != [] {
      hide Encode, WellFormed, Value, Length, Scalar;
      var n := Length(b[0]);
      var head, rest := b[..n], b[n..];
      WellFormedIsEncode(head);
      EncodeDecode(rest);
      EncodeAllFirst(Value(head), Decode(rest).value);
      assert b == head + rest;
    }
  }

  lemma EncodeAllFirst(cp: bv32, t: Text)
    ensures EncodeAll([cp] + t) == Encode(cp) + EncodeAll(t)
  {
    assert ([cp] + t)[1..] == t;
  }

  /** No encoding of a scalar value is a proper prefix of another's. */
  lemma PrefixFree(cp: bv32, cq: bv32)
    requires Scalar(cp) && Scalar(cq) && Encode(cp) <= Encode(cq)
    ensures cp == cq
  {
    hide Encode, WellFormed, Value, Length;
    EncodeIsWellFormed(cp);
    EncodeIsWellFormed(cq);
    assert Encode(cp)[0] == Encode(cq)[0];
    assert Encode(cp) == Encode(cq)[..|Encode(cp)|] == Encode(cq);
  }

  // ---------------------------------------------------------------- positions

  /** The positions the differential compares at: the end, and every byte that does not continue a character. */
  predicate Kept(b: Bytes, p: nat)
    requires p <= |b|
  {
    !(p < |b| && b[p] & 0xC0 == 0x80)
  }

  lemma TailBits(b: bv8)
    ensures b & 0xC0 == 0x80 <==> Tail(b)
  {
  }

  lemma OnlyTailsContinue(cp: bv32, p: nat)
    requires Scalar(cp) && p < |Encode(cp)|
    ensures Encode(cp)[p] & 0xC0 == 0x80 <==> p > 0
  {
    hide Encode, Value;
    EncodeIsWellFormed(cp);
    TailBits(Encode(cp)[p]);
  }

  /** A kept position ends a whole number of characters. */
  lemma {:induction false} KeptIsPrefix(t: Text, p: nat) returns (k: nat)
    requires Scalars(t) && p <= |EncodeAll(t)| && Kept(EncodeAll(t), p)
    ensures k <= |t| && EncodeAll(t[..k]) == EncodeAll(t)[..p]
    decreases |t|
  {
    hide Encode;
    if p == 0 {
      k := 0;
    } else {
      var first, rest := Encode(t[0]), EncodeAll(t[1..]);
      assert EncodeAll(t) == first + rest;
      if p < |first| {
        OnlyTailsContinue(t[0], p);
        assert false;
      }
      assert p < |EncodeAll(t)| ==> EncodeAll(t)[p] == rest[p - |first|];
      var m := KeptIsPrefix(t[1..], p - |first|);
      k := m + 1;
      assert t[..k][1..] == t[1..][..m];
      assert (first + rest)[..p] == first + rest[..p - |first|];
    }
  }

  /** The end of a whole number of characters is a kept position. */
  lemma {:induction false} PrefixIsKept(t: Text, k: nat)
    requires Scalars(t) && k <= |t|
    ensures var p := |EncodeAll(t[..k])|;
            p <= |EncodeAll(t)| && EncodeAll(t)[..p] == EncodeAll(t[..k]) && Kept(EncodeAll(t), p)
    decreases |t|
  {
    hide Encode;
    if t == [] {
      assert t[..k] == [];
    } else {
      var first, rest := Encode(t[0]), EncodeAll(t[1..]);
      assert EncodeAll(t) == first + rest;
      if k == 0 {
        OnlyTailsContinue(t[0], 0);
        assert t[..0] == [] && EncodeAll(t)[0] == first[0];
      } else {
        PrefixIsKept(t[1..], k - 1);
        assert t[..k][1..] == t[1..][..k - 1];
        var q := |EncodeAll(t[1..][..k - 1])|;
        assert (first + rest)[..|first| + q] == first + rest[..q];
        assert |first| + q < |EncodeAll(t)| ==> EncodeAll(t)[|first| + q] == rest[q];
      }
    }
  }

  /** Anywhere else the bytes before the position do not decode. */
  lemma {:induction false} OtherwiseUndecodable(t: Text, p: nat)
    requires Scalars(t) && p <= |EncodeAll(t)| && !Kept(EncodeAll(t), p)
    ensures Decode(EncodeAll(t)[..p]).None?
    decreases |t|
  {
    hide Encode, WellFormed, Value, Length;
    var first, rest := Encode(t[0]), EncodeAll(t[1..]);
    assert EncodeAll(t) == first + rest;
    EncodeIsWellFormed(t[0]);
    OnlyTailsContinue(t[0], 0);
    assert EncodeAll(t)[0] == first[0] && p > 0;
    if p < |first| {
      assert EncodeAll(t)[..p][0] == first[0];
    } else {
      assert EncodeAll(t)[p] == rest[p - |first|];
      OtherwiseUndecodable(t[1..], p - |first|);
      assert (first + rest)[..p] == first + rest[..p - |first|];
      DecodeFirst(t[0], rest[..p - |first|]);
    }
  }

  /** The kept positions of an encoded subject are exactly the lengths of its encoded prefixes, and exactly the
      positions whose bytes-to-characters conversion succeeds. */
  lemma KeptPositions(t: Text, p: nat)
    requires Scalars(t) && p <= |EncodeAll(t)|
    ensures Kept(EncodeAll(t), p) <==> exists k :: 0 <= k <= |t| && |EncodeAll(t[..k])| == p
    ensures Kept(EncodeAll(t), p) <==> Decode(EncodeAll(t)[..p]).Some?
  {
    hide Decode, EncodeAll, Kept;
    if Kept(EncodeAll(t), p) {
      var k := KeptIsPrefix(t, p);
      DecodeEncode(t[..k]);
      assert 0 <= k <= |t| && |EncodeAll(t[..k])| == p;
    } else {
      OtherwiseUndecodable(t, p);
      if k :| 0 <= k <= |t| && |EncodeAll(t[..k])| == p { PrefixIsKept(t, k); assert false; }
    }
  }

  // ---------------------------------------------------------------- the arbiter's conversions

  function ToChars(subject: Text, p: nat): Option<nat>
    requires p <= |EncodeAll(subject)|
  {
    match Decode(EncodeAll(subject)[..p]) case None => None case Some(t) => Some(|t|)
  }

  function ToBytes(subject: Text, k: nat): nat
    requires k <= |subject|
  {
    |EncodeAll(subject[..k])|
  }

  /** At a kept position the byte offset becomes the number of characters before it, and back. */
  lemma BytesCharsBytes(subject: Text, p: nat)
    requires Scalars(subject) && p <= |EncodeAll(subject)| && Kept(EncodeAll(subject), p)
    ensures var k := ToChars(subject, p);
            k.Some? && k.value <= |subject| && ToBytes(subject, k.value) == p
  {
    hide Decode, EncodeAll, Kept;
    var k := KeptIsPrefix(subject, p);
    DecodeEncode(subject[..k]);
  }

  /** A character offset becomes a kept byte offset, and back. */
  lemma CharsBytesChars(subject: Text, k: nat)
    requires Scalars(subject) && k <= |subject|
    ensures var p := ToBytes(subject, k);
            p <= |EncodeAll(subject)| && Kept(EncodeAll(subject), p) && ToChars(subject, p) == Some(k)
  {
    hide Decode, EncodeAll, Kept;
    PrefixIsKept(subject, k);
    DecodeEncode(subject[..k]);
  }

  datatype Answer = Undecodable | NoMatch | Spans(groups: seq<Option<(nat, nat)>>)

  /** The engine asked for the reference answer: spans in characters, negative for an unset group. */
  type Engine = (Text, nat) -> Option<seq<(int, int)>>

  ghost predicate Sound(engine: Engine, subject: Text, groups: nat) {
    forall k: nat :: engine(subject, k).Some? ==>
      var spans := engine(subject, k).value;
      |spans| >= groups && forall g :: 0 <= g < groups && spans[g].0 >= 0 ==> spans[g].0 <= spans[g].1 <= |subject|
  }

  /** A byte span stands for a character span of the subject. */
  ghost predicate Translates(subject: Text, bytes: (nat, nat), chars: (int, int))
    requires Scalars(subject)
  {
    bytes.0 <= bytes.1 <= |EncodeAll(subject)| && 0 <= chars.0 <= chars.1 &&
    ToChars(subject, bytes.0) == Some(chars.0) && ToChars(subject, bytes.1) == Some(chars.1)
  }

  lemma {:induction false} ToBytesMonotone(subject: Text, a: nat, b: nat)
    requires a <= b <= |subject|
    ensures ToBytes(subject, a) <= ToBytes(subject, b)
    decreases |subject|
  {
    hide Encode;
    if a > 0 {
      ToBytesMonotone(subject[1..], a - 1, b - 1);
      assert subject[..a][1..] == subject[1..][..a - 1] && subject[..b][1..] == subject[1..][..b - 1];
    }
  }

  /** The differential counts bytes, the engine counts characters. */
  method ReferenceAnswer(engine: Engine, subject: Text, pos: nat, groups: nat) returns (r: Answer)
    requires Scalars(subject) && pos <= |EncodeAll(subject)| && Sound(engine, subject, groups)
    ensures r.Undecodable? <==> !Kept(EncodeAll(subject), pos)
    ensures !r.Undecodable? ==> var k := ToChars(subject, pos);
              k.Some? && k.value <= |subject| && ToBytes(subject, k.value) == pos &&
              (r.NoMatch? <==> engine(subject, k.value).None?) &&
              (r.Spans? ==> |r.groups| == groups && forall g :: 0 <= g < groups ==>
                 var span := engine(subject, k.value).value[g];
                 (r.groups[g].None? <==> span.0 < 0) &&
                 (r.groups[g].Some? ==> Translates(subject, r.groups[g].value, span)))
  {
    hide Decode, EncodeAll, Kept, ToBytes;
    KeptPositions(subject, pos);
    var before := Decode(EncodeAll(subject)[..pos]);
    if before.None? {
      return Undecodable;
    }
    BytesCharsBytes(subject, pos);
    var charPos := |before.value|;
    var m := engine(subject, charPos);
    if m.None? {
      return NoMatch;
    }
    var out: seq<Option<(nat, nat)>> := [];
    for g := 0 to groups
      invariant |out| == g
      invariant forall h :: 0 <= h < g ==> (out[h].None? <==> m.value[h].0 < 0)
      invariant forall h :: 0 <= h < g && out[h].Some? ==> Translates(subject, out[h].value, m.value[h])
    {
      var (start, end) := m.value[g];
      if start < 0 {
        out := out + [None];
      } else {
        CharsBytesChars(subject, start);
        CharsBytesChars(subject, end);
        ToBytesMonotone(subject, start, end);
        out := out + [Some((ToBytes(subject, start), ToBytes(subject, end)))];
      }
    }
    r := Spans(out);
  }

  // ---------------------------------------------------------------- order

  predicate BytesBefore(a: Bytes, b: Bytes) {
    b != [] && (a == [] || a[0] < b[0] || (a[0] == b[0] && BytesBefore(a[1..], b[1..])))
  }

  predicate TextBefore(a: Text, b: Text) {
    b != [] && (a == [] || a[0] < b[0] || (a[0] == b[0] && TextBefore(a[1..], b[1..])))
  }

  lemma {:induction false} DecidedAt(a: Bytes, b: Bytes, i: nat)
    requires i < |a| && i < |b| && a[..i] == b[..i] && a[i] < b[i]
    ensures BytesBefore(a, b)
    decreases i
  {
    if i > 0 {
      assert a[0] == a[..i][0] && b[0] == b[..i][0];
      assert a[1..][..i - 1] == a[..i][1..] && b[1..][..i - 1] == b[..i][1..];
      DecidedAt(a[1..], b[1..], i - 1);
    }
  }

  lemma {:induction false} BeforeIsStrict(a: Bytes, b: Bytes)
    requires BytesBefore(a, b)
    ensures !BytesBefore(b, a) && a != b
    decreases |a|
  {
    if a != [] && a[0] == b[0] { BeforeIsStrict(a[1..], b[1..]); }
  }

  lemma {:induction false} CommonPrefix(x: Bytes, a: Bytes, b: Bytes)
    ensures BytesBefore(x + a, x + b) == BytesBefore(a, b)
    decreases |x|
  {
    if x == [] {
      assert x + a == a && x + b == b;
    } else {
      assert (x + a)[1..] == x[1..] + a && (x + b)[1..] == x[1..] + b;
      CommonPrefix(x[1..], a, b);
    }
  }

  // For two code points of one length the bytes compare from the first, as the numbers do. The order is taken
  // weak, and made strict at the byte that differs.

  // `p` is at most `q` and they agree above the low bits.
  predicate Above6(p: bv32, q: bv32) { p <= q && p >> 6 == q >> 6 }
  predicate Above12(p: bv32, q: bv32) { p <= q && p >> 12 == q >> 12 }
  predicate Above18(p: bv32, q: bv32) { p <= q && p >> 18 == q >> 18 }

  lemma Byte1Monotone(p: bv32, q: bv32)
    requires p <= q < 0x80
    ensures Byte(p) <= Byte(q)
  {
  }

  lemma Lead2Monotone(p: bv32, q: bv32)
    requires 0x80 <= p <= q < 0x800
    ensures Lead2(p) <= Lead2(q) && (Lead2(p) == Lead2(q) ==> Above6(p, q))
  {
  }

  lemma Lead3Monotone(p: bv32, q: bv32)
    requires 0x800 <= p <= q < 0x10000
    ensures Lead3(p) <= Lead3(q) && (Lead3(p) == Lead3(q) ==> Above12(p, q))
  {
  }

  lemma Lead4Monotone(p: bv32, q: bv32)
    requires 0x10000 <= p <= q <= 0x10FFFF
    ensures Lead4(p) <= Lead4(q) && (Lead4(p) == Lead4(q) ==> Above18(p, q))
  {
  }

  lemma Cont2Monotone(p: bv32, q: bv32)
    requires Above18(p, q)
    ensures Cont2(p) <= Cont2(q) && (Cont2(p) == Cont2(q) ==> Above12(p, q))
  {
  }

  lemma Cont1Monotone(p: bv32, q: bv32)
    requires Above12(p, q)
    ensures Cont1(p) <= Cont1(q) && (Cont1(p) == Cont1(q) ==> Above6(p, q))
  {
  }

  lemma Cont0Monotone(p: bv32, q: bv32)
    requires Above6(p, q)
    ensures Cont0(p) <= Cont0(q)
  {
  }

  /** Two strings of bytes that compare weakly from the first differ, if at all, at a byte that is smaller. */
  predicate WeaklyBefore(a: Bytes, b: Bytes) {
    |a| == |b| && (a == [] || (a[0] <= b[0] && (a[0] == b[0] ==> WeaklyBefore(a[1..], b[1..]))))
  }

  lemma {:induction false} WeakThenStrict(a: Bytes, b: Bytes) returns (i: nat)
    requires WeaklyBefore(a, b) && a != b
    ensures i < |a| == |b| && a[..i] == b[..i] && a[i] < b[i]
    decreases |a|
  {
    if a[0] == b[0] {
      var j := WeakThenStrict(a[1..], b[1..]);
      i := j + 1;
      assert a[..i] == [a[0]] + a[1..][..j] && b[..i] == [b[0]] + b[1..][..j];
    } else {
      i := 0;
    }
  }

  lemma WeaklyCons(x: bv8, y: bv8, a: Bytes, b: Bytes)
    requires |a| == |b| && x <= y && (x == y ==> WeaklyBefore(a, b))
    ensures WeaklyBefore([x] + a, [y] + b)
  {
    assert ([x] + a)[1..] == a && ([y] + b)[1..] == b;
  }

  lemma Weakly2(p: bv32, q: bv32)
    requires 0x80 <= p <= q < 0x800
    ensures WeaklyBefore([Lead2(p)] + Conts0(p), [Lead2(q)] + Conts0(q))
  {
    hide Lead2, Conts0, Above6, WeaklyBefore;
    Lead2Monotone(p, q);
    if Lead2(p) == Lead2(q) { WeaklyConts0(p, q); }
    WeaklyCons(Lead2(p), Lead2(q), Conts0(p), Conts0(q));
  }

  // The continuation bytes of a character, from the last one, the last two and the last three.
  function Conts0(cp: bv32): (b: Bytes) ensures |b| == 1 { [Cont0(cp)] + [] }
  function Conts1(cp: bv32): (b: Bytes) ensures |b| == 2 { [Cont1(cp)] + Conts0(cp) }
  function Conts2(cp: bv32): (b: Bytes) ensures |b| == 3 { [Cont2(cp)] + Conts1(cp) }

  lemma WeaklyConts0(p: bv32, q: bv32)
    requires Above6(p, q)
    ensures WeaklyBefore(Conts0(p), Conts0(q))
  {
    hide Cont0, Above6, WeaklyBefore;
    Cont0Monotone(p, q);
    assert WeaklyBefore([], []) by { WeaklyNone(); }
    WeaklyCons(Cont0(p), Cont0(q), [], []);
  }

  lemma WeaklyNone()
    ensures WeaklyBefore([], [])
  {
  }

  lemma WeaklyConts1(p: bv32, q: bv32)
    requires Above12(p, q)
    ensures WeaklyBefore(Conts1(p), Conts1(q))
  {
    hide Cont1, Conts0, Above6, Above12, WeaklyBefore;
    Cont1Monotone(p, q);
    if Cont1(p) == Cont1(q) { WeaklyConts0(p, q); }
    WeaklyCons(Cont1(p), Cont1(q), Conts0(p), Conts0(q));
  }

  lemma WeaklyConts2(p: bv32, q: bv32)
    requires Above18(p, q)
    ensures WeaklyBefore(Conts2(p), Conts2(q))
  {
    hide Cont2, Conts1, Above12, Above18, WeaklyBefore;
    Cont2Monotone(p, q);
    if Cont2(p) == Cont2(q) { WeaklyConts1(p, q); }
    WeaklyCons(Cont2(p), Cont2(q), Conts1(p), Conts1(q));
  }

  lemma Weakly3(p: bv32, q: bv32)
    requires 0x800 <= p <= q < 0x10000
    ensures WeaklyBefore([Lead3(p)] + Conts1(p), [Lead3(q)] + Conts1(q))
  {
    hide Lead3, Conts1, Above12, WeaklyBefore;
    Lead3Monotone(p, q);
    if Lead3(p) == Lead3(q) { WeaklyConts1(p, q); }
    WeaklyCons(Lead3(p), Lead3(q), Conts1(p), Conts1(q));
  }

  lemma Weakly4(p: bv32, q: bv32)
    requires 0x10000 <= p <= q <= 0x10FFFF
    ensures WeaklyBefore([Lead4(p)] + Conts2(p), [Lead4(q)] + Conts2(q))
  {
    hide Lead4, Conts2, Above18, WeaklyBefore;
    Lead4Monotone(p, q);
    if Lead4(p) == Lead4(q) { WeaklyConts2(p, q); }
    WeaklyCons(Lead4(p), Lead4(q), Conts2(p), Conts2(q));
  }

  /** The encoder's output, as a leading byte and its continuation bytes. */
  lemma EncodeSplits(cp: bv32)
    ensures 0x80 <= cp < 0x800 ==> Encode(cp) == [Lead2(cp)] + Conts0(cp)
    ensures 0x800 <= cp < 0x10000 ==> Encode(cp) == [Lead3(cp)] + Conts1(cp)
    ensures 0x10000 <= cp ==> Encode(cp) == [Lead4(cp)] + Conts2(cp)
  {
    hide Lead2, Lead3, Lead4, Cont0, Cont1, Cont2;
  }

  lemma ShorterStartsLower(p: bv32, q: bv32)
    requires p <= q <= 0x10FFFF && |Encode(p)| != |Encode(q)|
    ensures Encode(p)[0] < Encode(q)[0]
  {
    hide Byte, Lead2, Lead3, Lead4, Cont0, Cont1, Cont2;
    if p < 0x80 { Bits1(p); } else if p < 0x800 { Bits2(p); } else if p < 0x10000 { Bits3(p); }
    if q < 0x80 { } else if q < 0x800 { Bits2(q); } else if q < 0x10000 { Bits3(q); } else { Bits4(q); }
  }

  lemma SmallerEncodesBefore(p: bv32, q: bv32) returns (i: nat)
    requires Scalar(p) && Scalar(q) && p <= q && p != q
    ensures i < |Encode(p)| && i < |Encode(q)| && Encode(p)[..i] == Encode(q)[..i] && Encode(p)[i] < Encode(q)[i]
  {
    hide Byte, Lead2, Lead3, Lead4, Cont0, Cont1, Cont2, Conts0, Conts1, Conts2, Value;
    if |Encode(p)| != |Encode(q)| {
      ShorterStartsLower(p, q);
      i := 0;
    } else {
      if q < 0x80 { Byte1Monotone(p, q); assert WeaklyBefore(Encode(p)[1..], Encode(q)[1..]); }
      else if q < 0x800 { Weakly2(p, q); } else if q < 0x10000 { Weakly3(p, q); } else { Weakly4(p, q); }
      EncodeSplits(p);
      EncodeSplits(q);
      EncodeIsWellFormed(p);
      EncodeIsWellFormed(q);
      i := WeakThenStrict(Encode(p), Encode(q));
    }
  }

  lemma FirstDecides(p: bv32, q: bv32, x: Bytes, y: Bytes)
    requires Scalar(p) && Scalar(q) && p <= q && p != q
    ensures BytesBefore(Encode(p) + x, Encode(q) + y) && !BytesBefore(Encode(q) + y, Encode(p) + x)
  {
    hide Encode;
    var i := SmallerEncodesBefore(p, q);
    var a, b := Encode(p) + x, Encode(q) + y;
    assert a[..i] == Encode(p)[..i] && b[..i] == Encode(q)[..i];
    DecidedAt(a, b, i);
    BeforeIsStrict(a, b);
  }

  /** The order of the bytes is the order of the code points. */
  lemma {:induction false} OrderPreserved(a: Text, b: Text)
    requires Scalars(a) && Scalars(b)
    ensures BytesBefore(EncodeAll(a), EncodeAll(b)) <==> TextBefore(a, b)
    decreases |a|
  {
    hide Encode, BytesBefore, TextBefore;
    TextStep(a, b);
    if a == [] || b == [] {
      EmptyComesFirst(EncodeAll(a), EncodeAll(b));
    } else {
      Weaken(a[0], b[0]);
      var x, y := EncodeAll(a[1..]), EncodeAll(b[1..]);
      if a[0] == b[0] {
        CommonPrefix(Encode(a[0]), x, y);
        OrderPreserved(a[1..], b[1..]);
      } else if a[0] < b[0] {
        FirstDecides(a[0], b[0], x, y);
      } else {
        FirstDecides(b[0], a[0], y, x);
      }
    }
  }

  lemma TextStep(a: Text, b: Text)
    ensures TextBefore(a, b) <==>
            b != [] && (a == [] || a[0] < b[0] || (a[0] == b[0] && TextBefore(a[1..], b[1..])))
    ensures a != [] && b != [] && a[0] < b[0] ==> a[0] != b[0]
  {
  }

  lemma Weaken(p: bv32, q: bv32)
    ensures p < q ==> p <= q
    ensures !(p < q) ==> q <= p
  {
  }

  lemma EmptyComesFirst(x: Bytes, y: Bytes)
    requires x == [] || y == []
    ensures BytesBefore(x, y) <==> x == [] && y != []
  {
  }
}

/** Unsigned decimal numerals, as they are printed in pattern text and in the differential's output. */
module Decimal {

  predicate IsDigit(c: char) { '0' <= c <= '9' }

  ghost predicate Digits(s: string) { forall k :: 0 <= k < |s| ==> IsDigit(s[k]) }

  function Digit(c: char): (v: nat)
    requires IsDigit(c)
  {
    c as int - '0' as int
  }

  /** The canonical numeral: no leading zero, except in "0" itself. */
  function Numeral(n: nat): (s: string)
    ensures s != "" && Digits(s)
    ensures s[0] == '0' <==> n == 0
  {
    var d := [('0' as int + n % 10) as char];
    if n < 10 then d else Numeral(n / 10) + d
  }

  /** The value of a digit string read from the left, starting at `acc`. */
  function Value(s: string, acc: nat): (v: nat)
    requires Digits(s)
  {
    if s == "" then acc else Value(s[1..], acc * 10 + Digit(s[0]))
  }

  lemma {:induction false} ValueConcat(a: string, b: string, acc: nat)
    requires Digits(a) && Digits(b)
    ensures Digits(a + b) && Value(a + b, acc) == Value(b, Value(a, acc))
    decreases |a|
  {
    if a == "" {
      assert a + b == b;
    } else {
      assert (a + b)[1..] == a[1..] + b;
      ValueConcat(a[1..], b, acc * 10 + Digit(a[0]));
    }
  }

  /** Reading a printed number gives the number back. */
  lemma {:induction false} NumeralRoundTrip(n: nat)
    ensures Value(Numeral(n), 0) == n
  {
    var d := [('0' as int + n % 10) as char];
    if n >= 10 {
      NumeralRoundTrip(n / 10);
      ValueConcat(Numeral(n / 10), d, 0);
      assert d[1..] == "";
    } else {
      assert d[1..] == "";
    }
  }

  /** Reading digits as far as they go: the value accumulated onto `acc`, and how many were read. */
  function Read(s: string, acc: nat): (x: (nat, nat))
    ensures x.1 <= |s|
  {
    if s == "" || !IsDigit(s[0]) then (acc, 0)
    else var x := Read(s[1..], acc * 10 + Digit(s[0])); (x.0, x.1 + 1)
  }

  lemma {:induction false} ReadDigits(d: string, rest: string, acc: nat)
    requires Digits(d) && (rest == "" || !IsDigit(rest[0]))
    ensures Read(d + rest, acc) == (Value(d, acc), |d|)
    decreases |d|
  {
    if d == "" {
      assert d + rest == rest;
    } else {
      assert (d + rest)[1..] == d[1..] + rest;
      ReadDigits(d[1..], rest, acc * 10 + Digit(d[0]));
    }
  }

  /** A printed number is read back whole wherever no digit follows it. */
  lemma ReadNumeral(n: nat, rest: string)
    requires rest == "" || !IsDigit(rest[0])
    ensures Read(Numeral(n) + rest, 0) == (n, |Numeral(n)|)
  {
    ReadDigits(Numeral(n), rest, 0);
    NumeralRoundTrip(n);
  }
}

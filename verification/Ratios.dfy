/** `displayed_interval` and `ratio_is_consistent` of benchmarks/verify_bench_ratios.py, over exact reals: whether a
    printed ratio can come from raw values that the two printed operands stand for. */
module Ratios {
  import opened Wrappers
  import opened Decimal

  /** A displayed decimal: its digits read as one number, and how many of them follow the point. */
  datatype Displayed = Displayed(digits: nat, decimals: nat)

  /** The text of a decimal: digits with at most one point among them; `None` where it is no number. */
  function Parse(text: string): Option<Displayed> {
    var whole := Leading(text);
    var rest := text[|whole|..];
    if rest == "" then if whole == "" then None else Some(Displayed(Value(whole, 0), 0))
    else
      var frac := Leading(rest[1..]);
      if rest[0] != '.' || |frac| + 1 != |rest| || (whole == "" && frac == "") then None
      else Some(Displayed(Value(whole + frac, 0), |frac|))
  }

  /** The digits a text starts with. */
  function Leading(text: string): (d: string)
    ensures Digits(d) && d <= text
    ensures |d| < |text| ==> !IsDigit(text[|d|])
  {
    if text == "" || !IsDigit(text[0]) then "" else [text[0]] + Leading(text[1..])
  }

  lemma {:induction false} LeadingDigits(d: string, rest: string)
    requires Digits(d) && (rest == "" || !IsDigit(rest[0]))
    ensures Leading(d + rest) == d
    decreases |d|
  {
    if d == "" {
      assert d + rest == rest;
    } else {
      assert (d + rest)[1..] == d[1..] + rest;
      LeadingDigits(d[1..], rest);
      assert [d[0]] + d[1..] == d;
    }
  }

  /** The texts that are numbers: digits alone, or digits around one point with at least one on either side. */
  ghost predicate Numeric(text: string, d: Displayed) {
    (text != "" && Digits(text) && d == Displayed(Value(text, 0), 0)) ||
    exists whole, frac :: Pointed(text, whole, frac) && d == Displayed(Value(whole + frac, 0), |frac|)
  }

  ghost predicate Pointed(text: string, whole: string, frac: string) {
    text == whole + "." + frac && Digits(whole) && Digits(frac) && whole + frac != ""
  }

  /** A decimal reads as its digits and how many follow the point, and nothing else is read. */
  lemma ParseDecimal(text: string, d: Displayed)
    ensures Parse(text) == Some(d) <==> Numeric(text, d)
  {
    hide Value, Leading;
    if Parse(text) == Some(d) {
      var whole := Leading(text);
      var rest := text[|whole|..];
      if rest == "" {
        assert text == whole;
      } else {
        var frac := Leading(rest[1..]);
        assert rest == "." + frac && text == whole + rest;
        assert Pointed(text, whole, frac);
      }
    }
    if Numeric(text, d) {
      if text != "" && Digits(text) && d == Displayed(Value(text, 0), 0) {
        ParseWhole(text);
      } else {
        var whole, frac :| Pointed(text, whole, frac) && d == Displayed(Value(whole + frac, 0), |frac|);
        ParsePointed(whole, frac);
      }
    }
  }

  lemma ParseWhole(text: string)
    requires text != "" && Digits(text)
    ensures Parse(text) == Some(Displayed(Value(text, 0), 0))
  {
    LeadingDigits(text, "");
    assert text + "" == text;
  }

  lemma ParsePointed(whole: string, frac: string)
    requires Digits(whole) && Digits(frac) && whole + frac != ""
    ensures Parse(whole + "." + frac) == Some(Displayed(Value(whole + frac, 0), |frac|))
  {
    var text := whole + ("." + frac);
    assert text == whole + "." + frac;
    LeadingDigits(whole, "." + frac);
    assert text[|whole|..] == "." + frac && ("." + frac)[1..] == frac;
    LeadingDigits(frac, "");
    assert frac + "" == frac;
  }

  function Scale(decimals: nat): (s: real)
    ensures s >= 1.0
  {
    if decimals == 0 then 1.0 else 10.0 * Scale(decimals - 1)
  }

  function Half(d: Displayed): real { 0.5 / Scale(d.decimals) }

  function Middle(d: Displayed): real { d.digits as real / Scale(d.decimals) }

  /** The bounds of the raw values behind a displayed decimal: the low one included, the high one not. */
  function Low(d: Displayed): real { Middle(d) - Half(d) }

  function High(d: Displayed): real { Middle(d) + Half(d) }

  predicate Within(x: real, d: Displayed) { Low(d) <= x < High(d) }

  /** The test itself. The lower end of an interval is never zero (see `Ends`), so both quotients exist. */
  predicate Consistent(eng: Displayed, rea: Displayed, shown: Displayed)
    requires Low(rea) != 0.0 && High(rea) != 0.0
  {
    High(shown) > Low(eng) / High(rea) && Low(shown) < High(eng) / Low(rea)
  }

  /** Some raw values, the measured time of REAL positive, that display as the three cells and satisfy the ratio. */
  ghost predicate Possible(eng: Displayed, rea: Displayed, shown: Displayed) {
    exists e: real, r: real :: Admissible(e, r, eng, rea, shown)
  }

  predicate Admissible(e: real, r: real, eng: Displayed, rea: Displayed, shown: Displayed) {
    r > 0.0 && Within(e, eng) && Within(r, rea) && Within(e / r, shown)
  }

  // ---------------------------------------------------------------- the interval

  lemma Ends(d: Displayed)
    ensures Half(d) > 0.0 && High(d) > 0.0 && High(d) == Low(d) + 2.0 * Half(d)
    ensures if d.digits == 0 then Low(d) == -Half(d) && High(d) == Half(d) else Low(d) > 0.0
  {
    var s := Scale(d.decimals);
    Quotient(0.5, s);
    if d.digits == 0 { assert 0.0 / s == 0.0; }
    else { LowerQuotient(d.digits as real, s); }
  }

  lemma Quotient(x: real, y: real)
    requires x > 0.0 && y > 0.0
    ensures x / y > 0.0
  {
  }

  lemma LowerQuotient(n: real, s: real)
    requires n >= 1.0 && s > 0.0
    ensures n / s > 0.5 / s
  {
    var q, h := n / s, 0.5 / s;
    assert q * s == n && h * s == 0.5;
    ScaleOrder(q, h, s);
  }

  /** The interval holds exactly the values that round to the displayed decimal, halves upward. */
  lemma IntervalIsRounding(x: real, d: Displayed)
    ensures Within(x, d) <==> (x * Scale(d.decimals) + 0.5).Floor == d.digits
  {
    var s, n := Scale(d.decimals), d.digits as real;
    var m, h := n / s, 0.5 / s;
    assert m * s == n && h * s == 0.5;
    ScaleOrder(m - h, x, s);
    ScaleOrder(x, m + h, s);
    ScaleOrder(m + h, x, s);
    assert (m - h) * s == n - 0.5 && (m + h) * s == n + 0.5;
  }

  /** A whole number stands for itself give or take a half; a digit more says ten times as much and moves the point: a
      zero leaves the middle where it was, and the width of the interval is a tenth. */
  lemma OneMoreDecimal(digits: nat, decimals: nat, digit: nat)
    ensures Middle(Displayed(digits, 0)) == digits as real && Half(Displayed(digits, 0)) == 0.5
    ensures Half(Displayed(10 * digits + digit, decimals + 1)) == Half(Displayed(digits, decimals)) / 10.0
    ensures digit == 0 ==> Middle(Displayed(10 * digits + digit, decimals + 1)) == Middle(Displayed(digits, decimals))
  {
    var s := Scale(decimals);
    assert Scale(decimals + 1) == 10.0 * s && (10 * digits) as real == 10.0 * digits as real;
    TenTimes(digits as real, s);
    TenTimes(0.05, s);
    assert (0.5 / s) / 10.0 == 0.05 / s by { Tenth(0.5, s); }
  }

  lemma TenTimes(x: real, s: real)
    requires s > 0.0
    ensures (10.0 * x) / (10.0 * s) == x / s
  {
    var q := x / s;
    assert q * s == x;
    QuotientOrder(10.0 * x, 10.0 * s, q);
    assert q * (10.0 * s) == 10.0 * (q * s);
  }

  lemma Tenth(x: real, s: real)
    requires s > 0.0
    ensures (x / s) / 10.0 == (x / 10.0) / s
  {
    var q := x / s;
    assert q * s == x;
    QuotientOrder(x / 10.0, s, q / 10.0);
    assert (q / 10.0) * s == (q * s) / 10.0;
  }

  /** The two examples that the source gives for its intervals. */
  lemma IntervalExamples()
    ensures Parse("0.21") == Some(Displayed(21, 2)) && Low(Displayed(21, 2)) == 0.205 && High(Displayed(21, 2)) == 0.215
    ensures Parse("0.205") == Some(Displayed(205, 3)) && Low(Displayed(205, 3)) == 0.2045 && High(Displayed(205, 3)) == 0.2055
  {
    hide Parse;
    ValueOf();
    ParsePointed("0", "21");
    ParsePointed("0", "205");
    assert "0" + "." + "21" == "0.21" && "0" + "." + "205" == "0.205" && "0" + "21" == "021" && "0" + "205" == "0205";
    assert Scale(1) == 10.0 && Scale(2) == 100.0 && Scale(3) == 1000.0;
  }

  lemma ValueOf()
    ensures Digits("0") && Digits("21") && Digits("205") && Digits("021") && Digits("0205")
    ensures Value("021", 0) == 21 && Value("0205", 0) == 205
  {
    assert "021"[1..] == "21" && "21"[1..] == "1" && "1"[1..] == "";
    assert "0205"[1..] == "205" && "205"[1..] == "05" && "05"[1..] == "5" && "5"[1..] == "";
    assert Value("1", 2) == 21 && Value("21", 0) == 21;
    assert Value("5", 20) == 205 && Value("05", 2) == 205 && Value("205", 0) == 205;
  }

  lemma ScaleOrder(a: real, b: real, s: real)
    requires s > 0.0
    ensures a <= b <==> a * s <= b * s
  {
    if a < b { assert (b - a) * s > 0.0; } else if a > b { assert (a - b) * s > 0.0; }
  }

  // ---------------------------------------------------------------- the test

  /** A quotient of positives compares as the product does. */
  lemma QuotientOrder(x: real, y: real, q: real)
    requires y > 0.0
    ensures x / y < q <==> x < q * y
    ensures x / y > q <==> x > q * y
    ensures x / y == q <==> x == q * y
  {
    var z := x / y;
    assert z * y == x;
    ScaleOrder(z, q, y);
    ScaleOrder(q, z, y);
  }

  /** A ratio of values within their bounds lies strictly above the quotient of the low bound by the high one. */
  lemma AboveLeast(e: real, r: real, low: real, high: real, most: real)
    requires 0.0 < r < high && low <= e && e / r < most && most > 0.0
    ensures most > low / high
  {
    QuotientOrder(low, high, most);
    QuotientOrder(e, r, most);
    ScaleOrder(r, high, most);
    assert most * r == r * most && most * high == high * most;
  }

  /** It lies strictly below the quotient of the high bound by the low one. */
  lemma BelowMost(e: real, r: real, low: real, high: real, least: real)
    requires 0.0 < low <= r && e < high && high > 0.0 && least <= e / r
    ensures least < high / low
  {
    QuotientOrder(high, low, least);
    QuotientOrder(e, r, least);
    if least > 0.0 {
      ScaleOrder(low, r, least);
      assert least * r == r * least && least * low == low * least;
    } else {
      ScaleOrder(least, 0.0, low);
    }
  }

  /** Every possible row is accepted, where REAL's cell shows more than zeros. */
  lemma PossibleIsConsistent(e: real, r: real, eng: Displayed, rea: Displayed, shown: Displayed)
    requires rea.digits > 0 && Admissible(e, r, eng, rea, shown)
    ensures Low(rea) != 0.0 && High(rea) != 0.0 && Consistent(eng, rea, shown)
  {
    hide Low, High;
    Ends(eng);
    Ends(rea);
    Ends(shown);
    AboveLeast(e, r, Low(eng), High(rea), High(shown));
    BelowMost(e, r, Low(rea), High(eng), Low(shown));
  }

  function Maximum(a: real, b: real): real { if a < b then b else a }

  function Minimum(a: real, b: real): real { if a < b then a else b }

  /** The least and the most a ratio may be are apart when both comparisons hold. */
  lemma BoundsMeet(le: real, he: real, rl: real, rh: real, sl: real, sh: real)
    requires le < he && he > 0.0 && 0.0 < rl < rh && sl < sh && sh > 0.0 && sh > le / rh && sl < he / rl
    ensures Maximum(Maximum(sl, le / rh), 0.0) < Minimum(sh, he / rl)
  {
    var y := he / rl;
    Quotient(he, rl);
    QuotientOrder(le, rh, y);
    assert y * rl == he;
    ScaleOrder(rl, rh, y);
    assert y * rl == rl * y && y * rh == rh * y;
  }

  /** The witness: a ratio strictly between the bounds, the least divisor large enough for it, their product. */
  lemma Witness(le: real, he: real, rl: real, rh: real, sl: real, sh: real) returns (e: real, r: real)
    requires le < he && he > 0.0 && 0.0 < rl < rh && sl < sh && sh > 0.0 && sh > le / rh && sl < he / rl
    ensures rl <= r < rh && le <= e < he && sl <= e / r < sh
  {
    var least := Maximum(Maximum(sl, le / rh), 0.0);
    BoundsMeet(le, he, rl, rh, sl, sh);
    var q := (least + Minimum(sh, he / rl)) / 2.0;
    assert q > 0.0 && q > le / rh && q < he / rl && sl <= q < sh;
    r, e := Divisor(le, he, rl, rh, q);
  }

  lemma Divisor(le: real, he: real, rl: real, rh: real, q: real) returns (r: real, e: real)
    requires le < he && 0.0 < rl < rh && q > 0.0 && q > le / rh && q < he / rl
    ensures rl <= r < rh && le <= e < he && e / r == q
  {
    var x := le / q;
    assert x * q == le;
    QuotientOrder(le, rh, q);
    QuotientOrder(he, rl, q);
    QuotientOrder(le, q, rh);
    assert q * rh == rh * q;
    r := Maximum(rl, x);
    e := q * r;
    ScaleOrder(x, r, q);
    assert q * r == r * q;
    QuotientOrder(e, r, q);
  }

  /** Every accepted row is possible. */
  lemma ConsistentHasWitness(eng: Displayed, rea: Displayed, shown: Displayed) returns (e: real, r: real)
    requires rea.digits > 0 && Low(rea) != 0.0 && High(rea) != 0.0 && Consistent(eng, rea, shown)
    ensures Admissible(e, r, eng, rea, shown)
  {
    hide Low, High;
    Ends(eng);
    Ends(rea);
    Ends(shown);
    e, r := Witness(Low(eng), High(eng), Low(rea), High(rea), Low(shown), High(shown));
  }

  /** Wherever REAL's cell shows a digit that is not zero, the test accepts exactly the possible rows. */
  lemma ConsistentIffPossible(eng: Displayed, rea: Displayed, shown: Displayed)
    requires rea.digits > 0
    ensures Low(rea) != 0.0 && High(rea) != 0.0
    ensures Consistent(eng, rea, shown) <==> Possible(eng, rea, shown)
  {
    Ends(rea);
    if Consistent(eng, rea, shown) {
      var e, r := ConsistentHasWitness(eng, rea, shown);
    }
    if Possible(eng, rea, shown) {
      var e: real, r: real :| Admissible(e, r, eng, rea, shown);
      PossibleIsConsistent(e, r, eng, rea, shown);
    }
  }

  /** Where REAL's cell shows only zeros: a row is possible when the engine's low end lies below the product of the
      two high ends, and accepted only when the shown cell is all zeros too and even the engine's high end lies below
      the product of the two half units. So every row that shows a ratio other than zero is refused, nothing
      impossible is accepted, and the test is right exactly on the rows it accepts and the impossible ones. */
  lemma ZeroCellExact(eng: Displayed, rea: Displayed, shown: Displayed)
    requires rea.digits == 0
    ensures Low(rea) != 0.0 && High(rea) != 0.0
    ensures Possible(eng, rea, shown) <==> Low(eng) < Half(rea) * High(shown)
    ensures Consistent(eng, rea, shown) <==> shown.digits == 0 && High(eng) < Half(rea) * Half(shown)
    ensures Consistent(eng, rea, shown) ==> Possible(eng, rea, shown)
    ensures (Consistent(eng, rea, shown) <==> Possible(eng, rea, shown)) <==>
            !Possible(eng, rea, shown) || (shown.digits == 0 && High(eng) < Half(rea) * Half(shown))
  {
    hide Low, High, Half;
    Ends(eng);
    Ends(rea);
    Ends(shown);
    QuotientOrder(Low(eng), High(rea), High(shown));
    ZeroUpper(High(eng), Half(rea), Low(shown));
    ZeroPossible(eng, rea, shown);
    var h, g := Half(rea), Half(shown);
    assert High(shown) * h == h * High(shown);
    if shown.digits == 0 {
      assert -Low(shown) * h == h * g;
    } else {
      Quotient(Low(shown), 1.0 / h);
      assert Low(shown) * h > 0.0;
    }
  }

  lemma ZeroPossible(eng: Displayed, rea: Displayed, shown: Displayed)
    requires rea.digits == 0
    ensures Possible(eng, rea, shown) <==> Low(eng) < Half(rea) * High(shown)
  {
    hide Low, High, Half, Admissible;
    Ends(rea);
    QuotientOrder(Low(eng), High(rea), High(shown));
    Commutes(High(shown), Half(rea));
    if Low(eng) < Half(rea) * High(shown) {
      var e, r := ZeroWitness(eng, rea, shown);
    }
    if e: real, r: real :| Admissible(e, r, eng, rea, shown) { ZeroNeeds(e, r, eng, rea, shown); }
  }

  lemma Commutes(x: real, y: real)
    ensures x * y == y * x
  {
  }

  lemma ZeroWitness(eng: Displayed, rea: Displayed, shown: Displayed) returns (e: real, r: real)
    requires rea.digits == 0 && High(rea) != 0.0 && High(shown) > Low(eng) / High(rea)
    ensures Admissible(e, r, eng, rea, shown)
  {
    hide Low, High, Half;
    Ends(eng);
    Ends(rea);
    Ends(shown);
    e, r := SmallTime(Low(eng), High(eng), High(rea), Low(shown), High(shown));
  }

  lemma ZeroNeeds(e: real, r: real, eng: Displayed, rea: Displayed, shown: Displayed)
    requires Admissible(e, r, eng, rea, shown) && High(rea) != 0.0
    ensures High(shown) > Low(eng) / High(rea)
  {
    hide Low, High;
    Ends(shown);
    AboveLeast(e, r, Low(eng), High(rea), High(shown));
  }

  /** A quotient by a negative number compares with the sign turned. */
  lemma ZeroUpper(high: real, half: real, low: real)
    requires half > 0.0
    ensures low < high / (-half) <==> high < -low * half
  {
    var z := high / (-half);
    assert z * (-half) == high;
    ScaleOrder(z, low, half);
    ScaleOrder(low, z, half);
  }

  /** With no lower bound on REAL's time but zero, every ratio above the least can be had. */
  lemma SmallTime(low: real, high: real, top: real, sl: real, sh: real) returns (e: real, r: real)
    requires low < high && high > 0.0 && top > 0.0 && sl < sh && sh > 0.0 && sh > low / top
    ensures 0.0 < r < top && low <= e < high && sl <= e / r < sh
  {
    var least := Maximum(Maximum(sl, low / top), 0.0);
    var q := (least + sh) / 2.0;
    QuotientOrder(low, top, q);
    QuotientOrder(low, q, top);
    Quotient(high, q);
    var floor := Maximum(low / q, 0.0);
    var ceiling := Minimum(high / q, top);
    QuotientOrder(low, q, high / q);
    QuotientOrder(high, q, high / q);
    assert q * top == top * q;
    assert floor < ceiling;
    r := (floor + ceiling) / 2.0;
    e := q * r;
    QuotientOrder(e, r, q);
    QuotientOrder(low, q, r);
    QuotientOrder(high, q, r);
    assert q * r == r * q;
  }

  /** The test on the cells' text; `None` where a cell is no number. */
  function RatioIsConsistent(engText: string, realText: string, shownText: string): Option<bool> {
    var eng, rea, shown := Parse(engText), Parse(realText), Parse(shownText);
    if eng.None? || rea.None? || shown.None? then None
    else
      Ends(rea.value);
      Some(Consistent(eng.value, rea.value, shown.value))
  }

  /** A possible row that the test refuses: 1.0 against 0.0, shown as 50.0. */
  lemma ZeroCellRefused()
    ensures RatioIsConsistent("1.0", "0.0", "50.0") == Some(false)
    ensures Possible(Displayed(10, 1), Displayed(0, 1), Displayed(500, 1))
  {
    hide Parse, Consistent, Possible, Low, High;
    OneDigit('1', 0);
    OneDigit('0', 0);
    OneDigit('5', 0);
    OneDigit('0', 5);
    ValueConcat("5", "0", 0);
    ParseShown("1", '0', 10);
    ParseShown("0", '0', 0);
    ParseShown("50", '0', 500);
    assert "1" + "." + ['0'] == "1.0" && "0" + "." + ['0'] == "0.0" && "50" + "." + ['0'] == "50.0" && "5" + "0" == "50";
    Refused();
  }

  lemma OnePlace(n: nat)
    ensures Low(Displayed(n, 1)) == (n as real - 0.5) / 10.0 && High(Displayed(n, 1)) == (n as real + 0.5) / 10.0
  {
    assert Scale(1) == 10.0;
  }

  lemma Refused()
    ensures var eng, rea, shown := Displayed(10, 1), Displayed(0, 1), Displayed(500, 1);
            Possible(eng, rea, shown) && Low(rea) != 0.0 && High(rea) != 0.0 && !Consistent(eng, rea, shown)
  {
    hide Low, High;
    var eng, rea, shown := Displayed(10, 1), Displayed(0, 1), Displayed(500, 1);
    OnePlace(10);
    OnePlace(0);
    OnePlace(500);
    assert Admissible(1.0, 0.02, eng, rea, shown);
  }

  lemma OneDigit(c: char, acc: nat)
    requires IsDigit(c)
    ensures Digits([c]) && Value([c], acc) == 10 * acc + Digit(c)
  {
    assert [c][1..] == "";
  }

  lemma ParseShown(whole: string, tenths: char, n: nat)
    requires Digits(whole) && whole != "" && IsDigit(tenths) && n == 10 * Value(whole, 0) + Digit(tenths)
    ensures Parse(whole + "." + [tenths]) == Some(Displayed(n, 1))
  {
    hide Parse, Value;
    ParsePointed(whole, [tenths]);
    ValueConcat(whole, [tenths], 0);
    OneDigit(tenths, Value(whole, 0));
  }
}

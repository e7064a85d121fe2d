/** `_linear_fit` of benchmarks/bench.py, over exact reals: the least-squares line and its R squared. */
module LinearFit {
  import opened Wrappers

  type Points = seq<(real, real)>

  datatype Fit = Fit(slope: real, intercept: real, r2: real)

  function SumX(ps: Points): real { if ps == [] then 0.0 else ps[0].0 + SumX(ps[1..]) }

  function SumY(ps: Points): real { if ps == [] then 0.0 else ps[0].1 + SumY(ps[1..]) }

  /** A product, named so that a proof can keep it whole. */
  function Times(x: real, y: real): real { x * y }

  function Square(x: real): real { Times(x, x) }

  function Sxx(ps: Points, mx: real): real { if ps == [] then 0.0 else Square(ps[0].0 - mx) + Sxx(ps[1..], mx) }

  function Syy(ps: Points, my: real): real { if ps == [] then 0.0 else Square(ps[0].1 - my) + Syy(ps[1..], my) }

  function Sxy(ps: Points, mx: real, my: real): real {
    if ps == [] then 0.0 else Times(ps[0].0 - mx, ps[0].1 - my) + Sxy(ps[1..], mx, my)
  }

  /** How far a point lies above the line of slope `a` and intercept `b`. */
  function Residual(p: (real, real), a: real, b: real): real { p.1 - (Times(a, p.0) + b) }

  /** The sum of the squared residuals. */
  function Residuals(ps: Points, a: real, b: real): real {
    if ps == [] then 0.0 else Square(Residual(ps[0], a, b)) + Residuals(ps[1..], a, b)
  }

  function MeanX(ps: Points): real
    requires ps != []
  {
    SumX(ps) / |ps| as real
  }

  function MeanY(ps: Points): real
    requires ps != []
  {
    SumY(ps) / |ps| as real
  }

  function Best(ps: Points): Fit
    requires ps != []
  {
    var mx, my := MeanX(ps), MeanY(ps);
    var sxx, sxy := Sxx(ps, mx), Sxy(ps, mx, my);
    var slope := if sxx != 0.0 then sxy / sxx else 0.0;
    var intercept := my - Times(slope, mx);
    var res, tot := Residuals(ps, slope, intercept), Syy(ps, my);
    Fit(slope, intercept, if tot != 0.0 then 1.0 - res / tot else 1.0)
  }

  /** The mean of no values is an error; every other input has a fit. */
  function LeastSquares(ps: Points): Option<Fit> { if ps == [] then None else Some(Best(ps)) }

  // ---------------------------------------------------------------- sums of squares

  lemma Positive(x: real, y: real)
    requires x > 0.0 && y > 0.0
    ensures Times(x, y) > 0.0 && Times(-x, -y) > 0.0
  {
  }

  lemma SquareNonNegative(x: real)
    ensures Square(x) >= 0.0 && (Square(x) == 0.0 <==> x == 0.0)
  {
    hide Times;
    if x > 0.0 { Positive(x, x); }
    else if x < 0.0 { Positive(-x, -x); }
    else { SquareZero(); }
  }

  lemma SquareZero()
    ensures Square(0.0) == 0.0
  {
  }

  lemma {:induction false} SxxZero(ps: Points, mx: real)
    ensures Sxx(ps, mx) >= 0.0
    ensures Sxx(ps, mx) == 0.0 <==> forall k :: 0 <= k < |ps| ==> ps[k].0 == mx
    decreases |ps|
  {
    if ps != [] {
      SquareNonNegative(ps[0].0 - mx);
      SxxZero(ps[1..], mx);
      assert forall k :: 1 <= k < |ps| ==> ps[k] == ps[1..][k - 1];
    }
  }

  lemma {:induction false} SyyZero(ps: Points, my: real)
    ensures Syy(ps, my) >= 0.0
    ensures Syy(ps, my) == 0.0 <==> forall k :: 0 <= k < |ps| ==> ps[k].1 == my
    decreases |ps|
  {
    if ps != [] {
      SquareNonNegative(ps[0].1 - my);
      SyyZero(ps[1..], my);
      assert forall k :: 1 <= k < |ps| ==> ps[k] == ps[1..][k - 1];
    }
  }

  /** The residuals sum to nothing exactly when every point is on the line. */
  lemma {:induction false} ResidualsZero(ps: Points, a: real, b: real)
    ensures Residuals(ps, a, b) >= 0.0
    ensures Residuals(ps, a, b) == 0.0 <==> forall k :: 0 <= k < |ps| ==> Residual(ps[k], a, b) == 0.0
    decreases |ps|
  {
    if ps != [] {
      SquareNonNegative(Residual(ps[0], a, b));
      ResidualsZero(ps[1..], a, b);
      assert forall k :: 1 <= k < |ps| ==> ps[k] == ps[1..][k - 1];
    }
  }

  lemma {:induction false} SxyZero(ps: Points, mx: real, my: real)
    requires (forall k :: 0 <= k < |ps| ==> ps[k].0 == mx) || (forall k :: 0 <= k < |ps| ==> ps[k].1 == my)
    ensures Sxy(ps, mx, my) == 0.0
    decreases |ps|
  {
    if ps != [] { SxyZero(ps[1..], mx, my); }
  }

  // ---------------------------------------------------------------- the sum of squares as a function of the line

  /** The sum of squared residuals of a line of slope `a` that passes `c` above the point of means, from the
      moments of the points about any two numbers. */
  function Moments(syy: real, sxy: real, sxx: real, sy: real, sx: real, n: real, a: real, c: real): real {
    syy - 2.0 * Times(a, sxy) + Times(Square(a), sxx) - 2.0 * Times(c, sy) + 2.0 * Times(Times(a, c), sx)
    + Times(n, Square(c))
  }

  lemma TimesAdd(k: real, u: real, v: real)
    ensures Times(k, u + v) == Times(k, u) + Times(k, v) && Times(k, u - v) == Times(k, u) - Times(k, v)
    ensures Times(u + v, k) == Times(u, k) + Times(v, k) && Times(u - v, k) == Times(u, k) - Times(v, k)
    ensures Times(u, v) == Times(v, u)
  {
  }

  lemma TimesAssociates(x: real, y: real, z: real)
    ensures Times(Times(x, y), z) == Times(x, Times(y, z))
  {
  }

  lemma TimesUnit(x: real)
    ensures Times(1.0, x) == x && Times(0.0, x) == 0.0 && Times(x, 0.0) == 0.0
  {
  }

  lemma SquareOfSum(x: real, y: real)
    ensures Square(x - y) == Square(x) - 2.0 * Times(x, y) + Square(y)
  {
    hide Times;
    TimesAdd(x - y, x, y);
    TimesAdd(x, x, y);
    TimesAdd(y, x, y);
  }

  /** One point's squared residual, in terms of its distances from the two numbers. */
  lemma OnePoint(x: real, y: real, mx: real, my: real, a: real, b: real, c: real)
    requires c == b + Times(a, mx) - my
    ensures var dx, dy := x - mx, y - my;
            Square(Residual((x, y), a, b)) == Moments(Square(dy), Times(dx, dy), Square(dx), dy, dx, 1.0, a, c)
  {
    hide Times, Square;
    var dx, dy := x - mx, y - my;
    var u := Times(a, dx);
    TimesAdd(a, x, mx);
    assert Residual((x, y), a, b) == (dy - u) - c;
    SquareOfSum(dy - u, c);
    SquareOfSum(dy, u);
    TimesAdd(c, dy, u);
    TimesAdd(0.0, dy - u, c);
    SquareOfProduct(a, dx);
    Products(a, dx, dy, c);
    TimesUnit(Square(c));
  }

  lemma SquareOfProduct(a: real, x: real)
    ensures Square(Times(a, x)) == Times(Square(a), Square(x))
  {
    hide Times;
    TimesAssociates(a, x, Times(a, x));
    TimesAssociates(x, a, x);
    TimesAdd(0.0, x, a);
    TimesAssociates(a, x, x);
    TimesAssociates(a, a, Times(x, x));
  }

  lemma Products(a: real, dx: real, dy: real, c: real)
    ensures Times(dy, Times(a, dx)) == Times(a, Times(dx, dy)) && Times(c, Times(a, dx)) == Times(Times(a, c), dx)
  {
    hide Times;
    TimesAdd(0.0, dy, Times(a, dx));
    TimesAssociates(a, dx, dy);
    TimesAssociates(c, a, dx);
    TimesAdd(0.0, c, a);
  }

  lemma MomentsAdd(syy: real, sxy: real, sxx: real, sy: real, sx: real, n: real,
                   tyy: real, txy: real, txx: real, ty: real, tx: real, m: real, a: real, c: real)
    ensures Moments(syy, sxy, sxx, sy, sx, n, a, c) + Moments(tyy, txy, txx, ty, tx, m, a, c) ==
            Moments(syy + tyy, sxy + txy, sxx + txx, sy + ty, sx + tx, n + m, a, c)
  {
    hide Times, Square;
    TimesAdd(a, sxy, txy);
    TimesAdd(Square(a), sxx, txx);
    TimesAdd(c, sy, ty);
    TimesAdd(Times(a, c), sx, tx);
    TimesAdd(Square(c), n, m);
  }

  lemma {:induction false} Expand(ps: Points, mx: real, my: real, a: real, b: real, sx: real, sy: real, c: real)
    requires sx == SumX(ps) - Times(|ps| as real, mx) && sy == SumY(ps) - Times(|ps| as real, my)
    requires c == b + Times(a, mx) - my
    ensures Residuals(ps, a, b) == Moments(Syy(ps, my), Sxy(ps, mx, my), Sxx(ps, mx), sy, sx, |ps| as real, a, c)
    decreases |ps|
  {
    hide Moments, Times, Square, Residual;
    if ps != [] {
      var rest, m := ps[1..], |ps[1..]| as real;
      var (x, y) := ps[0];
      var dx, dy := x - mx, y - my;
      assert |ps| as real == 1.0 + m;
      TimesAdd(mx, 1.0, m);
      TimesAdd(my, 1.0, m);
      TimesUnit(mx);
      TimesUnit(my);
      Expand(rest, mx, my, a, b, sx - dx, sy - dy, c);
      OnePoint(x, y, mx, my, a, b, c);
      MomentsAdd(Square(dy), Times(dx, dy), Square(dx), dy, dx, 1.0,
                 Syy(rest, my), Sxy(rest, mx, my), Sxx(rest, mx), sy - dy, sx - dx, m, a, c);
      assert dy + (sy - dy) == sy && dx + (sx - dx) == sx;
    } else {
      TimesUnit(mx);
      TimesUnit(my);
      NoMoments(a, c);
    }
  }

  lemma NoMoments(a: real, c: real)
    ensures Moments(0.0, 0.0, 0.0, 0.0, 0.0, 0.0, a, c) == 0.0
  {
  }

  lemma MeansTimesCount(ps: Points)
    requires ps != []
    ensures Times(|ps| as real, MeanX(ps)) == SumX(ps) && Times(|ps| as real, MeanY(ps)) == SumY(ps)
  {
  }

  /** About the means the cross terms vanish. */
  lemma AboutMeans(ps: Points, a: real, b: real, c: real)
    requires ps != [] && c == b + Times(a, MeanX(ps)) - MeanY(ps)
    ensures var mx, my := MeanX(ps), MeanY(ps);
            Residuals(ps, a, b) == Moments(Syy(ps, my), Sxy(ps, mx, my), Sxx(ps, mx), 0.0, 0.0, |ps| as real, a, c)
  {
    hide Moments, Times, MeanX, MeanY;
    MeansTimesCount(ps);
    Expand(ps, MeanX(ps), MeanY(ps), a, b, 0.0, 0.0, c);
  }

  // ---------------------------------------------------------------- the fit

  lemma FitThroughMeans(ps: Points)
    requires ps != []
    ensures var f := Best(ps); f.intercept + Times(f.slope, MeanX(ps)) - MeanY(ps) == 0.0
  {
  }

  /** The normal equation, with equal x values included. */
  lemma SlopeTimesSpread(ps: Points)
    requires ps != []
    ensures Times(Best(ps).slope, Sxx(ps, MeanX(ps))) == Sxy(ps, MeanX(ps), MeanY(ps))
  {
    var mx := MeanX(ps);
    if Sxx(ps, mx) == 0.0 {
      SxxZero(ps, mx);
      SxyZero(ps, mx, MeanY(ps));
    }
  }

  lemma Parabola(syy: real, sxy: real, sxx: real, n: real, a: real, c: real, s: real)
    requires Times(s, sxx) == sxy
    ensures Moments(syy, sxy, sxx, 0.0, 0.0, n, a, c) ==
            Moments(syy, sxy, sxx, 0.0, 0.0, n, s, 0.0) + Times(sxx, Square(a - s)) + Times(n, Square(c))
  {
    hide Times;
    SquareOfSum(a, s);
    TimesAdd(sxx, Square(a) - 2.0 * Times(a, s), Square(s));
    TimesAdd(sxx, Square(a), 2.0 * Times(a, s));
    TimesAdd(sxx, Times(a, s), Times(a, s));
    TimesAdd(0.0, sxx, Square(a));
    TimesAdd(0.0, sxx, Square(s));
    TimesAdd(0.0, sxx, Times(a, s));
    TimesAssociates(a, s, sxx);
    TimesAssociates(s, s, sxx);
    TimesUnit(c);
    TimesUnit(0.0);
    TimesUnit(Times(a, c));
    TimesUnit(Times(s, 0.0));
    TimesUnit(n);
  }

  /** Any line's sum exceeds the fit's by a sum of two squares: the difference in slope, weighted by the spread of
      the x values, and the distance from the point of means, weighted by the count. */
  lemma Excess(ps: Points, a: real, b: real)
    requires ps != []
    ensures var f, mx, my := Best(ps), MeanX(ps), MeanY(ps);
            Residuals(ps, a, b) == Residuals(ps, f.slope, f.intercept) + Times(Sxx(ps, mx), Square(a - f.slope))
                                   + Times(|ps| as real, Square(b + Times(a, mx) - my))
  {
    hide Moments, Residuals, Best, Times, Square, MeanX, MeanY;
    var f, mx, my := Best(ps), MeanX(ps), MeanY(ps);
    var c := b + Times(a, mx) - my;
    FitThroughMeans(ps);
    AboutMeans(ps, a, b, c);
    AboutMeans(ps, f.slope, f.intercept, 0.0);
    SlopeTimesSpread(ps);
    Parabola(Syy(ps, my), Sxy(ps, mx, my), Sxx(ps, mx), |ps| as real, a, c, f.slope);
  }

  lemma ProductNonNegative(x: real, y: real)
    requires x >= 0.0 && y >= 0.0
    ensures Times(x, y) >= 0.0
  {
  }

  /** On every input there is: no points and no fit, or no line with a smaller sum of squared residuals than the one
      returned. */
  lemma FitMinimises(ps: Points, a: real, b: real)
    ensures match LeastSquares(ps)
            case None => ps == []
            case Some(f) => Residuals(ps, f.slope, f.intercept) <= Residuals(ps, a, b)
  {
    if ps != [] { BestMinimises(ps, a, b); }
  }

  lemma BestMinimises(ps: Points, a: real, b: real)
    requires ps != []
    ensures var f := Best(ps); Residuals(ps, f.slope, f.intercept) <= Residuals(ps, a, b)
  {
    hide Best, Residuals, Square, Times, MeanX, MeanY;
    var f, mx := Best(ps), MeanX(ps);
    var c := b + Times(a, mx) - MeanY(ps);
    Excess(ps, a, b);
    SxxZero(ps, mx);
    SquareNonNegative(a - f.slope);
    SquareNonNegative(c);
    ProductNonNegative(Sxx(ps, mx), Square(a - f.slope));
    ProductNonNegative(|ps| as real, Square(c));
  }

  /** When the x values are not all equal it is the only line with that sum. */
  lemma FitIsUnique(ps: Points, a: real, b: real)
    requires ps != [] && exists k :: 0 <= k < |ps| && ps[k].0 != MeanX(ps)
    requires var f := Best(ps); Residuals(ps, a, b) == Residuals(ps, f.slope, f.intercept)
    ensures var f := Best(ps); a == f.slope && b == f.intercept
  {
    hide Best, Residuals, Square, Times, MeanX, MeanY;
    var f, mx := Best(ps), MeanX(ps);
    var c := b + Times(a, mx) - MeanY(ps);
    Excess(ps, a, b);
    SxxZero(ps, mx);
    SquareNonNegative(a - f.slope);
    SquareNonNegative(c);
    ProductNonNegative(Sxx(ps, mx), Square(a - f.slope));
    ProductNonNegative(|ps| as real, Square(c));
    if a != f.slope { Positive(Sxx(ps, mx), Square(a - f.slope)); }
    if c != 0.0 { Positive(|ps| as real, Square(c)); }
    FitThroughMeans(ps);
  }

  /** R squared lies between 0 and 1, and is 1 exactly when every point is on the line; equal x values and equal
      y values are included. */
  lemma RSquared(ps: Points)
    requires ps != []
    ensures var f := Best(ps);
            0.0 <= f.r2 <= 1.0 &&
            (f.r2 == 1.0 <==> forall k :: 0 <= k < |ps| ==> Residual(ps[k], f.slope, f.intercept) == 0.0)
  {
    var f, my := Best(ps), MeanY(ps);
    var res, tot := Residuals(ps, f.slope, f.intercept), Syy(ps, my);
    ResidualsZero(ps, f.slope, f.intercept);
    SyyZero(ps, my);
    BestMinimises(ps, 0.0, my);
    FlatLine(ps, my);
    assert 0.0 <= res <= tot;
    if tot != 0.0 { Ratio(res, tot); }
  }

  /** What R squared is where the y values are not all equal: the share of their spread that the line explains, and, where
      the x values are not all equal either, the square of the correlation. */
  lemma RSquaredIs(ps: Points)
    requires ps != []
    ensures var f, sxx, sxy, syy := Best(ps), Sxx(ps, MeanX(ps)), Sxy(ps, MeanX(ps), MeanY(ps)), Syy(ps, MeanY(ps));
            && (syy != 0.0 ==> f.r2 * syy == syy - Residuals(ps, f.slope, f.intercept))
            && (syy != 0.0 && sxx != 0.0 ==> f.r2 * syy * sxx == sxy * sxy)
            && (syy == 0.0 ==> f.r2 == 1.0)
  {
    hide Residuals, Sxx, Sxy, Syy, MeanX, MeanY, Times;
    var f, sxx, sxy, syy := Best(ps), Sxx(ps, MeanX(ps)), Sxy(ps, MeanX(ps), MeanY(ps)), Syy(ps, MeanY(ps));
    var res := Residuals(ps, f.slope, f.intercept);
    if syy != 0.0 {
      Share(res, syy);
      FitResiduals(ps);
      Explained(f.slope, sxx, sxy);
      assert f.r2 * syy == Times(f.slope, sxy);
    }
  }

  lemma Share(res: real, tot: real)
    requires tot != 0.0
    ensures (1.0 - res / tot) * tot == tot - res
  {
    var q := res / tot;
    assert q * tot == res;
  }

  /** The fit leaves the spread of the y values less what its slope explains. */
  lemma FitResiduals(ps: Points)
    requires ps != []
    ensures var f, mx, my := Best(ps), MeanX(ps), MeanY(ps);
            Residuals(ps, f.slope, f.intercept) == Syy(ps, my) - Times(f.slope, Sxy(ps, mx, my)) &&
            Times(f.slope, Sxx(ps, mx)) == Sxy(ps, mx, my)
  {
    hide Residuals, Best, Times, MeanX, MeanY, Sxx, Sxy, Syy;
    var f, mx, my := Best(ps), MeanX(ps), MeanY(ps);
    var s, sxx, sxy := f.slope, Sxx(ps, mx), Sxy(ps, mx, my);
    FitThroughMeans(ps);
    AboutMeans(ps, s, f.intercept, 0.0);
    SlopeTimesSpread(ps);
    TimesAssociates(s, s, sxx);
    TimesUnit(0.0);
    TimesUnit(Times(s, 0.0));
    TimesUnit(|ps| as real);
  }

  lemma Explained(slope: real, sxx: real, sxy: real)
    requires Times(slope, sxx) == sxy
    ensures Times(slope, sxy) * sxx == sxy * sxy
  {
  }

  lemma Ratio(res: real, tot: real)
    requires 0.0 <= res <= tot && tot > 0.0
    ensures 0.0 <= res / tot <= 1.0 && (res / tot == 0.0 <==> res == 0.0)
  {
    var q := res / tot;
    assert q * tot == res;
  }

  /** The sum about the mean is the sum for the flat line through it. */
  lemma {:induction false} FlatLine(ps: Points, my: real)
    ensures Residuals(ps, 0.0, my) == Syy(ps, my)
    decreases |ps|
  {
    if ps != [] { FlatLine(ps[1..], my); }
  }

  /** With equal x values the line is flat at the mean and explains nothing, unless the points coincide. */
  lemma EqualX(ps: Points)
    requires ps != [] && forall k :: 0 <= k < |ps| ==> ps[k].0 == ps[0].0
    ensures var f := Best(ps);
            f.slope == 0.0 && f.intercept == MeanY(ps) &&
            f.r2 == if forall k :: 0 <= k < |ps| ==> ps[k].1 == MeanY(ps) then 1.0 else 0.0
  {
    var mx, my := MeanX(ps), MeanY(ps);
    SumEqual(ps, ps[0].0);
    assert mx == ps[0].0;
    SxxZero(ps, mx);
    SyyZero(ps, my);
    FlatLine(ps, my);
  }

  lemma {:induction false} SumEqual(ps: Points, x: real)
    requires forall k :: 0 <= k < |ps| ==> ps[k].0 == x
    ensures SumX(ps) == Times(|ps| as real, x)
    decreases |ps|
  {
    if ps != [] {
      SumEqual(ps[1..], x);
      assert |ps| as real == |ps[1..]| as real + 1.0;
      TimesAdd(x, |ps[1..]| as real, 1.0);
      TimesUnit(x);
    }
  }
}

/** common/equations.go: straight lines fitted by (weighted) least squares.
    float64 is modelled as real; NaN, NaN, false is modelled as None. */
module LeastSquares {
  import opened Collections

  datatype Line = Line(slope: real, intercept: real)

  // ----- The sums that the loop accumulates -----

  datatype Moments = Moments(w: real, wx: real, wy: real, wxx: real, wxy: real)

  predicate SameLength(x: seq<real>, y: seq<real>, w: seq<real>) {
    |x| == |y| == |w|
  }

  // One more point.
  ghost function Extended(m: Moments, x: real, y: real, w: real): Moments {
    Moments(m.w + w, m.wx + w * x, m.wy + w * y, m.wxx + w * x * x, m.wxy + w * x * y)
  }

  ghost function MomentsOf(x: seq<real>, y: seq<real>, w: seq<real>, n: nat): Moments
    requires SameLength(x, y, w) && n <= |x|
  {
    if n == 0 then Moments(0.0, 0.0, 0.0, 0.0, 0.0)
    else Extended(MomentsOf(x, y, w, n - 1), x[n - 1], y[n - 1], w[n - 1])
  }

  // Sw*Swxx - Swx^2, the denominator of the slope.
  function Determinant(m: Moments): real {
    m.w * m.wxx - m.wx * m.wx
  }

  // ----- What is to be minimised -----

  function Times(a: real, b: real): real {
    a * b
  }

  function Square(a: real): real {
    Times(a, a)
  }

  lemma TimesSign(a: real, b: real)
    ensures a > 0.0 && b > 0.0 ==> Times(a, b) > 0.0
    ensures a < 0.0 && b < 0.0 ==> Times(a, b) > 0.0
    ensures a == 0.0 ==> Times(a, b) == 0.0
  {
  }

  lemma SquareSign(a: real)
    ensures Square(a) >= 0.0
    ensures a == 0.0 ==> Square(a) == 0.0
    ensures Square(a) == 0.0 ==> a == 0.0
  {
    hide Times;
    TimesSign(a, a);
  }

  function Residual(x: real, y: real, line: Line): real {
    y - (line.slope * x + line.intercept)
  }

  ghost function SquaredResidual(x: seq<real>, y: seq<real>, w: seq<real>, n: nat, line: Line): real
    requires SameLength(x, y, w) && n <= |x|
  {
    if n == 0 then 0.0
    else SquaredResidual(x, y, w, n - 1, line) + w[n - 1] * Square(Residual(x[n - 1], y[n - 1], line))
  }

  ghost predicate Nonnegative(w: seq<real>) {
    forall i :: 0 <= i < |w| ==> w[i] >= 0.0
  }

  // ----- The determinant is a sum over pairs of points -----

  // The pairs that point j forms with the first n points.
  ghost function PairsWith(x: seq<real>, w: seq<real>, n: nat, j: nat): real
    requires |x| == |w| && n <= |x| && j < |x|
  {
    if n == 0 then 0.0
    else PairsWith(x, w, n - 1, j) + w[n - 1] * w[j] * Square(x[n - 1] - x[j])
  }

  ghost function Pairs(x: seq<real>, w: seq<real>, n: nat): real
    requires |x| == |w| && n <= |x|
  {
    if n == 0 then 0.0 else Pairs(x, w, n - 1) + PairsWith(x, w, n - 1, n - 1)
  }

  // The weighted squared distance of the points from the column at b.
  ghost function Spread(m: Moments, b: real): real {
    m.wxx - 2.0 * b * m.wx + b * b * m.w
  }

  lemma SpreadExtends(m: Moments, x: real, y: real, w: real, b: real)
    ensures Spread(Extended(m, x, y, w), b) == Spread(m, b) + w * Square(x - b)
  {
  }

  lemma {:induction false} PairsWithMoments(x: seq<real>, y: seq<real>, w: seq<real>, n: nat, j: nat)
    requires SameLength(x, y, w) && n <= |x| && j < |x|
    ensures PairsWith(x, w, n, j) == w[j] * Spread(MomentsOf(x, y, w, n), x[j])
  {
    hide Square, Extended;
    if n == 0 {
    } else {
      hide Spread;
      var m, i := MomentsOf(x, y, w, n - 1), n - 1;
      PairsWithMoments(x, y, w, n - 1, j);
      SpreadExtends(m, x[i], y[i], w[i], x[j]);
      Distribute(w[j], Spread(m, x[j]), w[i], Square(x[i] - x[j]));
    }
  }

  lemma Distribute(u: real, s: real, v: real, q: real)
    ensures u * (s + v * q) == u * s + v * u * q
  {
  }

  lemma DeterminantExtends(m: Moments, x: real, y: real, w: real)
    ensures Determinant(Extended(m, x, y, w)) == Determinant(m) + w * Spread(m, x)
  {
  }

  // Sw*Swxx - Swx^2 is the sum over all pairs of w_i * w_j * (x_i - x_j)^2.
  lemma {:induction false} DeterminantIsPairs(x: seq<real>, y: seq<real>, w: seq<real>, n: nat)
    requires SameLength(x, y, w) && n <= |x|
    ensures Determinant(MomentsOf(x, y, w, n)) == Pairs(x, w, n)
  {
    hide Spread, Extended, PairsWith;
    if n == 0 {
    } else {
      hide Determinant;
      var m, i := MomentsOf(x, y, w, n - 1), n - 1;
      DeterminantIsPairs(x, y, w, i);
      PairsWithMoments(x, y, w, i, i);
      DeterminantExtends(m, x[i], y[i], w[i]);
    }
  }

  // Points that count at all have the same x.
  ghost predicate OneColumn(x: seq<real>, w: seq<real>, n: nat)
    requires |x| == |w| && n <= |x|
  {
    forall i, j :: 0 <= i < n && 0 <= j < n && w[i] > 0.0 && w[j] > 0.0 ==> x[i] == x[j]
  }

  lemma ProductSign(a: real, b: real, c: real)
    requires a >= 0.0 && b >= 0.0 && c >= 0.0
    ensures a * b * c >= 0.0 && (a * b * c == 0.0 <==> a == 0.0 || b == 0.0 || c == 0.0)
  {
    assert a * b >= 0.0 && (a * b == 0.0 <==> a == 0.0 || b == 0.0);
  }

  lemma {:induction false} PairsWithSign(x: seq<real>, w: seq<real>, n: nat, j: nat)
    requires |x| == |w| && n <= |x| && j < |x| && Nonnegative(w)
    ensures PairsWith(x, w, n, j) >= 0.0
    ensures PairsWith(x, w, n, j) == 0.0 <==>
            forall i :: 0 <= i < n && w[i] > 0.0 && w[j] > 0.0 ==> x[i] == x[j]
  {
    hide Square;
    if n > 0 {
      PairsWithSign(x, w, n - 1, j);
      SquareSign(x[n - 1] - x[j]);
      ProductSign(w[n - 1], w[j], Square(x[n - 1] - x[j]));
    }
  }

  lemma {:induction false} PairsSign(x: seq<real>, w: seq<real>, n: nat)
    requires |x| == |w| && n <= |x| && Nonnegative(w)
    ensures Pairs(x, w, n) >= 0.0
    ensures Pairs(x, w, n) == 0.0 <==> OneColumn(x, w, n)
  {
    hide PairsWith;
    if n > 0 {
      PairsSign(x, w, n - 1);
      PairsWithSign(x, w, n - 1, n - 1);
    }
  }

  lemma {:induction false} WeightSign(x: seq<real>, y: seq<real>, w: seq<real>, n: nat)
    requires SameLength(x, y, w) && n <= |x| && Nonnegative(w)
    ensures MomentsOf(x, y, w, n).w >= 0.0
    ensures MomentsOf(x, y, w, n).w == 0.0 <==> forall i :: 0 <= i < n ==> w[i] == 0.0
  {
    if n > 0 {
      WeightSign(x, y, w, n - 1);
    }
  }

  // ----- The two functions -----

  // At this line the weighted squared residual is stationary.
  ghost predicate Normal(m: Moments, line: Line) {
    && line.slope * m.wx + line.intercept * m.w == m.wy
    && line.slope * m.wxx + line.intercept * m.wx == m.wxy
  }

  // What a fit returns: nothing, or the only stationary line.
  ghost predicate Fits(x: seq<real>, y: seq<real>, w: seq<real>, line: Option<Line>) {
    if !SameLength(x, y, w) || |x| < 2 then line == None
    else
      var m := MomentsOf(x, y, w, |x|);
      if m.w == 0.0 || Determinant(m) == 0.0 then line == None
      else line.Some? && Normal(m, line.value)
  }

  function Ones(n: nat): (w: seq<real>)
    ensures |w| == n && forall i :: 0 <= i < n ==> w[i] == 1.0
  {
    seq(n, i => 1.0)
  }

  lemma Accumulated(x: seq<real>, y: seq<real>, w: seq<real>, i: nat)
    requires SameLength(x, y, w) && i < |x|
    ensures var m := MomentsOf(x, y, w, i);
            MomentsOf(x, y, w, i + 1) ==
            Moments(m.w + w[i], m.wx + w[i] * x[i], m.wy + w[i] * y[i],
                    m.wxx + w[i] * x[i] * x[i], m.wxy + w[i] * x[i] * y[i])
  {
  }

  lemma DeterminantIs(m: Moments)
    ensures Determinant(m) == m.w * m.wxx - m.wx * m.wx
  {
  }

  lemma Quotient(a: real, d: real)
    requires d != 0.0
    ensures (a / d) * d == a
  {
  }

  lemma CancelFactor(a: real, b: real, d: real)
    requires d != 0.0 && a * d == b * d
    ensures a == b
  {
    assert (a - b) * d == 0.0;
  }

  // The closed form solves the normal equations, whatever the weights.
  lemma LineIsNormal(m: Moments, slope: real, intercept: real)
    requires m.w != 0.0 && m.w * m.wxx - m.wx * m.wx != 0.0
    requires slope == (m.w * m.wxy - m.wx * m.wy) / (m.w * m.wxx - m.wx * m.wx)
    requires intercept == m.wy / m.w - slope * m.wx / m.w
    ensures Normal(m, Line(slope, intercept))
  {
    hide Normal;
    var d, num := m.w * m.wxx - m.wx * m.wx, m.w * m.wxy - m.wx * m.wy;
    Quotient(num, d);
    InterceptEquation(m.w, m.wx, m.wy, slope, intercept);
    SlopeEquation(m, slope, intercept, d);
    NormalFrom(m, slope, intercept);
  }

  lemma NormalFrom(m: Moments, s: real, c: real)
    requires s * m.wxx + c * m.wx == m.wxy && c * m.w == m.wy - s * m.wx
    ensures Normal(m, Line(s, c))
  {
  }

  lemma InterceptEquation(w: real, wx: real, wy: real, s: real, c: real)
    requires w != 0.0 && c == wy / w - s * wx / w
    ensures c * w == wy - s * wx
  {
    Quotient(wy, w);
    Quotient(s * wx, w);
  }

  lemma SlopeEquation(m: Moments, s: real, c: real, d: real)
    requires m.w != 0.0 && d == m.w * m.wxx - m.wx * m.wx
    requires s * d == m.w * m.wxy - m.wx * m.wy && c * m.w == m.wy - s * m.wx
    ensures s * m.wxx + c * m.wx == m.wxy
  {
    calc {
      (s * m.wxx + c * m.wx) * m.w;
    ==
      s * m.wxx * m.w + (c * m.w) * m.wx;
    ==
      s * d + m.wy * m.wx;
    ==
      m.wxy * m.w;
    }
    CancelFactor(s * m.wxx + c * m.wx, m.wxy, m.w);
  }

  lemma NoMoments(x: seq<real>, y: seq<real>, w: seq<real>)
    requires SameLength(x, y, w)
    ensures MomentsOf(x, y, w, 0) == Moments(0.0, 0.0, 0.0, 0.0, 0.0)
  {
  }

  // Slope and intercept from the sums.
  method ClosedForm(sw: real, swx: real, swy: real, swxx: real, swxy: real) returns (line: Line)
    requires sw != 0.0 && sw * swxx != swx * swx
    ensures Normal(Moments(sw, swx, swy, swxx, swxy), line)
  {
    hide Normal;
    var slope := (sw * swxy - swx * swy) / (sw * swxx - swx * swx);
    var intercept := swy / sw - slope * swx / sw;
    LineIsNormal(Moments(sw, swx, swy, swxx, swxy), slope, intercept);
    return Line(slope, intercept);
  }

  method LinRegWeighted(x: seq<real>, y: seq<real>, w: seq<real>) returns (line: Option<Line>)
    ensures Fits(x, y, w, line)
  {
    hide MomentsOf, Determinant, Normal;
    var n := |x|;
    if n != |y| || n != |w| {
      return None;
    }
    if n < 2 {
      return None;
    }
    var sw, swx, swy, swxx, swxy, swyy := 0.0, 0.0, 0.0, 0.0, 0.0, 0.0;
    NoMoments(x, y, w);
    for i := 0 to n
      invariant Moments(sw, swx, swy, swxx, swxy) == MomentsOf(x, y, w, i)
    {
      Accumulated(x, y, w, i);
      sw := sw + w[i];
      swxy := swxy + w[i] * x[i] * y[i];
      swx := swx + w[i] * x[i];
      swy := swy + w[i] * y[i];
      swxx := swxx + w[i] * x[i] * x[i];
      swyy := swyy + w[i] * y[i] * y[i];
    }
    DeterminantIs(Moments(sw, swx, swy, swxx, swxy));
    if sw == 0.0 {
      return None;
    }
    if sw * swxx == swx * swx {
      return None;
    }
    var fitted := ClosedForm(sw, swx, swy, swxx, swxy);
    return Some(fitted);
  }

  lemma AccumulatedOnes(x: seq<real>, y: seq<real>, w: seq<real>, i: nat, xx: real, xy: real)
    requires SameLength(x, y, w) && i < |x| && w[i] == 1.0
    requires xx == x[i] * x[i] && xy == x[i] * y[i]
    ensures var m := MomentsOf(x, y, w, i);
            MomentsOf(x, y, w, i + 1) == Moments(m.w + 1.0, m.wx + x[i], m.wy + y[i], m.wxx + xx, m.wxy + xy)
  {
    hide Extended;
    UnitPoint(MomentsOf(x, y, w, i), x[i], y[i], xx, xy);
  }

  lemma UnitPoint(m: Moments, x: real, y: real, xx: real, xy: real)
    requires xx == x * x && xy == x * y
    ensures Extended(m, x, y, 1.0) == Moments(m.w + 1.0, m.wx + x, m.wy + y, m.wxx + xx, m.wxy + xy)
  {
    var p := 1.0 * x;
    assert p == x;
    assert p * x == xx;
  }

  // The unweighted fit is the weighted one with all weights 1.
  method LinReg(x: seq<real>, y: seq<real>) returns (line: Option<Line>)
    ensures Fits(x, y, Ones(|x|), line)
  {
    hide MomentsOf, Determinant, Normal;
    var n := |x|;
    var nf := n as real;
    ghost var w := Ones(n);
    if n != |y| {
      return None;
    }
    if n < 2 {
      return None;
    }
    var sx, sy, sxx, sxy, syy := 0.0, 0.0, 0.0, 0.0, 0.0;
    NoMoments(x, y, w);
    for i := 0 to n
      invariant Moments(i as real, sx, sy, sxx, sxy) == MomentsOf(x, y, w, i)
    {
      AccumulatedOnes(x, y, w, i, x[i] * x[i], x[i] * y[i]);
      sx := sx + x[i];
      sy := sy + y[i];
      sxx := sxx + x[i] * x[i];
      sxy := sxy + x[i] * y[i];
      syy := syy + y[i] * y[i];
    }
    DeterminantIs(Moments(nf, sx, sy, sxx, sxy));
    if nf * sxx == sx * sx {
      return None;
    }
    var fitted := ClosedForm(nf, sx, sy, sxx, sxy);
    return Some(fitted);
  }

  // ----- When there is a line, and what it is -----

  // With no negative weight, there is a line unless the lists differ in length or
  // every point that counts has the same x.
  lemma FitExists(x: seq<real>, y: seq<real>, w: seq<real>, line: Option<Line>)
    requires Nonnegative(w)
    requires Fits(x, y, w, line)
    ensures line == None <==> !SameLength(x, y, w) || OneColumn(x, w, |x|)
  {
    if SameLength(x, y, w) {
      var m := MomentsOf(x, y, w, |x|);
      DeterminantIsPairs(x, y, w, |x|);
      PairsSign(x, w, |x|);
      WeightSign(x, y, w, |x|);
    }
  }

  // How much worse another line is: the weighted squares of its distance from this one.
  ghost function Detour(m: Moments, ds: real, dc: real): real {
    m.wxx * ds * ds + 2.0 * m.wx * ds * dc + m.w * dc * dc
  }

  // The slope by which the residual changes; zero under the normal equations.
  ghost function Gradient(m: Moments, line: Line, ds: real, dc: real): real {
    ds * (line.slope * m.wxx + line.intercept * m.wx - m.wxy) + dc * (line.slope * m.wx + line.intercept * m.w - m.wy)
  }

  lemma {:induction false} ResidualExpands(x: seq<real>, y: seq<real>, w: seq<real>, n: nat, a: Line, b: Line)
    requires SameLength(x, y, w) && n <= |x|
    ensures var m, ds, dc := MomentsOf(x, y, w, n), b.slope - a.slope, b.intercept - a.intercept;
            SquaredResidual(x, y, w, n, b) ==
            SquaredResidual(x, y, w, n, a) + 2.0 * Gradient(m, a, ds, dc) + Detour(m, ds, dc)
  {
    hide Square, Residual, Extended;
    if n == 0 {
    } else {
      hide Gradient, Detour;
      var i := n - 1;
      ResidualExpands(x, y, w, i, a, b);
      StepExpands(MomentsOf(x, y, w, i), a, b, x[i], y[i], w[i]);
    }
  }

  lemma StepExpands(m: Moments, a: Line, b: Line, x: real, y: real, w: real)
    ensures var ds, dc, m' := b.slope - a.slope, b.intercept - a.intercept, Extended(m, x, y, w);
            2.0 * Gradient(m', a, ds, dc) + Detour(m', ds, dc) + w * Square(Residual(x, y, a)) ==
            2.0 * Gradient(m, a, ds, dc) + Detour(m, ds, dc) + w * Square(Residual(x, y, b))
  {
    hide Square, Residual, Extended, Gradient, Detour;
    var ds, dc := b.slope - a.slope, b.intercept - a.intercept;
    PointExpands(x, y, w, a, b);
    PointGradient(m, a, ds, dc, x, y, w);
    PointDetour(m, ds, dc, x, y, w);
    Regroup(w, ds * x + dc, Residual(x, y, a));
  }

  lemma Regroup(w: real, e: real, r: real)
    ensures w * e * r == (w * e) * r
  {
  }

  lemma PointExpands(x: real, y: real, w: real, a: Line, b: Line)
    ensures var e := (b.slope - a.slope) * x + (b.intercept - a.intercept);
            w * Square(Residual(x, y, b)) ==
            w * Square(Residual(x, y, a)) - 2.0 * (w * e * Residual(x, y, a)) + w * e * e
  {
    var e := (b.slope - a.slope) * x + (b.intercept - a.intercept);
    assert Residual(x, y, b) == Residual(x, y, a) - e;
    SquareOfDifference(w, Residual(x, y, a), e);
  }

  lemma SquareOfDifference(w: real, r: real, e: real)
    ensures w * Square(r - e) == w * Square(r) - 2.0 * (w * e * r) + w * e * e
  {
  }

  lemma PointGradient(m: Moments, a: Line, ds: real, dc: real, x: real, y: real, w: real)
    ensures Gradient(Extended(m, x, y, w), a, ds, dc)
         == Gradient(m, a, ds, dc) - w * (ds * x + dc) * Residual(x, y, a)
  {
    var s, c := a.slope, a.intercept;
    assert s * (w * x * x) + c * (w * x) - w * x * y == 0.0 - w * x * Residual(x, y, a);
    assert s * (w * x) + c * w - w * y == 0.0 - w * Residual(x, y, a);
    var r := Residual(x, y, a);
    TwoTerms(ds, dc, s * m.wxx + c * m.wx - m.wxy, s * m.wx + c * m.w - m.wy, x, w, r);
  }

  lemma TwoTerms(ds: real, dc: real, p: real, q: real, x: real, w: real, r: real)
    ensures ds * (p - w * x * r) + dc * (q - w * r) == (ds * p + dc * q) - w * (ds * x + dc) * r
  {
  }

  lemma PointDetour(m: Moments, ds: real, dc: real, x: real, y: real, w: real)
    ensures var e := ds * x + dc;
            Detour(Extended(m, x, y, w), ds, dc) == Detour(m, ds, dc) + w * e * e
  {
  }

  // A weighted sum of squares, in the form in which its sign can be read off.
  lemma DetourSign(m: Moments, ds: real, dc: real)
    requires m.w > 0.0 && Determinant(m) > 0.0
    ensures Detour(m, ds, dc) >= 0.0
    ensures Detour(m, ds, dc) == 0.0 ==> ds == 0.0 && dc == 0.0
  {
    hide Square, Detour, Determinant;
    var t := m.w * dc + m.wx * ds;
    CompletedSquare(m, ds, dc);
    SquareSign(t);
    SquareSign(ds);
    PositiveFactor(Determinant(m), Square(ds));
    PositiveFactor(m.w, Detour(m, ds, dc));
    ZeroTerms(m.w, m.wx, dc, ds);
  }

  lemma ZeroTerms(w: real, wx: real, dc: real, ds: real)
    requires w > 0.0
    ensures ds == 0.0 && dc == 0.0 ==> w * dc + wx * ds == 0.0
    ensures ds == 0.0 && w * dc + wx * ds == 0.0 ==> dc == 0.0
  {
    PositiveFactor(w, dc);
  }

  lemma CompletedSquare(m: Moments, ds: real, dc: real)
    ensures m.w * Detour(m, ds, dc) == Square(m.w * dc + m.wx * ds) + Determinant(m) * Square(ds)
  {
  }

  lemma PositiveFactor(w: real, v: real)
    requires w > 0.0
    ensures v > 0.0 ==> w * v > 0.0
    ensures v == 0.0 ==> w * v == 0.0
    ensures v < 0.0 ==> w * v < 0.0
  {
    if v < 0.0 {
      assert w * (-v) > 0.0;
    }
  }

  lemma NoGradient(m: Moments, line: Line, ds: real, dc: real)
    requires Normal(m, line)
    ensures Gradient(m, line, ds, dc) == 0.0
  {
    assert line.slope * m.wxx + line.intercept * m.wx - m.wxy == 0.0;
    assert line.slope * m.wx + line.intercept * m.w - m.wy == 0.0;
  }

  lemma SameLine(a: Line, b: Line)
    ensures b.slope - a.slope == 0.0 && b.intercept - a.intercept == 0.0 ==> a == b
  {
  }

  // The line returned has the least weighted squared residual of all lines, and
  // every other line has a larger one.
  lemma FitIsOptimal(x: seq<real>, y: seq<real>, w: seq<real>, line: Line, other: Line)
    requires Nonnegative(w) && Fits(x, y, w, Some(line))
    ensures SameLength(x, y, w)
    ensures SquaredResidual(x, y, w, |x|, line) <= SquaredResidual(x, y, w, |x|, other)
    ensures SquaredResidual(x, y, w, |x|, line) == SquaredResidual(x, y, w, |x|, other) ==> other == line
  {
    hide SquaredResidual, MomentsOf, Detour, Gradient, Normal, Pairs, Determinant;
    var n := |x|;
    var m := MomentsOf(x, y, w, n);
    var ds, dc := other.slope - line.slope, other.intercept - line.intercept;
    DeterminantIsPairs(x, y, w, n);
    PairsSign(x, w, n);
    WeightSign(x, y, w, n);
    ResidualExpands(x, y, w, n, line, other);
    DetourSign(m, ds, dc);
    NoGradient(m, line, ds, dc);
    SameLine(line, other);
  }

  // With any weights, the sums determine the result: so LinReg is LinRegWeighted
  // with all weights 1.
  lemma FitUnique(x: seq<real>, y: seq<real>, w: seq<real>, a: Option<Line>, b: Option<Line>)
    requires Fits(x, y, w, a) && Fits(x, y, w, b)
    ensures a == b
  {
    if a.Some? && b.Some? {
      OneSolution(MomentsOf(x, y, w, |x|), a.value, b.value);
    }
  }

  lemma OneSolution(m: Moments, a: Line, b: Line)
    requires m.w != 0.0 && Determinant(m) != 0.0 && Normal(m, a) && Normal(m, b)
    ensures a == b
  {
    var ds, dc := a.slope - b.slope, a.intercept - b.intercept;
    Eliminate(m.w, m.wx, m.wxx, ds, dc);
  }

  lemma Eliminate(w: real, wx: real, wxx: real, ds: real, dc: real)
    requires w != 0.0 && w * wxx - wx * wx != 0.0
    requires ds * wx + dc * w == 0.0 && ds * wxx + dc * wx == 0.0
    ensures ds == 0.0 && dc == 0.0
  {
    calc {
      ds * (w * wxx - wx * wx);
    ==
      (ds * wxx) * w - (ds * wx) * wx;
    ==
      0.0;
    ==
      0.0 * (w * wxx - wx * wx);
    }
    CancelFactor(ds, 0.0, w * wxx - wx * wx);
    CancelFactor(dc, 0.0, w);
  }

  // ----- Tricube weights -----

  function Abs(a: real): real {
    if a < 0.0 then -a else a
  }

  function Cube(a: real): real {
    a * a * a
  }

  // Never negative, so a legitimate weight, and positive exactly inside the
  // window. In floating point a zero half-width makes the quotient infinite or
  // NaN, and the comparison with 1 fails.
  function TriCubeWeight(center: real, halfwidth: real, x: real): (weight: real)
    ensures 0.0 <= weight <= 1.0
    ensures weight > 0.0 <==> Abs(x - center) < Abs(halfwidth)
  {
    if halfwidth == 0.0 then 0.0
    else
      var xt := Abs((x - center) / halfwidth);
      Quotient(x - center, halfwidth);
      InsideWindow(x - center, halfwidth, (x - center) / halfwidth);
      if xt < 1.0 then
        CubeBounds(xt);
        CubeBounds(1.0 - Cube(xt));
        Cube(1.0 - Cube(xt))
      else 0.0
  }

  lemma InsideWindow(a: real, h: real, q: real)
    requires h != 0.0 && q * h == a
    ensures Abs(q) < 1.0 ==> Abs(a) < Abs(h)
    ensures Abs(q) >= 1.0 ==> Abs(a) >= Abs(h)
  {
    hide Abs;
    AbsPositive(h);
    AbsProduct(q, h);
    if Abs(q) < 1.0 {
      ScaledDown(Abs(q), Abs(h));
    } else {
      ScaledUp(Abs(q), Abs(h));
    }
  }

  lemma AbsPositive(h: real)
    requires h != 0.0
    ensures Abs(h) > 0.0
  {
  }

  lemma AbsProduct(q: real, h: real)
    ensures Abs(q * h) == Abs(q) * Abs(h)
  {
    SignOfProduct(Abs(q), Abs(h));
    assert Abs(q) * Abs(h) == q * h || Abs(q) * Abs(h) == -(q * h);
  }

  lemma SignOfProduct(a: real, b: real)
    requires a >= 0.0 && b >= 0.0
    ensures a * b >= 0.0
  {
  }

  lemma ScaledDown(q: real, h: real)
    requires q < 1.0 && h > 0.0
    ensures q * h < h
  {
    assert (1.0 - q) * h > 0.0;
  }

  lemma ScaledUp(q: real, h: real)
    requires q >= 1.0 && h > 0.0
    ensures q * h >= h
  {
    assert (q - 1.0) * h >= 0.0;
  }

  lemma CubeBounds(a: real)
    requires 0.0 <= a <= 1.0
    ensures 0.0 <= Cube(a) <= 1.0
    ensures a < 1.0 ==> Cube(a) < 1.0
    ensures a > 0.0 ==> Cube(a) > 0.0
  {
    assert 0.0 <= a * a <= a;
    assert 0.0 <= a * a * a <= a;
  }

  lemma CubeProduct(a: real, b: real)
    ensures Cube(a * b) == Cube(a) * Cube(b)
  {
    calc {
      Cube(a * b);
    ==
      (a * b) * (a * b) * (a * b);
    ==
      (a * a * a) * (b * b * b);
    ==
      Cube(a) * Cube(b);
    }
  }

  // (1 - a^3)^3 h^9 is (h^3 - (a h)^3)^3.
  lemma ScaledWeight(a: real, h: real, d: real)
    requires a * h == d
    ensures Cube(1.0 - Cube(a)) * Cube(Cube(h)) == Cube(Cube(h) - Cube(d))
  {
    hide Cube;
    var u, v := Cube(a), Cube(h);
    assert Cube(d) == u * v by {
      CubeProduct(a, h);
    }
    var w := 1.0 - u;
    assert w * v == v - Cube(d) by {
      Distributed(u, v);
    }
    CubeProduct(w, v);
  }

  lemma Distributed(u: real, v: real)
    ensures (1.0 - u) * v == v - u * v
  {
  }

  lemma NoWindow(a: real)
    ensures Abs(0.0) == 0.0 <= Abs(a)
  {
  }

  // Inside the window the weight is (1 - |x - center|^3 / |halfwidth|^3)^3, here
  // without the division.
  lemma TriCubeFormula(center: real, halfwidth: real, x: real)
    ensures var h, d := Abs(halfwidth), Abs(x - center);
            d < h ==> TriCubeWeight(center, halfwidth, x) * Cube(Cube(h)) == Cube(Cube(h) - Cube(d))
  {
    hide Abs, Cube;
    NoWindow(x - center);
    if Abs(x - center) < Abs(halfwidth) {
      var q := (x - center) / halfwidth;
      Quotient(x - center, halfwidth);
      AbsProduct(q, halfwidth);
      InsideWindow(x - center, halfwidth, q);
      ScaledWeight(Abs(q), Abs(halfwidth), Abs(x - center));
    }
  }
}

/** The least-squares slope over real points: the sums the buffer accumulates, the sign of
    the denominator, exactness on a line, and optimality among all lines. */
module Regression {

  datatype Point = Point(x: real, y: real)

  /** Number of points and the sums of x, y, x*x, x*y and y*y. */
  datatype Sums = Sums(n: nat, x: real, y: real, xx: real, xy: real, yy: real)
  {
    function Add(p: Point): Sums {
      Sums(n + 1, x + p.x, y + p.y, xx + p.x * p.x, xy + p.x * p.y, yy + p.y * p.y)
    }

    function Denominator(): real { n as real * xx - x * x }

    function Slope(): real {
      if Denominator() != 0.0 then (n as real * xy - x * y) / Denominator() else 0.0
    }
  }

  function SumsOf(points: seq<Point>): (s: Sums)
    ensures s.n == |points|
  {
    if points == [] then Sums(0, 0.0, 0.0, 0.0, 0.0, 0.0)
    else SumsOf(points[..|points| - 1]).Add(points[|points| - 1])
  }

  function Square(r: real): real { r * r }

  lemma Inverse(r: real)
    requires r != 0.0
    ensures r * (1.0 / r) == 1.0
  {
  }

  lemma Associate(a: real, b: real, c: real)
    ensures (a * b) * c == a * (b * c)
  {
  }

  lemma SquareNonNegative(r: real)
    ensures Square(r) >= 0.0
    ensures Square(r) == 0.0 <==> r == 0.0
  {
    if r != 0.0 {
      Inverse(r);
      Associate(r, r, 1.0 / r);
      assert Square(r) * (1.0 / r) == r;
    }
  }

  /** The sum of the squared distances of the points' x from `a`. */
  function Spread(points: seq<Point>, a: real): real {
    if points == [] then 0.0
    else
      var d := points[|points| - 1].x - a;
      Spread(points[..|points| - 1], a) + Square(d)
  }

  /** The spread around `a` in terms of the sums. */
  function SpreadOf(s: Sums, a: real): real {
    s.xx - 2.0 * a * s.x + s.n as real * (a * a)
  }

  lemma SpreadAdd(s: Sums, p: Point, a: real)
    ensures SpreadOf(s.Add(p), a) == SpreadOf(s, a) + Square(p.x - a)
  {
    assert Square(p.x - a) == p.x * p.x - 2.0 * a * p.x + a * a;
  }

  lemma {:induction false} SpreadIs(points: seq<Point>, a: real)
    ensures Spread(points, a) == SpreadOf(SumsOf(points), a)
  {
    if points != [] {
      hide SpreadOf, Square, Sums.Add;
      SpreadIs(points[..|points| - 1], a);
      SpreadAdd(SumsOf(points[..|points| - 1]), points[|points| - 1], a);
    }
  }

  lemma {:induction false} SpreadZero(points: seq<Point>, a: real)
    ensures Spread(points, a) >= 0.0
    ensures Spread(points, a) == 0.0 <==> forall i :: 0 <= i < |points| ==> points[i].x == a
  {
    if points != [] {
      var rest := points[..|points| - 1];
      SpreadZero(rest, a);
      SquareNonNegative(points[|points| - 1].x - a);
      assert forall i :: 0 <= i < |rest| ==> rest[i] == points[i];
    }
  }

  lemma DenominatorStep(s: Sums, p: Point)
    ensures s.Add(p).Denominator() == s.Denominator() + SpreadOf(s, p.x)
  {
    var n := s.n as real;
    assert (n + 1.0) * (s.xx + p.x * p.x) == n * s.xx + n * (p.x * p.x) + s.xx + p.x * p.x;
    assert (s.x + p.x) * (s.x + p.x) == s.x * s.x + 2.0 * p.x * s.x + p.x * p.x;
  }

  predicate SameX(points: seq<Point>) {
    forall i, k :: 0 <= i < k < |points| ==> points[i].x == points[k].x
  }

  lemma SameXLast(points: seq<Point>)
    requires points != []
    ensures var rest := points[..|points| - 1];
            SameX(points) <==>
              SameX(rest) && forall i :: 0 <= i < |rest| ==> rest[i].x == points[|points| - 1].x
  {
    var rest := points[..|points| - 1];
    assert forall i :: 0 <= i < |rest| ==> rest[i] == points[i];
  }

  lemma DenominatorPrefix(points: seq<Point>)
    requires points != []
    ensures var rest := points[..|points| - 1];
            SumsOf(points).Denominator() ==
            SumsOf(rest).Denominator() + Spread(rest, points[|points| - 1].x)
  {
    hide SpreadOf, Spread, Sums.Denominator, Sums.Add;
    var rest := points[..|points| - 1];
    var p := points[|points| - 1];
    DenominatorStep(SumsOf(rest), p);
    SpreadIs(rest, p.x);
  }

  /** The denominator is never negative, and zero exactly when all x coincide. */
  lemma {:induction false} DenominatorSign(points: seq<Point>)
    ensures SumsOf(points).Denominator() >= 0.0
    ensures SumsOf(points).Denominator() == 0.0 <==> SameX(points)
  {
    if points == [] {
      assert SumsOf(points).Denominator() == 0.0;
    } else {
      hide SameX, Spread, SumsOf, Sums.Denominator;
      var rest := points[..|points| - 1];
      DenominatorSign(rest);
      SameXLast(points);
      SpreadZero(rest, points[|points| - 1].x);
      DenominatorPrefix(points);
    }
  }

  lemma LineStep(sx: real, sxx: real, x: real, c: real)
    ensures c * (sx + x) == c * sx + c * x
    ensures x * (c * x) == c * (x * x)
    ensures c * (sxx + x * x) == c * sxx + c * (x * x)
  {
  }

  lemma LineAdd(s: Sums, p: Point, c: real)
    requires s.y == c * s.x && s.xy == c * s.xx && p.y == c * p.x
    ensures s.Add(p).y == c * s.Add(p).x && s.Add(p).xy == c * s.Add(p).xx
  {
    LineStep(s.x, s.xx, p.x, c);
  }

  lemma {:induction false} LineSums(points: seq<Point>, c: real)
    requires forall i :: 0 <= i < |points| ==> points[i].y == c * points[i].x
    ensures var s := SumsOf(points); s.y == c * s.x && s.xy == c * s.xx
  {
    hide Sums.Add;
    if points == [] {
      assert c * 0.0 == 0.0;
    } else {
      LineSums(points[..|points| - 1], c);
      LineAdd(SumsOf(points[..|points| - 1]), points[|points| - 1], c);
    }
  }

  lemma LineAlgebra(n: real, x: real, y: real, xx: real, xy: real, c: real)
    requires y == c * x && xy == c * xx
    ensures n * xy - x * y == c * (n * xx - x * x)
  {
    assert n * xy == c * (n * xx);
    assert x * y == c * (x * x);
    assert c * (n * xx - x * x) == c * (n * xx) - c * (x * x);
  }

  lemma Quotient(c: real, d: real, r: real)
    requires d != 0.0 && r == c * d
    ensures r / d == c
  {
  }

  /** On points of a line through the origin that do not all share one x, the slope is
      exactly the line's coefficient. */
  lemma SlopeOfLine(points: seq<Point>, c: real)
    requires forall i :: 0 <= i < |points| ==> points[i].y == c * points[i].x
    requires !SameX(points)
    ensures SumsOf(points).Slope() == c
  {
    hide SumsOf, SameX;
    LineSums(points, c);
    DenominatorSign(points);
    var s := SumsOf(points);
    LineAlgebra(s.n as real, s.x, s.y, s.xx, s.xy, c);
    Quotient(c, s.Denominator(), s.n as real * s.xy - s.x * s.y);
  }

  // ---- optimality ----

  /** The sum of squared residuals of the line `a + b * x`. */
  function Residual(points: seq<Point>, a: real, b: real): real {
    if points == [] then 0.0
    else
      var p := points[|points| - 1];
      Residual(points[..|points| - 1], a, b) + Square(p.y - (a + b * p.x))
  }

  /** The residual of a line over all points, in terms of the sums. */
  function ResidualOf(s: Sums, a: real, b: real): real {
    s.yy - 2.0 * a * s.y - 2.0 * b * s.xy + s.n as real * (a * a) + 2.0 * (a * b) * s.x + (b * b) * s.xx
  }

  lemma ResidualPoint(a: real, b: real, x: real, y: real)
    ensures Square(y - (a + b * x)) ==
            y * y - 2.0 * a * y - 2.0 * b * (x * y) + a * a + 2.0 * (a * b) * x + (b * b) * (x * x)
  {
    var l := a + b * x;
    assert (y - l) * (y - l) == y * y - 2.0 * (l * y) + l * l;
    assert l * y == a * y + b * (x * y);
    var m := b * x;
    assert l * l == a * a + 2.0 * (a * m) + m * m;
    assert a * m == (a * b) * x;
    assert m * m == (b * b) * (x * x);
  }

  lemma NoResidual(a: real, b: real)
    ensures ResidualOf(Sums(0, 0.0, 0.0, 0.0, 0.0, 0.0), a, b) == 0.0
  {
  }

  lemma {:induction false} ResidualIs(points: seq<Point>, a: real, b: real)
    ensures Residual(points, a, b) == ResidualOf(SumsOf(points), a, b)
  {
    hide ResidualOf, Square, Sums.Add;
    if points == [] {
      NoResidual(a, b);
    } else {
      ResidualIs(points[..|points| - 1], a, b);
      ResidualAdd(SumsOf(points[..|points| - 1]), points[|points| - 1], a, b);
    }
  }

  lemma ResidualAlgebra(n: real, sx: real, sy: real, sxx: real, sxy: real, x: real, y: real, a: real, b: real)
    ensures 2.0 * a * (sy + y) == 2.0 * a * sy + 2.0 * a * y
    ensures 2.0 * b * (sxy + x * y) == 2.0 * b * sxy + 2.0 * b * (x * y)
    ensures (n + 1.0) * (a * a) == n * (a * a) + a * a
    ensures 2.0 * (a * b) * (sx + x) == 2.0 * (a * b) * sx + 2.0 * (a * b) * x
    ensures (b * b) * (sxx + x * x) == (b * b) * sxx + (b * b) * (x * x)
  {
  }

  lemma ResidualAdd(s: Sums, p: Point, a: real, b: real)
    ensures ResidualOf(s.Add(p), a, b) ==
            ResidualOf(s, a, b) + Square(p.y - (a + b * p.x))
  {
    hide Square;
    ResidualPoint(a, b, p.x, p.y);
    ResidualAlgebra(s.n as real, s.x, s.y, s.xx, s.xy, p.x, p.y, a, b);
  }

  /** The intercept that goes with the slope. */
  function Intercept(s: Sums): real
    requires s.n > 0
  {
    (s.y - s.Slope() * s.x) / s.n as real
  }

  lemma {:induction false} SameXSums(points: seq<Point>, x: real)
    requires forall i :: 0 <= i < |points| ==> points[i].x == x
    ensures var s := SumsOf(points); s.x == s.n as real * x && s.xy == x * s.y
  {
    if points != [] {
      var rest := points[..|points| - 1];
      SameXSums(rest, x);
      var s := SumsOf(rest);
      var y := points[|points| - 1].y;
      assert (s.n + 1) as real * x == s.n as real * x + x;
      assert x * (s.y + y) == x * s.y + x * y;
    }
  }

  /** `k` and `m` solve the normal equations. */
  predicate Normal(s: Sums, k: real, m: real) {
    s.n as real * k + m * s.x == s.y && k * s.x + m * s.xx == s.xy
  }

  lemma NormalAlgebra(n: real, x: real, y: real, xx: real, xy: real, k: real, m: real)
    requires n > 0.0 && n * k == y - m * x
    requires m * (n * xx - x * x) == n * xy - x * y
    ensures k * x + m * xx == xy
  {
    assert n * (k * x) == (y - m * x) * x;
    assert (y - m * x) * x == x * y - m * (x * x);
    assert n * (m * xx) == m * (n * xx);
    assert n * (k * x + m * xx) == n * (k * x) + n * (m * xx);
    assert m * (n * xx - x * x) == m * (n * xx) - m * (x * x);
    assert n * (k * x + m * xx) == n * xy;
  }

  lemma FlatAlgebra(n: real, x0: real, x: real, y: real, xy: real, k: real)
    requires n * k == y && x == n * x0 && xy == x0 * y
    ensures k * x == xy
  {
    assert k * (n * x0) == x0 * (n * k);
  }

  lemma SolvesNormal(points: seq<Point>)
    requires points != []
    ensures var s := SumsOf(points); Normal(s, Intercept(s), s.Slope())
  {
    hide SumsOf;
    var s := SumsOf(points);
    var n, k, m := s.n as real, Intercept(s), s.Slope();
    assert n * k == s.y - m * s.x;
    if s.Denominator() != 0.0 {
      assert m * s.Denominator() == n * s.xy - s.x * s.y;
      NormalAlgebra(n, s.x, s.y, s.xx, s.xy, k, m);
    } else {
      DenominatorSign(points);
      SameXSums(points, points[0].x);
      FlatAlgebra(n, points[0].x, s.x, s.y, s.xy, k);
    }
  }

  /** A quadratic form with a non-negative discriminant side is non-negative. */
  lemma FormNonNegative(n: real, x: real, xx: real, d: real, e: real)
    requires n > 0.0 && n * xx - x * x >= 0.0
    ensures n * (d * d) + 2.0 * (d * e) * x + (e * e) * xx >= 0.0
  {
    var f := n * (d * d) + 2.0 * (d * e) * x + (e * e) * xx;
    var g := n * d + e * x;
    var h := n * xx - x * x;
    assert g * g == n * n * (d * d) + 2.0 * n * (d * e) * x + (e * e) * (x * x);
    assert (e * e) * h == (e * e) * (n * xx) - (e * e) * (x * x);
    assert n * f == g * g + (e * e) * h;
    SquareNonNegative(g);
    SquareNonNegative(e);
    assert e * e >= 0.0 && g * g >= 0.0;
    assert (e * e) * h >= 0.0;
    assert f >= 0.0;
  }

  /** The slope and its intercept are optimal: no line over the points has a smaller sum
      of squared residuals. */
  lemma LeastSquares(points: seq<Point>, a: real, b: real)
    requires points != []
    ensures var s := SumsOf(points);
            Residual(points, Intercept(s), s.Slope()) <= Residual(points, a, b)
  {
    hide SumsOf, Residual;
    var s := SumsOf(points);
    SolvesNormal(points);
    DenominatorSign(points);
    ResidualIs(points, a, b);
    ResidualIs(points, Intercept(s), s.Slope());
    OptimalAlgebra(s, Intercept(s), s.Slope(), a, b);
  }

  lemma OptimalAlgebra(s: Sums, k: real, m: real, a: real, b: real)
    requires s.n > 0 && Normal(s, k, m) && s.Denominator() >= 0.0
    ensures ResidualOf(s, k, m) <= ResidualOf(s, a, b)
  {
    FormNonNegative(s.n as real, s.x, s.xx, a - k, b - m);
    ShiftAlgebra(s.n as real, s.x, s.xx, s.y, s.xy, k, m, a - k, b - m);
    assert a == k + (a - k) && b == m + (b - m);
  }

  lemma ShiftAlgebra(n: real, x: real, xx: real, y: real, xy: real, k: real, m: real, d: real, e: real)
    requires n * k + m * x == y && k * x + m * xx == xy
    ensures var a, b := k + d, m + e;
            -2.0 * a * y - 2.0 * b * xy + n * (a * a) + 2.0 * (a * b) * x + (b * b) * xx ==
            -2.0 * k * y - 2.0 * m * xy + n * (k * k) + 2.0 * (k * m) * x + (m * m) * xx
            + (n * (d * d) + 2.0 * (d * e) * x + (e * e) * xx)
  {
    var a, b := k + d, m + e;
    assert n * (a * a) == n * (k * k) + 2.0 * d * (n * k) + n * (d * d);
    assert (a * b) * x == (k * m) * x + e * (k * x) + d * (m * x) + (d * e) * x;
    assert (b * b) * xx == (m * m) * xx + 2.0 * e * (m * xx) + (e * e) * xx;
    assert 2.0 * d * (n * k) + 2.0 * d * (m * x) == 2.0 * d * y;
    assert 2.0 * e * (k * x) + 2.0 * e * (m * xx) == 2.0 * e * xy;
  }
}

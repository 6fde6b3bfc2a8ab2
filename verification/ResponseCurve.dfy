/** The response curve of an axis: a quadratic Bezier curve per side, solved for its parameter. */
module ResponseCurve {
  import opened Geometry

  datatype CurveDef = CurveDef(deadZone: real, lCurvature: real, rCurvature: real)

  datatype SplinePts = SplinePts(x0: real, y0: real, x1: real, y1: real, x2: real, y2: real)

  datatype Splines = Splines(left: SplinePts, right: SplinePts)

  function SidePts(deadZone: real, curvature: real): SplinePts {
    SplinePts(deadZone, 0.0, deadZone + (1.0 - deadZone) * (1.0 - curvature), curvature, 1.0, 1.0)
  }

  function CurveToPts(d: CurveDef): Splines {
    Splines(SidePts(d.deadZone, d.lCurvature), SidePts(d.deadZone, d.rCurvature))
  }

  function Bend(p: SplinePts): real {
    p.x2 - 2.0 * p.x1 + p.x0
  }

  predicate NearLinear(p: SplinePts) {
    -0.001 < Bend(p) < 0.001
  }

  function Radicand(p: SplinePts, x: real): real {
    Bend(p) * x - p.x0 * p.x2 + p.x1 * p.x1
  }

  /** The parameter at which the curve passes x. */
  function Parameter(sqrt: real -> real, p: SplinePts, x: real): real
    requires !NearLinear(p)
  {
    (sqrt(Radicand(p, x)) - p.x1 + p.x0) / Bend(p)
  }

  function Bezier(a: real, b: real, c: real, t: real): real {
    (1.0 - t) * (1.0 - t) * a + 2.0 * t * (1.0 - t) * b + t * t * c
  }

  /** One side, for a nonnegative deflection. */
  function SidePoint(sqrt: real -> real, p: SplinePts, x: real): real
    requires p.x2 != p.x0
  {
    if x < p.x0 then 0.0
    else if NearLinear(p) then (x - p.x0) * ((p.y2 - p.y0) / (p.x2 - p.x0))
    else Bezier(p.y0, p.y1, p.y2, Parameter(sqrt, p, x))
  }

  function SplinePoint(sqrt: real -> real, s: Splines, x: real): real
    requires s.left.x2 != s.left.x0 && s.right.x2 != s.right.x0
  {
    if x < 0.0 then -SidePoint(sqrt, s.left, -x) else SidePoint(sqrt, s.right, x)
  }

  predicate Unit(x: real) {
    0.0 <= x <= 1.0
  }

  predicate LegalSide(d: real, k: real) {
    0.0 <= d < 1.0 && Unit(k)
  }

  // ---------- the quadratic ----------

  /** A Bezier coordinate that starts at 0 and rises first with slope u, at the end with slope v. */
  function Q(u: real, v: real, t: real): real {
    2.0 * t * u + t * t * (v - u)
  }

  lemma ProductNonneg(a: real, b: real)
    requires a >= 0.0 && b >= 0.0
    ensures a * b >= 0.0
  {
    if a > 0.0 && b > 0.0 {
      TimesPositive(a, b);
    }
  }

  lemma SquaresOrder(a: real, b: real)
    requires a >= 0.0 && b >= 0.0 && a * a <= b * b
    ensures a <= b
  {
    assert Times(a - b, a + b) == a * a - b * b;
    if a > b {
      TimesPositive(a - b, a + b);
    }
  }

  lemma Cancel(a: real, b: real, e: real)
    requires e != 0.0 && a * e == b * e
    ensures a == b
  {
    assert Times(a - b, e) == a * e - b * e == -Times(b - a, e);
    if a != b {
      if (a > b) == (e > 0.0) {
        TimesPositive(a - b, e);
      } else {
        TimesPositive(b - a, e);
      }
    }
  }

  lemma Ratio(p: real, e: real)
    requires e != 0.0
    requires if e > 0.0 then 0.0 <= p <= e else e <= p <= 0.0
    ensures 0.0 <= p / e <= 1.0 && p / e * e == p
  {
  }

  /** Between the squares of u and v, the root is between u and v, and the parameter solves the quadratic. */
  lemma QuadraticSolved(u: real, v: real, z: real, r: real)
    requires u >= 0.0 && v >= 0.0 && u != v && 0.0 <= z <= u + v
    requires r >= 0.0 && r * r == u * u + (v - u) * z
    ensures var t := (r - u) / (v - u);
      0.0 <= t <= 1.0 && Q(u, v, t) == z
  {
    var e := v - u;
    var t := (r - u) / e;
    RootBetween(u, v, z, r);
    Ratio(r - u, e);
    assert (2.0 * t * u + t * t * e) * e == 2.0 * (t * e) * u + (t * e) * (t * e);
    assert (r - u) * (r - u) + 2.0 * (r - u) * u == r * r - u * u;
    Cancel(2.0 * t * u + t * t * e, z, e);
  }

  lemma RootBetween(u: real, v: real, z: real, r: real)
    requires u >= 0.0 && v >= 0.0 && u != v && 0.0 <= z <= u + v
    requires r >= 0.0 && r * r == u * u + (v - u) * z
    ensures if u < v then u <= r <= v else v <= r <= u
  {
    var e := v - u;
    assert (u + v) * e == v * v - u * u;
    assert e * (u + v - z) == e * (u + v) - e * z;
    if e > 0.0 {
      ProductNonneg(e, z);
      ProductNonneg(e, u + v - z);
      SquaresOrder(u, r);
      SquaresOrder(r, v);
    } else {
      ProductNonneg(-e, z);
      ProductNonneg(-e, u + v - z);
      SquaresOrder(r, u);
      SquaresOrder(v, r);
    }
  }

  lemma BezierIsQ(a: real, b: real, c: real, t: real)
    ensures Bezier(a, b, c, t) == a + Q(b - a, c - b, t)
  {
  }

  lemma QEnds(u: real, v: real)
    ensures Q(u, v, 0.0) == 0.0 && Q(u, v, 1.0) == u + v
  {
  }

  /** Both coordinates rise along the curve. */
  lemma QIncreases(u: real, v: real, s: real, t: real)
    requires u >= 0.0 && v >= 0.0 && u + v > 0.0 && 0.0 <= s < t <= 1.0
    ensures Q(u, v, s) < Q(u, v, t)
  {
    var slope := u * (2.0 - s - t) + v * (s + t);
    assert Q(u, v, t) - Q(u, v, s) == Times(t - s, slope);
    assert slope > 0.0 by {
      if u > 0.0 {
        TimesPositive(u, 2.0 - s - t);
        ProductNonneg(v, s + t);
      } else {
        TimesPositive(v, s + t);
      }
    }
    TimesPositive(t - s, slope);
  }

  lemma QBounds(u: real, v: real, t: real)
    requires u >= 0.0 && v >= 0.0 && u + v > 0.0 && Unit(t)
    ensures 0.0 <= Q(u, v, t) <= u + v
  {
    QEnds(u, v);
    hide Q;
    if 0.0 < t {
      QIncreases(u, v, 0.0, t);
    }
    if t < 1.0 {
      QIncreases(u, v, t, 1.0);
    }
  }

  // ---------- one side ----------

  /** Slopes of the deflection coordinate. */
  function U(d: real, k: real): real {
    (1.0 - d) * (1.0 - k)
  }

  function V(d: real, k: real): real {
    (1.0 - d) * k
  }

  lemma Slopes(d: real, k: real)
    requires LegalSide(d, k)
    ensures var p := SidePts(d, k);
      && p.x1 - p.x0 == U(d, k) >= 0.0 && p.x2 - p.x1 == V(d, k) >= 0.0 && U(d, k) + V(d, k) == 1.0 - d
      && Bend(p) == V(d, k) - U(d, k)
  {
    ProductNonneg(1.0 - d, 1.0 - k);
    ProductNonneg(1.0 - d, k);
  }

  function CurveX(d: real, k: real, t: real): real {
    var p := SidePts(d, k);
    Bezier(p.x0, p.x1, p.x2, t)
  }

  function CurveY(d: real, k: real, t: real): real {
    var p := SidePts(d, k);
    Bezier(p.y0, p.y1, p.y2, t)
  }

  lemma CurveIs(d: real, k: real, t: real)
    requires LegalSide(d, k)
    ensures CurveX(d, k, t) == d + Q(U(d, k), V(d, k), t)
    ensures CurveY(d, k, t) == Q(k, 1.0 - k, t)
  {
    var p := SidePts(d, k);
    Slopes(d, k);
    BezierIsQ(p.x0, p.x1, p.x2, t);
    BezierIsQ(0.0, k, 1.0, t);
    hide Bezier, Q, U, V;
  }

  /** The radicand is nonnegative and its root gives the point of the curve over x. */
  lemma ParameterSolves(sqrt: real -> real, d: real, k: real, x: real)
    requires IsSqrt(sqrt) && LegalSide(d, k) && d <= x <= 1.0 && !NearLinear(SidePts(d, k))
    ensures Radicand(SidePts(d, k), x) >= 0.0
    ensures var t := Parameter(sqrt, SidePts(d, k), x); Unit(t) && CurveX(d, k, t) == x
  {
    var p := SidePts(d, k);
    var u, v := U(d, k), V(d, k);
    var z := x - d;
    Slopes(d, k);
    RadicandIs(d, k, x);
    hide U, V, SidePts, Radicand, Bend;
    RadicandNonneg(u, v, z);
    var r := sqrt(Radicand(p, x));
    assert Sqr(r) == r * r;
    QuadraticSolved(u, v, z, r);
    assert Parameter(sqrt, p, x) == (r - u) / (v - u);
    CurveIs(d, k, (r - u) / (v - u));
  }

  lemma RadicandIs(d: real, k: real, x: real)
    requires LegalSide(d, k)
    ensures Radicand(SidePts(d, k), x) == U(d, k) * U(d, k) + (V(d, k) - U(d, k)) * (x - d)
  {
  }

  lemma RadicandNonneg(u: real, v: real, z: real)
    requires u >= 0.0 && v >= 0.0 && 0.0 <= z <= u + v
    ensures u * u + (v - u) * z >= 0.0
  {
    ProductNonneg(u, u + v - z);
    ProductNonneg(v, z);
    ProductNonneg(u, u);
    ProductNonneg(v, v);
    ProductNonneg(u, v);
    if v < u {
      ProductNonneg(u - v, u + v - z);
    } else {
      ProductNonneg(v - u, z);
    }
  }

  lemma SameDeflection(d: real, k: real, s: real, t: real)
    requires LegalSide(d, k) && Unit(s) && Unit(t)
    ensures s < t ==> CurveX(d, k, s) < CurveX(d, k, t) && CurveY(d, k, s) < CurveY(d, k, t)
  {
    CurveIs(d, k, s);
    CurveIs(d, k, t);
    Slopes(d, k);
    hide CurveX, CurveY, Q, U, V, SidePts;
    if s < t {
      QIncreases(U(d, k), V(d, k), s, t);
      QIncreases(k, 1.0 - k, s, t);
    }
  }

  /** Off the near-linear branch, a side's value is the height of the curve over x. */
  lemma SideOnCurve(sqrt: real -> real, d: real, k: real, x: real)
    requires IsSqrt(sqrt) && LegalSide(d, k) && d <= x <= 1.0 && !NearLinear(SidePts(d, k))
    ensures var t := Parameter(sqrt, SidePts(d, k), x);
      Unit(t) && CurveX(d, k, t) == x && SidePoint(sqrt, SidePts(d, k), x) == CurveY(d, k, t)
  {
    ParameterSolves(sqrt, d, k, x);
    hide Bezier;
  }

  lemma SideLinear(sqrt: real -> real, d: real, k: real, x: real)
    requires LegalSide(d, k) && d <= x <= 1.0 && NearLinear(SidePts(d, k))
    ensures SidePoint(sqrt, SidePts(d, k), x) == (x - d) / (1.0 - d)
  {
    hide Bezier;
    assert (x - d) * (1.0 / (1.0 - d)) == (x - d) / (1.0 - d);
  }

  lemma CurveRange(d: real, k: real, t: real)
    requires LegalSide(d, k) && Unit(t)
    ensures d <= CurveX(d, k, t) <= 1.0 && 0.0 <= CurveY(d, k, t) <= 1.0
    ensures CurveX(d, k, 0.0) == d && CurveY(d, k, 0.0) == 0.0
  {
    CurveIs(d, k, t);
    CurveIs(d, k, 0.0);
    Slopes(d, k);
    QEnds(U(d, k), V(d, k));
    QEnds(k, 1.0 - k);
    hide CurveX, CurveY, Q, U, V, SidePts;
    QBounds(U(d, k), V(d, k), t);
    QBounds(k, 1.0 - k, t);
  }

  /** How far the straight line is from the curve. */
  lemma LinearGap(d: real, k: real, t: real)
    requires LegalSide(d, k)
    ensures CurveY(d, k, t) - (CurveX(d, k, t) - d) / (1.0 - d) == 2.0 * t * (1.0 - t) * (2.0 * k - 1.0)
  {
    CurveIs(d, k, t);
    var w := 1.0 - d;
    var line := Q(1.0 - k, k, t);
    assert Q(U(d, k), V(d, k), t) == w * line;
    assert w * line / w == line;
    assert Q(k, 1.0 - k, t) - line == 2.0 * t * (1.0 - t) * (2.0 * k - 1.0);
  }

  lemma ProductZero(a: real, b: real)
    ensures a * b == 0.0 <==> a == 0.0 || b == 0.0
  {
    if a * b == 0.0 && b != 0.0 {
      Cancel(a, 0.0, b);
    }
  }

  lemma GapZero(t: real, k: real)
    ensures 2.0 * t * (1.0 - t) * (2.0 * k - 1.0) == 0.0 <==> t == 0.0 || t == 1.0 || k == 0.5
  {
    ProductZero(2.0 * t, 1.0 - t);
    ProductZero(2.0 * t * (1.0 - t), 2.0 * k - 1.0);
  }

  /** The deflection of a point of the curve gives back its height, except that near a straight curve the straight
      line is used: there only the ends come out exactly, unless the curve is straight. */
  lemma InvertsCurve(sqrt: real -> real, d: real, k: real, t: real)
    requires IsSqrt(sqrt) && LegalSide(d, k) && Unit(t)
    ensures SidePoint(sqrt, SidePts(d, k), CurveX(d, k, t)) == CurveY(d, k, t) <==>
      !NearLinear(SidePts(d, k)) || t == 0.0 || t == 1.0 || k == 0.5
  {
    var x := CurveX(d, k, t);
    CurveRange(d, k, t);
    hide SidePoint, CurveX, CurveY;
    if NearLinear(SidePts(d, k)) {
      SideLinear(sqrt, d, k, x);
      LinearGap(d, k, t);
      GapZero(t, k);
    } else {
      SideOnCurve(sqrt, d, k, x);
      var s := Parameter(sqrt, SidePts(d, k), x);
      SameDeflection(d, k, s, t);
      SameDeflection(d, k, t, s);
    }
  }

  /** A side starts at zero in the dead zone, rises from there, and ends at most at one. */
  lemma SideRises(sqrt: real -> real, d: real, k: real, x: real, y: real)
    requires IsSqrt(sqrt) && LegalSide(d, k) && 0.0 <= x <= y <= 1.0
    ensures var p := SidePts(d, k);
      0.0 <= SidePoint(sqrt, p, x) <= SidePoint(sqrt, p, y) <= 1.0 && (SidePoint(sqrt, p, x) == 0.0 <==> x <= d)
  {
    SideFacts(sqrt, d, k, x);
    SideFacts(sqrt, d, k, y);
    hide SidePoint;
    if d < x < y {
      if NearLinear(SidePts(d, k)) {
        SideLinear(sqrt, d, k, x);
        SideLinear(sqrt, d, k, y);
        Ratio(y - x, 1.0 - d);
        assert (y - d) / (1.0 - d) - (x - d) / (1.0 - d) == (y - x) / (1.0 - d);
      } else {
        SideOnCurve(sqrt, d, k, x);
        SideOnCurve(sqrt, d, k, y);
        hide CurveX, CurveY;
        var s, t := Parameter(sqrt, SidePts(d, k), x), Parameter(sqrt, SidePts(d, k), y);
        SameDeflection(d, k, s, t);
        SameDeflection(d, k, t, s);
      }
    }
  }

  lemma SideFacts(sqrt: real -> real, d: real, k: real, x: real)
    requires IsSqrt(sqrt) && LegalSide(d, k) && Unit(x)
    ensures var y := SidePoint(sqrt, SidePts(d, k), x); Unit(y) && (y == 0.0 <==> x <= d)
  {
    if x >= d {
      if NearLinear(SidePts(d, k)) {
        SideLinear(sqrt, d, k, x);
        Ratio(x - d, 1.0 - d);
      } else {
        SideOnCurve(sqrt, d, k, x);
        hide SidePoint, CurveX, CurveY;
        var t := Parameter(sqrt, SidePts(d, k), x);
        CurveRange(d, k, t);
        if t > 0.0 {
          SameDeflection(d, k, 0.0, t);
        }
      }
    }
  }

  // ---------- the axis ----------

  datatype AxisDef = AxisDef(enabled: bool, inverted: bool, curve: CurveDef, factor: real, lLimit: real, rLimit: real)

  predicate LegalCurve(c: CurveDef) {
    LegalSide(c.deadZone, c.lCurvature) && LegalSide(c.deadZone, c.rCurvature)
  }

  function Clamp(x: real): real {
    if x < -1.0 then -1.0 else if x > 1.0 then 1.0 else x
  }

  /** The input as the axis takes it, and the limit of the side it falls on. */
  function Directed(a: AxisDef, x: real): real {
    if a.inverted then -x else x
  }

  function SideLimit(a: AxisDef, x: real): real {
    if Directed(a, x) < 0.0 then a.lLimit else a.rLimit
  }

  /** The normalised deflection on its side. */
  function Scaled(a: AxisDef, x: real): real
    requires SideLimit(a, x) >= 0.00001
  {
    Clamp(Times(Directed(a, x), a.factor) / SideLimit(a, x))
  }

  function CurveHeight(sqrt: real -> real, c: CurveDef, x: real): real
    requires LegalCurve(c)
  {
    SplinePoint(sqrt, CurveToPts(c), x)
  }

  function AxisValue(sqrt: real -> real, a: AxisDef, x: real): real
    requires LegalCurve(a.curve)
  {
    var lim := SideLimit(a, x);
    if !a.enabled || lim < 0.00001 then 0.0
    else Times(CurveHeight(sqrt, a.curve, Scaled(a, x)), lim)
  }

  lemma ScaledOrder(p: real, q: real, e: real)
    requires e > 0.0 && p <= q
    ensures p / e <= q / e && Clamp(p / e) <= Clamp(q / e) && (p >= 0.0 ==> p / e >= 0.0) && (p <= 0.0 ==> p / e <= 0.0)
  {
  }

  lemma FactorOrder(x: real, y: real, f: real)
    requires f >= 0.0 && x <= y
    ensures x * f <= y * f
  {
    ProductNonneg(y - x, f);
  }

  lemma FactorSign(x: real, f: real)
    requires f >= 0.0
    ensures (x >= 0.0 ==> x * f >= 0.0) && (x <= 0.0 ==> x * f <= 0.0)
  {
    if x >= 0.0 {
      ProductNonneg(x, f);
    } else {
      ProductNonneg(-x, f);
    }
  }

  /** The curve through both sides rises, stays within one, and vanishes exactly in the dead zone. */
  lemma CurveRises(sqrt: real -> real, c: CurveDef, x: real, y: real)
    requires IsSqrt(sqrt) && LegalCurve(c) && -1.0 <= x <= y <= 1.0
    ensures CurveHeight(sqrt, c, x) <= CurveHeight(sqrt, c, y)
    ensures if x < 0.0 then -1.0 <= CurveHeight(sqrt, c, x) <= 0.0 else 0.0 <= CurveHeight(sqrt, c, x) <= 1.0
    ensures CurveHeight(sqrt, c, x) == 0.0 <==> -c.deadZone <= x <= c.deadZone
  {
    var d := c.deadZone;
    hide SidePoint, SidePts;
    if y < 0.0 {
      SideRises(sqrt, d, c.lCurvature, -y, -x);
    }
    if x >= 0.0 {
      SideRises(sqrt, d, c.rCurvature, x, y);
    }
    if x < 0.0 {
      SideRises(sqrt, d, c.lCurvature, -x, -x);
    }
    if y >= 0.0 {
      SideRises(sqrt, d, c.rCurvature, y, y);
    }
  }

  function Positive(x: real): real {
    if x > 0.0 then x else 0.0
  }

  predicate LegalAxis(a: AxisDef) {
    LegalCurve(a.curve) && a.factor >= 0.0
  }

  lemma ScaledSign(a: AxisDef, x: real)
    requires LegalAxis(a) && SideLimit(a, x) >= 0.00001
    ensures -1.0 <= Scaled(a, x) <= 1.0
    ensures if Directed(a, x) < 0.0 then Scaled(a, x) <= 0.0 else Scaled(a, x) >= 0.0
  {
    var v, lim := Directed(a, x), SideLimit(a, x);
    FactorSign(v, a.factor);
    assert Times(v, a.factor) == v * a.factor;
    hide Times;
    ScaledOrder(Times(v, a.factor), Times(v, a.factor), lim);
  }

  lemma DeadBand(p: real, d: real, e: real)
    requires e > 0.0 && 0.0 <= d < 1.0
    ensures -d <= Clamp(p / e) <= d <==> Times(-d, e) <= p <= Times(d, e)
  {
    var q := p / e;
    assert q * e == p;
    if q <= d {
      FactorOrder(q, d, e);
    } else {
      ProductPositive(q - d, e);
    }
    if -d <= q {
      FactorOrder(-d, q, e);
    } else {
      ProductPositive(-d - q, e);
    }
  }

  lemma ProductPositive(a: real, b: real)
    requires a > 0.0 && b > 0.0
    ensures a * b > 0.0
  {
    TimesPositive(a, b);
  }

  predicate InDeadZone(a: AxisDef, x: real) {
    var reach := SideLimit(a, x);
    Times(-a.curve.deadZone, reach) <= Times(Directed(a, x), a.factor) <= Times(a.curve.deadZone, reach)
  }

  lemma DeadZoneIs(a: AxisDef, x: real)
    requires LegalAxis(a) && SideLimit(a, x) >= 0.00001
    ensures -a.curve.deadZone <= Scaled(a, x) <= a.curve.deadZone <==> InDeadZone(a, x)
  {
    hide Clamp, Times;
    DeadBand(Times(Directed(a, x), a.factor), a.curve.deadZone, SideLimit(a, x));
  }

  /** The value lies between zero and the limit of its side, and is zero exactly for a disabled axis, a side without
      a limit, or an input in the dead zone. */
  lemma AxisRange(sqrt: real -> real, a: AxisDef, x: real)
    requires IsSqrt(sqrt) && LegalAxis(a)
    ensures var v, lim := AxisValue(sqrt, a, x), Positive(SideLimit(a, x));
      if Directed(a, x) < 0.0 then -lim <= v <= 0.0 else 0.0 <= v <= lim
    ensures AxisValue(sqrt, a, x) == 0.0 <==> !a.enabled || SideLimit(a, x) < 0.00001 || InDeadZone(a, x)
  {
    var lim := SideLimit(a, x);
    hide CurveHeight, Scaled, InDeadZone, Times;
    if a.enabled && lim >= 0.00001 {
      var n := Scaled(a, x);
      ScaledSign(a, x);
      DeadZoneIs(a, x);
      CurveRises(sqrt, a.curve, n, n);
      SidedProduct(CurveHeight(sqrt, a.curve, n), lim, Directed(a, x) < 0.0);
    }
  }

  lemma SidedProduct(y: real, lim: real, negative: bool)
    requires lim > 0.0 && if negative then -1.0 <= y <= 0.0 else 0.0 <= y <= 1.0
    ensures if negative then -lim <= Times(y, lim) <= 0.0 else 0.0 <= Times(y, lim) <= lim
    ensures Times(y, lim) == 0.0 <==> y == 0.0
  {
    var p := y * lim;
    assert Times(y, lim) == p;
    FactorOrder(y, 1.0, lim);
    FactorOrder(-1.0, y, lim);
    FactorSign(y, lim);
    ProductZero(y, lim);
  }

  /** A larger input gives a larger value, or a smaller one on an inverted axis. */
  lemma AxisMonotone(sqrt: real -> real, a: AxisDef, x: real, y: real)
    requires IsSqrt(sqrt) && LegalAxis(a) && x <= y
    ensures if a.inverted then AxisValue(sqrt, a, y) <= AxisValue(sqrt, a, x)
            else AxisValue(sqrt, a, x) <= AxisValue(sqrt, a, y)
  {
    if a.inverted {
      AxisRises(sqrt, a, y, x);
    } else {
      AxisRises(sqrt, a, x, y);
    }
  }

  lemma AxisRises(sqrt: real -> real, a: AxisDef, x: real, y: real)
    requires IsSqrt(sqrt) && LegalAxis(a) && Directed(a, x) <= Directed(a, y)
    ensures AxisValue(sqrt, a, x) <= AxisValue(sqrt, a, y)
  {
    AxisRange(sqrt, a, x);
    AxisRange(sqrt, a, y);
    hide CurveHeight, Scaled, Times;
    var lim := SideLimit(a, x);
    if a.enabled && lim == SideLimit(a, y) && lim >= 0.00001 {
      var p, q := Scaled(a, x), Scaled(a, y);
      ScaledSign(a, x);
      ScaledSign(a, y);
      ScaledRises(a, x, y);
      CurveRises(sqrt, a.curve, p, q);
      TimesOrder(CurveHeight(sqrt, a.curve, p), CurveHeight(sqrt, a.curve, q), lim);
    }
  }

  lemma TimesOrder(x: real, y: real, f: real)
    requires f >= 0.0 && x <= y
    ensures Times(x, f) <= Times(y, f)
  {
    FactorOrder(x, y, f);
    assert Times(x, f) == x * f && Times(y, f) == y * f;
  }

  lemma ScaledRises(a: AxisDef, x: real, y: real)
    requires LegalAxis(a) && Directed(a, x) <= Directed(a, y) && SideLimit(a, x) == SideLimit(a, y) >= 0.00001
    ensures Scaled(a, x) <= Scaled(a, y)
  {
    hide Clamp, Times;
    TimesOrder(Directed(a, x), Directed(a, y), a.factor);
    ScaledOrder(Times(Directed(a, x), a.factor), Times(Directed(a, y), a.factor), SideLimit(a, x));
  }

  // ---------- the answer of an axis, from its parameters alone ----------

  /** (n, h) is the point at parameter t of the quadratic curve with the points (d, 0), (d + (1 - d) * (1 - k), k) and
      (1, 1), where d is the dead zone and k the curvature. */
  ghost predicate AtParameter(d: real, k: real, n: real, h: real, t: real) {
    && 0.0 <= t <= 1.0
    && n == (1.0 - t) * (1.0 - t) * d + 2.0 * t * (1.0 - t) * (d + (1.0 - d) * (1.0 - k)) + t * t
    && h == 2.0 * t * (1.0 - t) * k + t * t
  }

  /** Height h over deflection n on a side: nothing in the dead zone, then the curve, or a straight line when the
      curve is almost straight. */
  ghost predicate HeightOver(d: real, k: real, n: real, h: real) {
    if n < d then h == 0.0
    else if -0.001 < (1.0 - d) * (2.0 * k - 1.0) < 0.001 then h * (1.0 - d) == n - d
    else exists t :: AtParameter(d, k, n, h, t)
  }

  /** The axis answers input x with r: the side of the directed input gives the limit, and the side of the deflection
      the curvature. */
  ghost predicate Responds(a: AxisDef, x: real, r: real) {
    var v := if a.inverted then -x else x;
    var lim := if v < 0.0 then a.lLimit else a.rLimit;
    if !a.enabled || lim < 0.00001 then r == 0.0
    else
      var n := Times(v, a.factor) / lim;
      if n < 0.0 then HeightOver(a.curve.deadZone, a.curve.lCurvature, if n < -1.0 then 1.0 else -n, -r / lim)
      else HeightOver(a.curve.deadZone, a.curve.rCurvature, if n > 1.0 then 1.0 else n, r / lim)
  }

  lemma SideHeight(sqrt: real -> real, d: real, k: real, n: real)
    requires IsSqrt(sqrt) && LegalSide(d, k) && Unit(n)
    ensures HeightOver(d, k, n, SidePoint(sqrt, SidePts(d, k), n))
  {
    BendIs(d, k);
    if n >= d {
      if NearLinear(SidePts(d, k)) {
        SideLinear(sqrt, d, k, n);
        var q := (n - d) / (1.0 - d);
        assert q * (1.0 - d) == n - d;
      } else {
        SideOnCurve(sqrt, d, k, n);
        PointAt(d, k, Parameter(sqrt, SidePts(d, k), n));
        hide SidePoint, Parameter, AtParameter;
        assert AtParameter(d, k, n, SidePoint(sqrt, SidePts(d, k), n), Parameter(sqrt, SidePts(d, k), n));
      }
    }
  }

  lemma BendIs(d: real, k: real)
    ensures Bend(SidePts(d, k)) == (1.0 - d) * (2.0 * k - 1.0)
  {
  }

  lemma PointAt(d: real, k: real, t: real)
    requires Unit(t)
    ensures AtParameter(d, k, CurveX(d, k, t), CurveY(d, k, t), t)
  {
  }

  /** The value of an axis is what its parameters ask for, whatever the sign of the factor. */
  lemma AxisResponds(sqrt: real -> real, a: AxisDef, x: real)
    requires IsSqrt(sqrt) && LegalCurve(a.curve)
    ensures Responds(a, x, AxisValue(sqrt, a, x))
  {
    var c, lim := a.curve, SideLimit(a, x);
    if a.enabled && lim >= 0.00001 {
      DeflectionIs(a, x);
      hide HeightOver, SidePoint, SidePts, Scaled, Times;
      var n := Scaled(a, x);
      if n < 0.0 {
        SideHeight(sqrt, c.deadZone, c.lCurvature, -n);
      } else {
        SideHeight(sqrt, c.deadZone, c.rCurvature, n);
      }
      TimesBack(CurveHeight(sqrt, c, n), lim);
    }
  }

  lemma DeflectionIs(a: AxisDef, x: real)
    requires SideLimit(a, x) >= 0.00001
    ensures var n := Times(Directed(a, x), a.factor) / SideLimit(a, x);
      Scaled(a, x) == if n < -1.0 then -1.0 else if n > 1.0 then 1.0 else n
  {
    hide Times;
  }

  lemma TimesBack(h: real, lim: real)
    requires lim > 0.0
    ensures Times(h, lim) / lim == h && -Times(h, lim) / lim == -h
  {
    assert Times(h, lim) == h * lim;
    assert h * lim / lim == h;
    assert -h * lim / lim == -h;
  }

  lemma PtsHaveWidth(c: CurveDef)
    requires LegalCurve(c)
    ensures var s := CurveToPts(c); s.left.x2 != s.left.x0 && s.right.x2 != s.right.x0
  {
  }

  method Normalise(input: real, factor: real, lim: real) returns (x: real)
    requires lim > 0.0
    ensures x == Clamp(Times(input, factor) / lim)
  {
    x := input;
    x := Times(x, factor);
    x := x / lim;
    if x < -1.0 {
      x := -1.0;
    }
    if x > 1.0 {
      x := 1.0;
    }
  }

  /** Other stands for the parameters that cannot be set as a number. */
  datatype Param = DeadZone | LCurv | RCurv | Mult | LLimit | RLimit | Filter | Other

  class Axis {
    var enabled: bool
    var inverted: bool
    var curveDefs: CurveDef
    var curves: Splines
    var valid: bool
    var factor: real
    var lLimit: real
    var rLimit: real
    var filterFactor: real

    function Def(): AxisDef
      reads this
    {
      AxisDef(enabled, inverted, curveDefs, factor, lLimit, rLimit)
    }

    /** The points in use, once marked valid, are those of the curve definition. */
    ghost predicate Fresh()
      reads this
    {
      valid ==> curves == CurveToPts(curveDefs)
    }

    constructor ()
      ensures Fresh() && Def() == AxisDef(true, false, CurveDef(0.0, 0.5, 0.5), 1.0, 50.0, 50.0)
      ensures filterFactor == 0.2
    {
      filterFactor := 0.2;
      valid, enabled, inverted, factor, lLimit, rLimit := false, true, false, 1.0, 50.0, 50.0;
      curveDefs := CurveDef(0.0, 0.5, 0.5);
      curves := Splines(SplinePts(0.0, 0.0, 0.0, 0.0, 0.0, 0.0), SplinePts(0.0, 0.0, 0.0, 0.0, 0.0, 0.0));
    }

    /** Changing a parameter makes the points stale; so does a refused change. */
    method SetParam(param: Param, val: real) returns (ok: bool)
      modifies this
      ensures Fresh() && !valid && curves == old(curves) && (ok <==> param != Other)
      ensures filterFactor == if param == Filter then val else old(filterFactor)
      ensures Def() == match param
        case DeadZone => old(Def()).(curve := old(curveDefs).(deadZone := val))
        case LCurv => old(Def()).(curve := old(curveDefs).(lCurvature := val))
        case RCurv => old(Def()).(curve := old(curveDefs).(rCurvature := val))
        case Mult => old(Def()).(factor := val)
        case LLimit => old(Def()).(lLimit := val)
        case RLimit => old(Def()).(rLimit := val)
        case _ => old(Def())
    {
      valid := false;
      ok := true;
      match param
      case DeadZone => curveDefs := curveDefs.(deadZone := val);
      case LCurv => curveDefs := curveDefs.(lCurvature := val);
      case RCurv => curveDefs := curveDefs.(rCurvature := val);
      case Mult => factor := val;
      case LLimit => lLimit := val;
      case RLimit => rLimit := val;
      case Filter => filterFactor := val;
      case Other => ok := false;
    }

    method ValOnAxis(sqrt: real -> real, input: real) returns (r: real)
      requires Fresh() && LegalCurve(curveDefs)
      modifies `curves
      ensures Fresh() && r == AxisValue(sqrt, Def(), input)
      ensures IsSqrt(sqrt) ==> Responds(Def(), input, r)
    {
      hide SplinePoint, CurveToPts, Times, Clamp, Responds, IsSqrt;
      if IsSqrt(sqrt) {
        AxisResponds(sqrt, Def(), input);
      }
      PtsHaveWidth(curveDefs);
      if !enabled {
        return 0.0;
      }
      var x := input;
      if inverted {
        x := -x;
      }
      if !valid {
        curves := CurveToPts(curveDefs);
      }
      var lim := if x < 0.0 then lLimit else rLimit;
      if lim < 0.00001 {
        return 0.0;
      }
      x := Normalise(x, factor, lim);
      r := Times(SplinePoint(sqrt, curves, x), lim);
    }
  }
}

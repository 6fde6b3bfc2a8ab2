/** The closed-form three-point pose: three image blobs and a model triangle give three space points whose
    mutual distances are the model's. */
module WeakPerspective {
  import opened Options
  import opened Geometry

  /** Square root and quotient with a non-finite outcome. */
  function Root(sqrt: real -> real, a: real): Option<real> {
    if a < 0.0 then None else Some(sqrt(a))
  }

  datatype Spot = Spot(x: real, y: real)

  function SpotDistance(sqrt: real -> real, p: Spot, q: Spot): real {
    sqrt(Sqr(q.x - p.x) + Sqr(q.y - p.y))
  }

  /** The three side lengths of a triangle: between points 0 and 1, 0 and 2, 1 and 2. */
  datatype Sides = Sides(s01: real, s02: real, s12: real)

  /** Sixteen times the squared area, from the side lengths. */
  function Heron(t: Sides): real {
    (t.s01 + t.s02 + t.s12) * (-t.s01 + t.s02 + t.s12) * (t.s01 - t.s02 + t.s12) * (t.s01 + t.s02 - t.s12)
  }

  datatype Squares = Squares(q01: real, q02: real, q12: real)

  function Squared(t: Sides): Squares {
    Squares(Sqr(t.s01), Sqr(t.s02), Sqr(t.s12))
  }

  /** Twice the scalar product of sides 01 and 02, from the squared lengths. */
  function Corner(q: Squares): real {
    q.q01 + q.q02 - q.q12
  }

  /** The mixed term of the quadratic for the squared scale. */
  function Mixed(r: Squares, d: Squares): real {
    d.q01 * (-r.q01 + r.q02 + r.q12) + d.q02 * (r.q01 - r.q02 + r.q12) + d.q12 * (r.q01 + r.q02 - r.q12)
  }

  function Discriminant(a: real, b: real, c: real): real {
    Sqr(b) - a * c
  }

  function LargerRoot(a: real, b: real, root: real): real
    requires a != 0.0
  {
    (b + root) / a
  }

  /** The scale: image units per model unit. */
  function ScaleOf(sqrt: real -> real, r: Sides, d: Sides): Option<real> {
    var a, b, c := Heron(r), Mixed(Squared(r), Squared(d)), Heron(d);
    var disc := Root(sqrt, Discriminant(a, b, c));
    if disc.None? || a == 0.0 then None else Root(sqrt, LargerRoot(a, b, disc.value))
  }

  /** Depth offsets of points 1 and 2 behind point 0, up to the sign that depends on the model type. */
  function Depths(sqrt: real -> real, r: Sides, d: Sides, s: real): Option<(real, real)> {
    var h1 := Root(sqrt, Sqr(Times(s, r.s01)) - Sqr(d.s01));
    var h2 := Root(sqrt, Sqr(Times(s, r.s02)) - Sqr(d.s02));
    var sigma := if Corner(Squared(d)) <= Times(Sqr(s), Corner(Squared(r))) then 1.0 else -1.0;
    if h1.None? || h2.None? then None else Some((h1.value, sigma * h2.value))
  }

  // ---------- the algebra of the quadratic ----------

  ghost function HeronOf(q: Squares): real {
    4.0 * (q.q01 * q.q02) - Sqr(Corner(q))
  }

  lemma HeronSquares(t: Sides)
    ensures Heron(t) == HeronOf(Squared(t))
  {
  }

  ghost function Quad(a: real, b: real, c: real, x: real): real {
    a * Sqr(x) - 2.0 * (b * x) + c
  }

  /** How far the squared scale x is from satisfying the third distance. */
  ghost function Residual(r: Squares, d: Squares, x: real): real {
    Excess(Slack(x, r.q01, d.q01), Slack(x, r.q02, d.q02), Slack(x, Corner(r), Corner(d)))
  }

  ghost function Slack(x: real, model: real, image: real): real {
    x * model - image
  }

  ghost function Excess(p: real, q: real, e: real): real {
    4.0 * (p * q) - Sqr(e)
  }

  lemma QuadIsResidual(r: Squares, d: Squares, x: real)
    ensures Quad(HeronOf(r), Mixed(r, d), HeronOf(d), x) == Residual(r, d, x)
  {
    MixedIs(r, d);
    hide Corner, Mixed, Quad, Excess, Slack, Sqr;
    ExcessExpands(r.q01, r.q02, Corner(r), d.q01, d.q02, Corner(d), HeronOf(r), Mixed(r, d), HeronOf(d), x);
  }

  lemma MixedIs(r: Squares, d: Squares)
    ensures Mixed(r, d) == 2.0 * (r.q01 * d.q02) + 2.0 * (r.q02 * d.q01) - Corner(r) * Corner(d)
  {
  }

  lemma ExcessExpands(a: real, b: real, e: real, p: real, q: real, f: real, h: real, m: real, g: real, x: real)
    requires h == 4.0 * (a * b) - Sqr(e) && m == 2.0 * (a * q) + 2.0 * (b * p) - e * f && g == 4.0 * (p * q) - Sqr(f)
    ensures Excess(Slack(x, a, p), Slack(x, b, q), Slack(x, e, f)) == Quad(h, m, g, x)
  {
    ExcessIs(a, b, e, p, q, f, x);
  }

  lemma ExcessIs(a: real, b: real, e: real, p: real, q: real, f: real, x: real)
    ensures Excess(Slack(x, a, p), Slack(x, b, q), Slack(x, e, f)) ==
      Quad(4.0 * (a * b) - Sqr(e), 2.0 * (a * q) + 2.0 * (b * p) - e * f, 4.0 * (p * q) - Sqr(f), x)
  {
  }

  lemma CompleteSquare(a: real, b: real, c: real, x: real)
    ensures a * (a * Sqr(x) - 2.0 * (b * x) + c) == Sqr(a * x - b) - (Sqr(b) - a * c)
  {
  }

  lemma SqrAtMost(x: real, r: real)
    requires Sqr(x) <= Sqr(r) && r >= 0.0
    ensures x <= r
  {
    if x > r { TimesGrows(r, r, x, x); }
  }

  lemma NonPositiveProduct(q: real, a: real)
    requires a > 0.0 && q <= 0.0
    ensures q * a <= 0.0
  {
  }

  lemma Quotient(p: real, a: real)
    requires a != 0.0
    ensures a * (p / a) == p
  {
  }

  lemma LargerProduct(a: real, x: real, y: real)
    requires a > 0.0 && x > y
    ensures a * x > a * y && x * a > y * a
  {
    assert a * (x - y) > 0.0;
  }

  lemma ProductOrder(a: real, x: real, y: real)
    requires a > 0.0 && a * x <= a * y
    ensures x <= y
  {
    if x > y { LargerProduct(a, x, y); }
  }

  /** Where the quadratic is not positive, the discriminant is not negative and the larger root is not smaller. */
  lemma LargerRootDominates(sqrt: real -> real, a: real, b: real, c: real, x: real)
    requires IsSqrt(sqrt) && a > 0.0 && Quad(a, b, c, x) <= 0.0
    ensures Discriminant(a, b, c) >= 0.0 && x <= LargerRoot(a, b, sqrt(Discriminant(a, b, c)))
  {
    hide Sqr, Quad;
    var disc := Discriminant(a, b, c);
    CompleteSquareQuad(a, b, c, x);
    NonPositiveProduct(Quad(a, b, c, x), a);
    assert Sqr(a * x - b) <= disc;
    var r := sqrt(disc);
    SqrAtMost(a * x - b, r);
    Quotient(b + r, a);
    ProductOrder(a, x, (b + r) / a);
  }

  /** The larger root is a root. */
  lemma LargerRootSolves(sqrt: real -> real, a: real, b: real, c: real)
    requires IsSqrt(sqrt) && a > 0.0 && Discriminant(a, b, c) >= 0.0
    ensures Quad(a, b, c, LargerRoot(a, b, sqrt(Discriminant(a, b, c)))) == 0.0
  {
    hide Sqr, Quad;
    var r := sqrt(Discriminant(a, b, c));
    var x := (b + r) / a;
    Quotient(b + r, a);
    CompleteSquareQuad(a, b, c, x);
    assert a * x - b == r;
    ZeroFactor(Quad(a, b, c, x), a);
  }

  lemma CompleteSquareQuad(a: real, b: real, c: real, x: real)
    ensures Quad(a, b, c, x) * a == Sqr(a * x - b) - (Sqr(b) - a * c)
  {
    hide Sqr;
    CompleteSquare(a, b, c, x);
  }

  // ---------- the scale ----------

  /** The quadratic of the two triangles at x. */
  lemma QuadOfSides(r: Sides, d: Sides, x: real)
    ensures Quad(Heron(r), Mixed(Squared(r), Squared(d)), Heron(d), x) == Residual(Squared(r), Squared(d), x)
  {
    hide Heron, HeronOf, Quad, Residual, Mixed, Squared;
    HeronSquares(r);
    HeronSquares(d);
    QuadIsResidual(Squared(r), Squared(d), x);
  }

  /** At the ratio of one pair of squared sides the quadratic is not positive. */
  lemma QuadAtRatio(r: Sides, d: Sides, x: real)
    requires x * Sqr(r.s01) == Sqr(d.s01) || x * Sqr(r.s02) == Sqr(d.s02)
    ensures Quad(Heron(r), Mixed(Squared(r), Squared(d)), Heron(d), x) <= 0.0
  {
    hide Sqr, Heron, Mixed, Quad;
    QuadOfSides(r, d, x);
    ZeroProduct(x * Sqr(r.s01) - Sqr(d.s01), x * Sqr(r.s02) - Sqr(d.s02));
  }

  lemma ZeroProduct(p: real, q: real)
    requires p == 0.0 || q == 0.0
    ensures p * q == 0.0
  {
  }

  lemma SidesPositive(r: Sides)
    requires Heron(r) > 0.0
    ensures Sqr(r.s01) > 0.0 && Sqr(r.s02) > 0.0
  {
    hide Sqr, Heron;
    HeronSquares(r);
    ZeroProduct(Sqr(r.s01), 0.0);
    if r.s01 == 0.0 { ZeroProduct(Sqr(r.s01), Sqr(r.s02)); }
    if r.s02 == 0.0 { ZeroProduct(Sqr(r.s01), Sqr(r.s02)); }
  }

  lemma RatioBelow(x: real, y: real, U: real, u: real)
    requires x <= y && U > 0.0 && x * U == u
    ensures y * U >= u
  {
    if y > x { LargerProduct(U, y, x); }
  }

  /** For any model triangle with area the scale exists, its square solves the quadratic, and both depth
      radicands are non-negative. */
  lemma ScaleFacts(sqrt: real -> real, r: Sides, d: Sides)
    requires IsSqrt(sqrt) && Heron(r) > 0.0
    ensures ScaleOf(sqrt, r, d).Some?
    ensures var s := ScaleOf(sqrt, r, d).value;
      && s >= 0.0
      && Quad(Heron(r), Mixed(Squared(r), Squared(d)), Heron(d), Sqr(s)) == 0.0
      && Times(Sqr(s), Sqr(r.s01)) >= Sqr(d.s01) && Times(Sqr(s), Sqr(r.s02)) >= Sqr(d.s02)
  {
    hide Sqr, Heron, Mixed, Quad, Discriminant, LargerRoot;
    var a, b, c := Heron(r), Mixed(Squared(r), Squared(d)), Heron(d);
    SidesPositive(r);
    var x1, x2 := Sqr(d.s01) / Sqr(r.s01), Sqr(d.s02) / Sqr(r.s02);
    Quotient(Sqr(d.s01), Sqr(r.s01));
    Quotient(Sqr(d.s02), Sqr(r.s02));
    QuadAtRatio(r, d, x1);
    QuadAtRatio(r, d, x2);
    LargerRootDominates(sqrt, a, b, c, x1);
    LargerRootDominates(sqrt, a, b, c, x2);
    LargerRootSolves(sqrt, a, b, c);
    var top := LargerRoot(a, b, sqrt(Discriminant(a, b, c)));
    RatioBelow(x1, top, Sqr(r.s01), Sqr(d.s01));
    RatioBelow(x2, top, Sqr(r.s02), Sqr(d.s02));
    RatioNonNegative(x1, Sqr(r.s01), Sqr(d.s01));
    assert top >= 0.0;
    assert ScaleOf(sqrt, r, d) == Some(sqrt(top));
    assert Sqr(sqrt(top)) == top;
  }

  lemma RatioNonNegative(x: real, U: real, u: real)
    requires x * U == u && U > 0.0 && u >= 0.0
    ensures x >= 0.0
  {
    if x < 0.0 { LargerProduct(U, 0.0, x); }
  }

  // ---------- the depths ----------

  lemma SqrProduct(a: real, b: real)
    ensures Sqr(a * b) == Sqr(a) * Sqr(b)
  {
  }

  lemma SameSquare(p: real, q: real)
    requires p >= 0.0 && q >= 0.0 && Sqr(p) == Sqr(q)
    ensures p == q
  {
    hide Sqr;
    SqrAtMost(p, q);
    SqrAtMost(q, p);
  }

  lemma DoubleProduct(p: real, q: real)
    ensures Sqr(2.0 * (p * q)) == 4.0 * (Sqr(p) * Sqr(q))
  {
  }

  /** Of two non-negative depths with the product of squares the residual asks for, the double product is the
      size of the corner difference e. */
  lemma DepthProduct(p: real, q: real, a: real, b: real, e: real)
    requires p >= 0.0 && q >= 0.0 && Sqr(p) == a && Sqr(q) == b && Excess(a, b, e) == 0.0
    ensures 2.0 * (p * q) == if e >= 0.0 then e else -e
  {
    hide Sqr;
    DoubleProduct(p, q);
    assert p * q >= 0.0;
    SqrNeg(e);
    SameSquare(2.0 * (p * q), if e >= 0.0 then e else -e);
  }

  /** The depths that the three distances need. */
  ghost predicate GoodDepths(r: Squares, d: Squares, x: real, h1: real, h2: real) {
    && Sqr(h1) == Slack(x, r.q01, d.q01)
    && Sqr(h2) == Slack(x, r.q02, d.q02)
    && 2.0 * (h1 * h2) == Slack(x, Corner(r), Corner(d))
  }

  lemma Flipped(p: real, q: real)
    ensures 1.0 * q == q && -1.0 * q == -q && p * -q == -(p * q)
  {
  }

  lemma RadicandIsSlack(s: real, model: real, image: real)
    ensures Sqr(Times(s, model)) - Sqr(image) == Slack(Sqr(s), Sqr(model), Sqr(image))
  {
    SqrProduct(s, model);
  }

  lemma SlackSign(x: real, model: real, image: real)
    ensures Slack(x, model, image) >= 0.0 <==> image <= Times(x, model)
  {
  }

  lemma DepthsExist(sqrt: real -> real, r: Sides, d: Sides, s: real)
    requires IsSqrt(sqrt) && Residual(Squared(r), Squared(d), Sqr(s)) == 0.0
    requires Times(Sqr(s), Sqr(r.s01)) >= Sqr(d.s01) && Times(Sqr(s), Sqr(r.s02)) >= Sqr(d.s02)
    ensures Depths(sqrt, r, d, s).Some?
    ensures var (h1, h2) := Depths(sqrt, r, d, s).value; GoodDepths(Squared(r), Squared(d), Sqr(s), h1, h2)
  {
    hide Sqr, Excess, Corner, Slack, Times;
    RadicandIsSlack(s, r.s01, d.s01);
    RadicandIsSlack(s, r.s02, d.s02);
    SlackSign(Sqr(s), Sqr(r.s01), Sqr(d.s01));
    SlackSign(Sqr(s), Sqr(r.s02), Sqr(d.s02));
    SlackSign(Sqr(s), Corner(Squared(r)), Corner(Squared(d)));
    var a, b := Slack(Sqr(s), Sqr(r.s01), Sqr(d.s01)), Slack(Sqr(s), Sqr(r.s02), Sqr(d.s02));
    var p, q := sqrt(a), sqrt(b);
    var e := Slack(Sqr(s), Corner(Squared(r)), Corner(Squared(d)));
    DepthProduct(p, q, a, b, e);
    SqrNeg(q);
    Flipped(p, q);
  }

  // ---------- the three points ----------

  /** An image point at a depth, divided by the scale. */
  function Placed(b: Spot, z: real, s: real): Vec
    requires s != 0.0
  {
    Vec(b.x / s, b.y / s, z / s)
  }

  function Gap(a: Vec, b: Vec): real {
    Dot(Sub(a, b), Sub(a, b))
  }

  lemma QuotientDifference(p: real, q: real, s: real)
    requires s != 0.0
    ensures p / s - q / s == (p - q) * (1.0 / s)
  {
  }

  /** The squared distance of two placed points. */
  lemma PlacedGap(a: Spot, za: real, b: Spot, zb: real, s: real, total: real)
    requires s != 0.0 && Sqr(a.x - b.x) + Sqr(a.y - b.y) + Sqr(za - zb) == Sqr(s) * total
    ensures Gap(Placed(a, za, s), Placed(b, zb, s)) == total
  {
    hide Sqr, Dot;
    var k := 1.0 / s;
    var v := Vec(a.x - b.x, a.y - b.y, za - zb);
    QuotientDifference(a.x, b.x, s);
    QuotientDifference(a.y, b.y, s);
    QuotientDifference(za, zb, s);
    assert Sub(Placed(a, za, s), Placed(b, zb, s)) == Scale(v, k);
    DotScale(v, k, Scale(v, k));
    DotScale(v, k, v);
    DotSquares(v);
    InverseSquare(s, Sqr(s));
    assert k * (k * (Sqr(s) * total)) == (k * (k * Sqr(s))) * total;
  }

  lemma SqrDifference(p: real, q: real)
    ensures Sqr(p - q) == Sqr(p) + Sqr(q) - 2.0 * (p * q) == Sqr(q - p)
  {
  }

  /** With good depths the three placed points have the model's squared side lengths. */
  lemma PlacedTriangle(b0: Spot, b1: Spot, b2: Spot, f: real, s: real, r: Squares, d: Squares, h1: real, h2: real)
    requires s != 0.0 && GoodDepths(r, d, Sqr(s), h1, h2)
    requires d == Squares(Sqr(b1.x - b0.x) + Sqr(b1.y - b0.y), Sqr(b2.x - b0.x) + Sqr(b2.y - b0.y),
                          Sqr(b2.x - b1.x) + Sqr(b2.y - b1.y))
    ensures Gap(Placed(b1, f + h1, s), Placed(b0, f, s)) == r.q01
    ensures Gap(Placed(b2, f + h2, s), Placed(b0, f, s)) == r.q02
    ensures Gap(Placed(b2, f + h2, s), Placed(b1, f + h1, s)) == r.q12
  {
    hide Sqr, Gap, Placed;
    var x := Sqr(s);
    assert f + h1 - f == h1 && f + h2 - f == h2 && (f + h2) - (f + h1) == h2 - h1;
    SqrDifference(h2, h1);
    assert h2 * h1 == h1 * h2;
    assert Sqr(h2 - h1) == Sqr(h1) + Sqr(h2) - 2.0 * (h1 * h2);
    ThirdSide(r, d, x);
    PlacedGap(b1, f + h1, b0, f, s, r.q01);
    PlacedGap(b2, f + h2, b0, f, s, r.q02);
    PlacedGap(b2, f + h2, b1, f + h1, s, r.q12);
  }

  lemma ThirdSide(r: Squares, d: Squares, x: real)
    ensures d.q12 + (x * r.q01 - d.q01) + (x * r.q02 - d.q02) - (x * Corner(r) - Corner(d)) == x * r.q12
  {
  }

  // ---------- the model triangle and the blobs ----------

  datatype Model = Model(m0: Vec, m1: Vec, m2: Vec)

  datatype Blobs = Blobs(b0: Spot, b1: Spot, b2: Spot)

  function ModelSides(sqrt: real -> real, m: Model): Sides {
    Sides(Norm(sqrt, Sub(m.m0, m.m1)), Norm(sqrt, Sub(m.m0, m.m2)), Norm(sqrt, Sub(m.m1, m.m2)))
  }

  function BlobSides(sqrt: real -> real, b: Blobs): Sides {
    Sides(SpotDistance(sqrt, b.b0, b.b1), SpotDistance(sqrt, b.b0, b.b2), SpotDistance(sqrt, b.b1, b.b2))
  }

  ghost predicate Collinear(m: Model) {
    Cross(Sub(m.m0, m.m1), Sub(m.m0, m.m2)) == ORIGIN
  }

  lemma ModelSquares(sqrt: real -> real, m: Model)
    requires IsSqrt(sqrt)
    ensures Squared(ModelSides(sqrt, m)) == Squares(Gap(m.m0, m.m1), Gap(m.m0, m.m2), Gap(m.m1, m.m2))
  {
    hide Dot, Sqr, Norm;
    NormSquare(sqrt, Sub(m.m0, m.m1));
    NormSquare(sqrt, Sub(m.m0, m.m2));
    NormSquare(sqrt, Sub(m.m1, m.m2));
  }

  lemma BlobSquares(sqrt: real -> real, b: Blobs)
    requires IsSqrt(sqrt)
    ensures Squared(BlobSides(sqrt, b)) ==
      Squares(Sqr(b.b1.x - b.b0.x) + Sqr(b.b1.y - b.b0.y),
              Sqr(b.b2.x - b.b0.x) + Sqr(b.b2.y - b.b0.y),
              Sqr(b.b2.x - b.b1.x) + Sqr(b.b2.y - b.b1.y))
  {
    hide Sqr;
  }

  lemma ThirdGap(x: Vec, y: Vec)
    ensures Dot(Sub(y, x), Sub(y, x)) == Dot(x, x) + Dot(y, y) - 2.0 * Dot(x, y)
  {
    hide Dot;
    DotSub(y, x, Sub(y, x));
    DotSub(y, x, y);
    DotSub(y, x, x);
    DotComm(x, y);
  }

  lemma SqrDouble(a: real)
    ensures Sqr(2.0 * a) == 4.0 * (a * a)
  {
  }

  /** The area term of the model triangle is four times the squared cross product: positive exactly when the
      model points are not collinear. */
  lemma ModelArea(sqrt: real -> real, m: Model)
    requires IsSqrt(sqrt)
    ensures if Collinear(m) then Heron(ModelSides(sqrt, m)) == 0.0 else Heron(ModelSides(sqrt, m)) > 0.0
  {
    hide Dot, Cross, Sqr, Heron;
    var x, y := Sub(m.m0, m.m1), Sub(m.m0, m.m2);
    assert Sub(m.m1, m.m2) == Sub(y, x);
    HeronSquares(ModelSides(sqrt, m));
    ModelSquares(sqrt, m);
    ThirdGap(x, y);
    var q := Squares(Dot(x, x), Dot(y, y), Dot(Sub(y, x), Sub(y, x)));
    assert Squared(ModelSides(sqrt, m)) == q;
    assert Corner(q) == 2.0 * Dot(x, y);
    SqrDouble(Dot(x, y));
    Lagrange(x, y);
    SelfDot(Cross(x, y));
    assert HeronOf(q) == 4.0 * Dot(Cross(x, y), Cross(x, y));
  }

  ghost predicate OneSpot(b: Blobs) {
    b.b0 == b.b1 && b.b0 == b.b2
  }

  /** The scale is zero exactly when all three blobs coincide. */
  lemma ScaleZeroIffOneSpot(sqrt: real -> real, m: Model, b: Blobs)
    requires IsSqrt(sqrt) && !Collinear(m)
    ensures ScaleOf(sqrt, ModelSides(sqrt, m), BlobSides(sqrt, b)).Some?
    ensures ScaleOf(sqrt, ModelSides(sqrt, m), BlobSides(sqrt, b)).value == 0.0 <==> OneSpot(b)
  {
    hide Sqr, Heron, Quad;
    var r, d := ModelSides(sqrt, m), BlobSides(sqrt, b);
    ModelArea(sqrt, m);
    ScaleFacts(sqrt, r, d);
    var s := ScaleOf(sqrt, r, d).value;
    BlobSquares(sqrt, b);
    if OneSpot(b) {
      assert Squared(d) == Squares(0.0, 0.0, 0.0);
      ZeroScale(sqrt, r, d);
    } else if s == 0.0 {
      assert Sqr(s) == 0.0;
      TimesZero(Sqr(r.s01));
      TimesZero(Sqr(r.s02));
    }
  }

  lemma HeronOfZero()
    ensures HeronOf(Squares(0.0, 0.0, 0.0)) == 0.0
  {
    hide Sqr;
    assert Corner(Squares(0.0, 0.0, 0.0)) == 0.0;
  }

  lemma MixedZero(r: Squares)
    ensures Mixed(r, Squares(0.0, 0.0, 0.0)) == 0.0
  {
  }

  lemma RootZero(a: real)
    requires a != 0.0
    ensures Discriminant(a, 0.0, 0.0) == 0.0 && LargerRoot(a, 0.0, 0.0) == 0.0
  {
    hide Sqr;
  }

  lemma ZeroScale(sqrt: real -> real, r: Sides, d: Sides)
    requires IsSqrt(sqrt) && Heron(r) > 0.0 && Squared(d) == Squares(0.0, 0.0, 0.0)
    ensures ScaleOf(sqrt, r, d) == Some(0.0)
  {
    hide Sqr, Heron, HeronOf, Mixed, Discriminant, LargerRoot;
    HeronSquares(d);
    HeronOfZero();
    MixedZero(Squared(r));
    RootZero(Heron(r));
    assert sqrt(0.0) == 0.0;
  }

  /** Scale and depths of one observation: there for every proper triangle and every pair of distinct blobs. */
  lemma ObservationSolved(sqrt: real -> real, m: Model, b: Blobs)
    requires IsSqrt(sqrt) && !Collinear(m) && !OneSpot(b)
    ensures var r, d := ModelSides(sqrt, m), BlobSides(sqrt, b);
      && ScaleOf(sqrt, r, d).Some? && ScaleOf(sqrt, r, d).value > 0.0
      && Depths(sqrt, r, d, ScaleOf(sqrt, r, d).value).Some?
      && var s := ScaleOf(sqrt, r, d).value;
      var (h1, h2) := Depths(sqrt, r, d, s).value;
      GoodDepths(Squared(r), Squared(d), Sqr(s), h1, h2)
  {
    hide Sqr, Heron, Quad, ScaleOf, Depths, GoodDepths, Residual, Mixed;
    var r, d := ModelSides(sqrt, m), BlobSides(sqrt, b);
    ModelArea(sqrt, m);
    ScaleFacts(sqrt, r, d);
    ScaleZeroIffOneSpot(sqrt, m, b);
    var s := ScaleOf(sqrt, r, d).value;
    QuadOfSides(r, d, Sqr(s));
    DepthsExist(sqrt, r, d, s);
  }

  // ---------- the solver ----------

  datatype ModelType = Cap | Clip

  datatype Placement = Placement(p0: Vec, p1: Vec, p2: Vec)

  const MODEL_DIST := 1000.0

  /** The points found for a scale and depths. */
  function PlaceAll(b: Blobs, f: real, s: real, h1: real, h2: real): Placement
    requires s != 0.0
  {
    Placement(Placed(b.b0, f, s), Placed(b.b1, f + h1, s), Placed(b.b2, f + h2, s))
  }

  /** The three points have exactly the model's mutual distances. */
  ghost predicate Congruent(p: Placement, m: Model) {
    && Gap(p.p1, p.p0) == Gap(m.m0, m.m1)
    && Gap(p.p2, p.p0) == Gap(m.m0, m.m2)
    && Gap(p.p2, p.p1) == Gap(m.m1, m.m2)
  }

  /** All three points project to their blobs at one common scale. */
  ghost predicate ProjectsTo(p: Placement, b: Blobs, s: real) {
    && s > 0.0
    && p.p0.x * s == b.b0.x && p.p0.y * s == b.b0.y
    && p.p1.x * s == b.b1.x && p.p1.y * s == b.b1.y
    && p.p2.x * s == b.b2.x && p.p2.y * s == b.b2.y
  }

  /** Projection at scale s, with point 0 at the focal depth over that scale. */
  ghost predicate SeenAt(p: Placement, b: Blobs, focal: real, s: real) {
    ProjectsTo(p, b, s) && Times(p.p0.z, s) == focal
  }

  /** Point 1 lies behind point 0, or for a cap in front of it; when it lies at the depth of point 0, this goes for
      point 2. */
  predicate RightWayRound(p: Placement, kind: ModelType) {
    var side := if p.p1.z == p.p0.z then p.p2.z else p.p1.z;
    if kind == Cap then side <= p.p0.z else side >= p.p0.z
  }

  lemma PlacedProjects(b: Spot, z: real, s: real)
    requires s != 0.0
    ensures Placed(b, z, s).x * s == b.x && Placed(b, z, s).y * s == b.y
  {
  }

  lemma PlacementSolves(sqrt: real -> real, m: Model, b: Blobs, f: real, s: real, h1: real, h2: real)
    requires IsSqrt(sqrt) && s > 0.0
    requires GoodDepths(Squared(ModelSides(sqrt, m)), Squared(BlobSides(sqrt, b)), Sqr(s), h1, h2)
    ensures Congruent(PlaceAll(b, f, s, h1, h2), m) && ProjectsTo(PlaceAll(b, f, s, h1, h2), b, s)
  {
    hide Sqr, Gap, Placed, GoodDepths;
    ModelSquares(sqrt, m);
    BlobSquares(sqrt, b);
    PlacedTriangle(b.b0, b.b1, b.b2, f, s, Squared(ModelSides(sqrt, m)), Squared(BlobSides(sqrt, b)), h1, h2);
    PlacedProjects(b.b0, f, s);
    PlacedProjects(b.b1, f + h1, s);
    PlacedProjects(b.b2, f + h2, s);
  }

  lemma NegatedDepths(r: Squares, d: Squares, x: real, h1: real, h2: real)
    requires GoodDepths(r, d, x, h1, h2)
    ensures GoodDepths(r, d, x, -1.0 * h1, -1.0 * h2) && GoodDepths(r, d, x, 1.0 * h1, 1.0 * h2)
  {
    hide Sqr, Slack;
    SqrNeg(h1);
    SqrNeg(h2);
    assert (-1.0 * h1) * (-1.0 * h2) == h1 * h2;
  }

  class Solver {
    const sqrt: real -> real
    const kind: ModelType
    var model: Model
    var focal: Option<real>   // internal focal depth; None when the last recentring made it not finite

    constructor (sqrt: real -> real, kind: ModelType, model: Model)
      ensures this.sqrt == sqrt && this.kind == kind && this.model == model && focal == Some(MODEL_DIST)
    {
      this.sqrt, this.kind, this.model, focal := sqrt, kind, model, Some(MODEL_DIST);
    }

    /** Three points for three blobs. There is a finite answer exactly when the model points are not collinear
        and the blobs do not all coincide; the answer then has exactly the model's distances, and projects
        to the blobs at one scale, with point 0 at the focal depth over that scale. Of the mirror images it is
        the one with point 1 behind point 0, or in front of it for a cap, and likewise with point 2 when point 1 is at
        the depth of point 0. */
    method AlterPose(b: Blobs, centering: bool) returns (r: Option<Placement>)
      requires IsSqrt(sqrt)
      modifies `focal
      ensures !centering ==> focal == old(focal)
      ensures r.Some? <==> !Collinear(model) && !OneSpot(b) && (centering || focal.Some?)
      ensures r.Some? ==> Congruent(r.value, model)
      ensures r.Some? ==> focal.Some? && exists s :: SeenAt(r.value, b, focal.value, s)
      ensures r.Some? ==> RightWayRound(r.value, kind)
      ensures r.Some? && centering ==> exists s :: ProjectsTo(r.value, b, s) && focal == Some(MODEL_DIST * s)
      ensures r.Some? && centering ==> r.value.p0.z == MODEL_DIST
    {
      hide Sqr, Times, Heron, Mixed, ScaleOf, Depths, GoodDepths, Collinear, Congruent, ProjectsTo, Placed, IsSqrt;
      var sides, spots := ModelSides(sqrt, model), BlobSides(sqrt, b);
      var scale := ScaleOf(sqrt, sides, spots);
      if scale.None? {
        if centering { focal := None; }
        CollinearHasNoScale(sqrt, model, b);
        return None;
      }
      CollinearHasNoScale(sqrt, model, b);
      ScaleZeroIffOneSpot(sqrt, model, b);
      var s := scale.value;
      var depths := Depths(sqrt, sides, spots, s);
      if centering {
        focal := Some(MODEL_DIST * s);
      }
      if s == 0.0 {
        return None;
      }
      ObservationSolved(sqrt, model, b);
      if focal.None? {
        return None;
      }
      var sign := if kind == Cap then -1.0 else 1.0;
      var h1, h2 := sign * depths.value.0, sign * depths.value.1;
      NegatedDepths(Squared(sides), Squared(spots), Sqr(s), depths.value.0, depths.value.1);
      PlacementSolves(sqrt, model, b, focal.value, s, h1, h2);
      r := Some(PlaceAll(b, focal.value, s, h1, h2));
      PlacedDepth(b.b0, focal.value, s);
      DepthSigns(sqrt, sides, spots, s);
      DepthOrder(b.b0, b.b1, focal.value, s, h1);
      DepthOrder(b.b0, b.b2, focal.value, s, h2);
      assert SeenAt(r.value, b, focal.value, s);
    }
  }

  /** The first depth is not negative, and when it is zero, nor is the second. */
  lemma DepthSigns(sqrt: real -> real, r: Sides, d: Sides, s: real)
    requires IsSqrt(sqrt) && Depths(sqrt, r, d, s).Some?
    requires var (h1, h2) := Depths(sqrt, r, d, s).value; GoodDepths(Squared(r), Squared(d), Sqr(s), h1, h2)
    ensures var (h1, h2) := Depths(sqrt, r, d, s).value; h1 >= 0.0 && (h1 == 0.0 ==> h2 >= 0.0)
  {
    var (h1, h2) := Depths(sqrt, r, d, s).value;
    SlackSign(Sqr(s), Corner(Squared(r)), Corner(Squared(d)));
    if h1 == 0.0 {
      assert 2.0 * (h1 * h2) == 0.0;
    }
    hide Sqr, Corner, Squared, Slack, Times;
  }

  lemma DepthOrder(b0: Spot, b1: Spot, f: real, s: real, h: real)
    requires s > 0.0
    ensures h >= 0.0 <==> Placed(b1, f + h, s).z >= Placed(b0, f, s).z
    ensures h <= 0.0 <==> Placed(b1, f + h, s).z <= Placed(b0, f, s).z
  {
    assert (f + h) / s == f / s + h / s;
  }

  lemma PlacedDepth(b: Spot, z: real, s: real)
    requires s != 0.0
    ensures Placed(b, z, s).z == z / s && Times(Placed(b, z, s).z, s) == z
    ensures z == MODEL_DIST * s ==> Placed(b, z, s).z == MODEL_DIST
  {
  }

  /** A collinear model has no scale; any other has one. */
  lemma CollinearHasNoScale(sqrt: real -> real, m: Model, b: Blobs)
    requires IsSqrt(sqrt)
    ensures ScaleOf(sqrt, ModelSides(sqrt, m), BlobSides(sqrt, b)).Some? <==> !Collinear(m)
  {
    hide Sqr, Heron, Mixed, Collinear, IsSqrt;
    ModelArea(sqrt, m);
    if !Collinear(m) {
      ScaleFacts(sqrt, ModelSides(sqrt, m), BlobSides(sqrt, b));
    }
  }
}

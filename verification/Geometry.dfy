/** Vectors and 3x3 matrices over the reals, orthonormal bases, rotations and inversion. */
module Geometry {
  import opened Options

  datatype Vec = Vec(x: real, y: real, z: real)

  /** A matrix by rows. */
  datatype Mat = Mat(r0: Vec, r1: Vec, r2: Vec)

  const ORIGIN := Vec(0.0, 0.0, 0.0)
  const IDENTITY := Mat(Vec(1.0, 0.0, 0.0), Vec(0.0, 1.0, 0.0), Vec(0.0, 0.0, 1.0))

  function Sub(a: Vec, b: Vec): Vec { Vec(a.x - b.x, a.y - b.y, a.z - b.z) }

  function Add(a: Vec, b: Vec): Vec { Vec(a.x + b.x, a.y + b.y, a.z + b.z) }

  function Scale(a: Vec, c: real): Vec { Vec(a.x * c, a.y * c, a.z * c) }

  function Dot(a: Vec, b: Vec): real { a.x * b.x + a.y * b.y + a.z * b.z }

  function Cross(a: Vec, b: Vec): Vec {
    Vec(a.y * b.z - a.z * b.y, a.z * b.x - a.x * b.z, a.x * b.y - a.y * b.x)
  }

  function Apply(m: Mat, v: Vec): Vec { Vec(Dot(m.r0, v), Dot(m.r1, v), Dot(m.r2, v)) }

  function Transpose(m: Mat): Mat {
    Mat(Vec(m.r0.x, m.r1.x, m.r2.x), Vec(m.r0.y, m.r1.y, m.r2.y), Vec(m.r0.z, m.r1.z, m.r2.z))
  }

  function Mul(a: Mat, b: Mat): Mat {
    var t := Transpose(b);
    Mat(Apply(t, a.r0), Apply(t, a.r1), Apply(t, a.r2))
  }

  function Det(m: Mat): real { Dot(m.r0, Cross(m.r1, m.r2)) }

  // ---------- squares and square roots ----------

  function Times(a: real, b: real): real { a * b }

  lemma TimesPositive(a: real, b: real)
    requires (a > 0.0 && b > 0.0) || (a < 0.0 && b < 0.0)
    ensures Times(a, b) > 0.0
  {
  }

  lemma TimesZero(b: real)
    ensures Times(0.0, b) == 0.0
  {
  }

  function Sqr(a: real): (r: real)
    ensures if a == 0.0 then r == 0.0 else r > 0.0
  {
    hide Times;
    if a == 0.0 then TimesZero(a); Times(a, a) else TimesPositive(a, a); Times(a, a)
  }

  lemma SqrNeg(a: real)
    ensures Sqr(-a) == Sqr(a)
  {
    assert (-a) * (-a) == a * a;
  }

  lemma TimesGrows(a: real, b: real, c: real, d: real)
    requires 0.0 <= a < c && 0.0 <= b < d
    ensures Times(a, b) < Times(c, d)
  {
    assert c * d - a * b == (c - a) * d + a * (d - b);
    assert (c - a) * d > 0.0 && a * (d - b) >= 0.0;
  }

  /** What the square root is used for: a non-negative number with the given square. */
  ghost predicate IsSqrt(sqrt: real -> real) {
    forall a :: a >= 0.0 ==> sqrt(a) >= 0.0 && Sqr(sqrt(a)) == a
  }

  function Norm(sqrt: real -> real, a: Vec): real { sqrt(Dot(a, a)) }

  // ---------- algebra of dot and cross ----------

  lemma DotScale(a: Vec, c: real, b: Vec)
    ensures Dot(Scale(a, c), b) == c * Dot(a, b) == Dot(b, Scale(a, c))
  {
  }

  lemma DotSub(a: Vec, b: Vec, c: Vec)
    ensures Dot(Sub(a, b), c) == Dot(a, c) - Dot(b, c) && Dot(c, Sub(a, b)) == Dot(c, a) - Dot(c, b)
  {
  }

  lemma DotComm(a: Vec, b: Vec)
    ensures Dot(a, b) == Dot(b, a)
  {
  }

  lemma CrossOrthogonal(a: Vec, b: Vec)
    ensures Dot(a, Cross(a, b)) == 0.0 && Dot(b, Cross(a, b)) == 0.0
  {
  }

  lemma Lagrange(a: Vec, b: Vec)
    ensures Dot(Cross(a, b), Cross(a, b)) == Dot(a, a) * Dot(b, b) - Dot(a, b) * Dot(a, b)
  {
  }

  lemma BinetCauchy(a: Vec, b: Vec, c: Vec, d: Vec)
    ensures Dot(Cross(a, b), Cross(c, d)) == Dot(a, c) * Dot(b, d) - Dot(a, d) * Dot(b, c)
  {
  }

  lemma TripleCrossX(a: Vec, b: Vec, c: Vec)
    ensures Cross(a, Cross(b, c)).x == b.x * Dot(a, c) - c.x * Dot(a, b)
  {
  }

  lemma TripleCrossY(a: Vec, b: Vec, c: Vec)
    ensures Cross(a, Cross(b, c)).y == b.y * Dot(a, c) - c.y * Dot(a, b)
  {
  }

  lemma TripleCrossZ(a: Vec, b: Vec, c: Vec)
    ensures Cross(a, Cross(b, c)).z == b.z * Dot(a, c) - c.z * Dot(a, b)
  {
  }

  lemma TripleCross(a: Vec, b: Vec, c: Vec)
    ensures Cross(a, Cross(b, c)) == Sub(Scale(b, Dot(a, c)), Scale(c, Dot(a, b)))
  {
    hide Cross, Dot;
    TripleCrossX(a, b, c);
    TripleCrossY(a, b, c);
    TripleCrossZ(a, b, c);
  }

  lemma CrossAnti(a: Vec, b: Vec)
    ensures Cross(a, b) == Scale(Cross(b, a), -1.0)
  {
  }

  lemma MinorScale(a: real, b: real, c: real, d: real, s: real, t: real, m: real, k: real)
    requires s == b * k && t == d * k && m == a * b - c * d
    ensures a * s - c * t == m * k
  {
  }

  lemma CrossScaleRight(a: Vec, b: Vec, c: real)
    ensures Cross(a, Scale(b, c)) == Scale(Cross(a, b), c)
  {
    var s, m := Scale(b, c), Cross(a, b);
    MinorScale(a.y, b.z, a.z, b.y, s.z, s.y, m.x, c);
    MinorScale(a.z, b.x, a.x, b.z, s.x, s.z, m.y, c);
    MinorScale(a.x, b.y, a.y, b.x, s.y, s.x, m.z, c);
  }

  lemma CrossScale(a: Vec, b: Vec, c: real)
    ensures Cross(a, Scale(b, c)) == Scale(Cross(a, b), c) == Cross(Scale(a, c), b)
  {
    hide Cross;
    CrossScaleRight(a, b, c);
    CrossScaleRight(b, a, c);
    CrossAnti(a, b);
    CrossAnti(Scale(a, c), b);
  }

  lemma CrossSub(a: Vec, b: Vec, c: Vec)
    ensures Cross(a, Sub(b, c)) == Sub(Cross(a, b), Cross(a, c))
  {
  }

  /** Any vector is the sum of its components along an orthonormal pair and their cross product. */
  lemma BasisExpansion(p: Vec, q: Vec, v: Vec)
    requires Dot(p, p) == 1.0 && Dot(q, q) == 1.0 && Dot(p, q) == 0.0
    ensures var r := Cross(p, q);
      v == Add(Add(Scale(p, Dot(p, v)), Scale(q, Dot(q, v))), Scale(r, Dot(r, v)))
  {
    hide Cross, Dot;
    var r, a, b := Cross(p, q), Dot(p, v), Dot(q, v);
    Lagrange(p, q);
    assert Dot(r, r) == 1.0;
    DotComm(p, q);
    DotComm(p, v);
    DotComm(q, v);
    TripleCross(r, r, v);
    TripleCross(v, p, q);
    CrossAnti(r, v);
    assert Cross(r, v) == Sub(Scale(q, a), Scale(p, b));
    CrossSub(r, Scale(q, a), Scale(p, b));
    CrossScale(r, q, a);
    CrossScale(r, p, b);
    CrossAnti(r, q);
    CrossAnti(r, p);
    TripleCross(q, p, q);
    TripleCross(p, p, q);
    assert Cross(q, r) == p && Cross(p, r) == Scale(q, -1.0);
    assert Cross(r, q) == Scale(p, -1.0) && Cross(r, p) == q;
    assert Cross(r, Cross(r, v)) == Sub(Scale(r, Dot(r, v)), v);
    assert Cross(r, Cross(r, v)) == Sub(Scale(Scale(p, -1.0), a), Scale(q, b));
  }

  lemma DotSquares(a: Vec)
    ensures Dot(a, a) == Sqr(a.x) + Sqr(a.y) + Sqr(a.z)
  {
  }

  lemma SelfDot(a: Vec)
    ensures if a == ORIGIN then Dot(a, a) == 0.0 else Dot(a, a) > 0.0
  {
    hide Dot, Sqr;
    DotSquares(a);
  }

  // ---------- rotations ----------

  /** Orthonormal rows and determinant one. */
  ghost predicate Rotation(m: Mat) {
    && Dot(m.r0, m.r0) == 1.0 && Dot(m.r1, m.r1) == 1.0 && Dot(m.r2, m.r2) == 1.0
    && Dot(m.r0, m.r1) == 0.0 && Dot(m.r0, m.r2) == 0.0 && Dot(m.r1, m.r2) == 0.0
    && Det(m) == 1.0
  }

  lemma UnitVectorsEqual(a: Vec, b: Vec)
    requires Dot(a, a) == 1.0 && Dot(b, b) == 1.0 && Dot(a, b) == 1.0
    ensures a == b
  {
    hide Dot;
    DotSub(a, b, Sub(a, b));
    DotSub(a, b, a);
    DotSub(a, b, b);
    DotComm(a, b);
    SelfDot(Sub(a, b));
  }

  /** In a rotation each row is the cross product of the other two. */
  lemma RowsAreCrosses(m: Mat)
    requires Rotation(m)
    ensures Cross(m.r1, m.r2) == m.r0 && Cross(m.r2, m.r0) == m.r1 && Cross(m.r0, m.r1) == m.r2
  {
    hide Dot, Cross;
    var c := Cross(m.r1, m.r2);
    Lagrange(m.r1, m.r2);
    UnitVectorsEqual(m.r0, c);
    TripleCross(m.r2, m.r1, m.r2);
    TripleCross(m.r1, m.r1, m.r2);
    DotComm(m.r1, m.r2);
    CrossAnti(m.r1, c);
  }

  /** Orthonormal rows make orthonormal columns: the transpose undoes a rotation. */
  lemma TransposeUndoes(m: Mat, v: Vec)
    requires Rotation(m)
    ensures Apply(Transpose(m), Apply(m, v)) == v
  {
    hide Cross, Dot;
    RowsAreCrosses(m);
    BasisExpansion(m.r0, m.r1, v);
    TransposeApply(m, Apply(m, v));
  }

  lemma TransposeApply(m: Mat, w: Vec)
    ensures Apply(Transpose(m), w) == Add(Add(Scale(m.r0, w.x), Scale(m.r1, w.y)), Scale(m.r2, w.z))
  {
  }

  lemma TransposeDot(m: Mat, a: Vec, b: Vec)
    ensures Dot(Apply(m, a), b) == Dot(a, Apply(Transpose(m), b))
  {
  }

  lemma RotationKeepsDot(m: Mat, a: Vec, b: Vec)
    requires Rotation(m)
    ensures Dot(Apply(m, a), Apply(m, b)) == Dot(a, b)
  {
    TransposeDot(m, a, Apply(m, b));
    TransposeUndoes(m, b);
  }

  lemma RotationKeepsCross(m: Mat, a: Vec, b: Vec)
    requires Rotation(m)
    ensures Cross(Apply(m, a), Apply(m, b)) == Apply(m, Cross(a, b))
  {
    hide Cross, Dot;
    RowsAreCrosses(m);
    CrossOfImages(m, a, b);
    BinetCauchy(m.r1, m.r2, a, b);
    BinetCauchy(m.r2, m.r0, a, b);
    BinetCauchy(m.r0, m.r1, a, b);
  }

  lemma CrossOfImages(m: Mat, a: Vec, b: Vec)
    ensures Cross(Apply(m, a), Apply(m, b)) ==
      Vec(Dot(m.r1, a) * Dot(m.r2, b) - Dot(m.r1, b) * Dot(m.r2, a),
          Dot(m.r2, a) * Dot(m.r0, b) - Dot(m.r2, b) * Dot(m.r0, a),
          Dot(m.r0, a) * Dot(m.r1, b) - Dot(m.r0, b) * Dot(m.r1, a))
  {
    hide Dot;
  }

  // ---------- orthonormal bases ----------

  /** Gram-Schmidt on two vectors, completed by their cross product. A zero length along the way makes the
      result not finite: None. */
  function MakeBase(sqrt: real -> real, v1: Vec, v2: Vec): Option<Mat> {
    var n1 := Norm(sqrt, v1);
    if n1 == 0.0 then None
    else
      var e0 := Scale(v1, 1.0 / n1);
      var rest := Sub(v2, Scale(e0, Dot(v2, e0)));
      var n2 := Norm(sqrt, rest);
      if n2 == 0.0 then None
      else
        var e1 := Scale(rest, 1.0 / n2);
        Some(Mat(e0, e1, Cross(e0, e1)))
  }

  lemma InverseSquare(n: real, d: real)
    requires n != 0.0 && Sqr(n) == d
    ensures (1.0 / n) * ((1.0 / n) * d) == 1.0
  {
    assert (1.0 / n) * n == 1.0;
    assert (1.0 / n) * ((1.0 / n) * (n * n)) == ((1.0 / n) * n) * ((1.0 / n) * n);
  }

  lemma NormSquare(sqrt: real -> real, v: Vec)
    requires IsSqrt(sqrt)
    ensures Norm(sqrt, v) >= 0.0 && Sqr(Norm(sqrt, v)) == Dot(v, v)
  {
    hide Dot, Sqr;
    SelfDot(v);
  }

  lemma NormalizedUnit(sqrt: real -> real, v: Vec)
    requires IsSqrt(sqrt) && Norm(sqrt, v) != 0.0
    ensures var e := Scale(v, 1.0 / Norm(sqrt, v)); Dot(e, e) == 1.0
  {
    hide Dot, Sqr, Norm;
    var n := Norm(sqrt, v);
    NormSquare(sqrt, v);
    DotScale(v, 1.0 / n, Scale(v, 1.0 / n));
    DotScale(v, 1.0 / n, v);
    InverseSquare(n, Dot(v, v));
  }

  lemma NormZero(sqrt: real -> real, v: Vec)
    requires IsSqrt(sqrt)
    ensures Norm(sqrt, v) == 0.0 <==> v == ORIGIN
  {
    hide Dot, Sqr, Norm;
    SelfDot(v);
    NormSquare(sqrt, v);
  }

  /** What make_base returns is a rotation. */
  lemma BaseIsRotation(sqrt: real -> real, v1: Vec, v2: Vec)
    requires IsSqrt(sqrt) && MakeBase(sqrt, v1, v2).Some?
    ensures Rotation(MakeBase(sqrt, v1, v2).value)
  {
    var n1 := Norm(sqrt, v1);
    var e0 := Scale(v1, 1.0 / n1);
    var rest := Sub(v2, Scale(e0, Dot(v2, e0)));
    var n2 := Norm(sqrt, rest);
    var e1 := Scale(rest, 1.0 / n2);
    hide Dot, Cross, Norm;
    NormalizedUnit(sqrt, v1);
    NormalizedUnit(sqrt, rest);
    DotScale(e0, Dot(v2, e0), e0);
    DotSub(v2, Scale(e0, Dot(v2, e0)), e0);
    assert Dot(rest, e0) == 0.0;
    DotScale(rest, 1.0 / n2, e0);
    RightHanded(e0, e1);
  }

  lemma RightHanded(p: Vec, q: Vec)
    requires Dot(p, p) == 1.0 && Dot(q, q) == 1.0 && Dot(p, q) == 0.0
    ensures Rotation(Mat(p, q, Cross(p, q)))
  {
    hide Dot, Cross;
    Lagrange(p, q);
    CrossOrthogonal(p, q);
    DotComm(p, q);
    TripleCross(q, p, q);
    assert Cross(q, Cross(p, q)) == p;
  }

  // ---------- linearity ----------

  lemma ApplyScale(m: Mat, v: Vec, c: real)
    ensures Apply(m, Scale(v, c)) == Scale(Apply(m, v), c)
  {
    hide Dot;
    DotScale(v, c, m.r0);
    DotScale(v, c, m.r1);
    DotScale(v, c, m.r2);
    DotComm(m.r0, v);
    DotComm(m.r1, v);
    DotComm(m.r2, v);
  }

  lemma ApplySub(m: Mat, a: Vec, b: Vec)
    ensures Apply(m, Sub(a, b)) == Sub(Apply(m, a), Apply(m, b))
  {
    hide Dot;
    DotSub(a, b, m.r0);
    DotSub(a, b, m.r1);
    DotSub(a, b, m.r2);
  }

  lemma DotAdd(a: Vec, b: Vec, c: Vec)
    ensures Dot(c, Add(a, b)) == Dot(c, a) + Dot(c, b)
  {
  }

  lemma ApplyAdd(m: Mat, a: Vec, b: Vec)
    ensures Apply(m, Add(a, b)) == Add(Apply(m, a), Apply(m, b))
  {
    hide Dot;
    DotAdd(a, b, m.r0);
    DotAdd(a, b, m.r1);
    DotAdd(a, b, m.r2);
  }

  // ---------- when a base exists, and how it moves ----------

  /** No base exactly when the two vectors are collinear. */
  lemma NoBaseIffCollinear(sqrt: real -> real, v1: Vec, v2: Vec)
    requires IsSqrt(sqrt)
    ensures MakeBase(sqrt, v1, v2).None? <==> Cross(v1, v2) == ORIGIN
  {
    NormZero(sqrt, v1);
    if v1 == ORIGIN {
      assert Cross(ORIGIN, v2) == ORIGIN;
    } else {
      var n := Norm(sqrt, v1);
      var e := Scale(v1, 1.0 / n);
      var rest := Sub(v2, Scale(e, Dot(v2, e)));
      NormZero(sqrt, rest);
      CrossOfUnit(sqrt, v1, v2);
    }
  }

  lemma ScaleBack(v: Vec, n: real)
    requires n != 0.0
    ensures Scale(Scale(v, 1.0 / n), n) == v
  {
    assert (1.0 / n) * n == 1.0;
    assert v.x * (1.0 / n) * n == v.x;
    assert v.y * (1.0 / n) * n == v.y;
    assert v.z * (1.0 / n) * n == v.z;
  }

  lemma ScaleZero(v: Vec, n: real)
    requires n != 0.0
    ensures Scale(v, n) == ORIGIN <==> v == ORIGIN
  {
    ScaleBack(v, 1.0 / n);
    assert 1.0 / (1.0 / n) == n;
    assert Scale(ORIGIN, n) == ORIGIN && Scale(ORIGIN, 1.0 / n) == ORIGIN;
    if Scale(v, n) == ORIGIN {
      ScaleBack(v, n);
      assert v.x * n == 0.0 && v.y * n == 0.0 && v.z * n == 0.0;
      ZeroFactor(v.x, n);
      ZeroFactor(v.y, n);
      ZeroFactor(v.z, n);
    }
  }

  lemma ZeroFactor(a: real, n: real)
    requires a * n == 0.0 && n != 0.0
    ensures a == 0.0
  {
    assert a == a * n / n;
  }

  lemma PartAcross(e: Vec, v: Vec)
    requires Dot(e, e) == 1.0
    ensures Cross(e, Cross(e, v)) == Scale(Sub(v, Scale(e, Dot(v, e))), -1.0)
  {
    hide Dot, Cross;
    TripleCross(e, e, v);
    DotComm(e, v);
  }

  lemma AcrossZero(e: Vec, v: Vec)
    requires Dot(e, e) == 1.0
    ensures Cross(e, v) == ORIGIN <==> Sub(v, Scale(e, Dot(v, e))) == ORIGIN
  {
    hide Dot, Cross;
    PartAcross(e, v);
    CrossWithOrigin(e);
    if Sub(v, Scale(e, Dot(v, e))) == ORIGIN {
      assert v == Scale(e, Dot(v, e));
      CrossScale(e, e, Dot(v, e));
      CrossSelf(e);
    }
  }

  /** For e the unit vector along v1: v1 x v2 vanishes with the part of v2 across e. */
  lemma CrossOfUnit(sqrt: real -> real, v1: Vec, v2: Vec)
    requires IsSqrt(sqrt) && Norm(sqrt, v1) != 0.0
    ensures var e := Scale(v1, 1.0 / Norm(sqrt, v1));
      Cross(v1, v2) == ORIGIN <==> Sub(v2, Scale(e, Dot(v2, e))) == ORIGIN
  {
    hide Dot, Cross, Norm, Scale;
    var n := Norm(sqrt, v1);
    var e := Scale(v1, 1.0 / n);
    NormalizedUnit(sqrt, v1);
    ScaleBack(v1, n);
    CrossScale(e, v2, n);
    ScaleZero(Cross(e, v2), n);
    AcrossZero(e, v2);
  }

  lemma CrossWithOrigin(a: Vec)
    ensures Cross(a, ORIGIN) == ORIGIN
  {
  }

  lemma CrossSelf(a: Vec)
    ensures Cross(a, a) == ORIGIN
  {
  }

  /** In the base that is made from them, the first vector lies on the positive first axis, and the second in the plane
      of the first two, on the positive side. */
  lemma BaseAxes(sqrt: real -> real, v1: Vec, v2: Vec)
    requires IsSqrt(sqrt) && MakeBase(sqrt, v1, v2).Some?
    ensures var b := MakeBase(sqrt, v1, v2).value;
      && Apply(b, v1).x > 0.0 && Apply(b, v1).y == 0.0 && Apply(b, v1).z == 0.0
      && Apply(b, v2).y > 0.0 && Apply(b, v2).z == 0.0
  {
    var n1 := Norm(sqrt, v1);
    var e0 := Scale(v1, 1.0 / n1);
    var k := Dot(v2, e0);
    var rest := Sub(v2, Scale(e0, k));
    var n2 := Norm(sqrt, rest);
    BaseIsRotation(sqrt, v1, v2);
    NormSquare(sqrt, v1);
    NormSquare(sqrt, rest);
    ScaleBack(v1, n1);
    ScaleBack(rest, n2);
    assert v2 == Add(Scale(e0, k), rest);
    AxesOf(MakeBase(sqrt, v1, v2).value, n1, k, n2);
  }

  lemma AxesOf(b: Mat, n1: real, k: real, n2: real)
    requires Rotation(b)
    ensures Apply(b, Scale(b.r0, n1)) == Vec(n1, 0.0, 0.0)
    ensures Apply(b, Add(Scale(b.r0, k), Scale(b.r1, n2))) == Vec(k, n2, 0.0)
  {
    hide Dot;
    DotComm(b.r1, b.r0);
    DotComm(b.r2, b.r0);
    DotComm(b.r2, b.r1);
    ApplyScale(b, b.r0, n1);
    ApplyScale(b, b.r0, k);
    ApplyScale(b, b.r1, n2);
    ApplyAdd(b, Scale(b.r0, k), Scale(b.r1, n2));
    assert Apply(b, b.r0) == Vec(1.0, 0.0, 0.0) && Apply(b, b.r1) == Vec(0.0, 1.0, 0.0);
  }

  /** The base turns with the vectors it is made from. */
  lemma BaseTurns(sqrt: real -> real, m: Mat, v1: Vec, v2: Vec)
    requires Rotation(m)
    ensures var b := MakeBase(sqrt, v1, v2);
      MakeBase(sqrt, Apply(m, v1), Apply(m, v2)) ==
        if b.None? then None else Some(Mat(Apply(m, b.value.r0), Apply(m, b.value.r1), Apply(m, b.value.r2)))
  {
    hide Dot, Cross, Apply, Rotation;
    RotationKeepsDot(m, v1, v1);
    var n1 := Norm(sqrt, v1);
    if n1 != 0.0 {
      var e0 := Scale(v1, 1.0 / n1);
      ApplyScale(m, v1, 1.0 / n1);
      RotationKeepsDot(m, v2, e0);
      var k := Dot(v2, e0);
      var rest := Sub(v2, Scale(e0, k));
      ApplyScale(m, e0, k);
      ApplySub(m, v2, Scale(e0, k));
      RotationKeepsDot(m, rest, rest);
      var n2 := Norm(sqrt, rest);
      if n2 != 0.0 {
        ApplyScale(m, rest, 1.0 / n2);
        RotationKeepsCross(m, e0, Scale(rest, 1.0 / n2));
      }
    }
  }

  // ---------- inversion ----------

  /** Adjugate over determinant; not finite for a singular matrix. */
  function Invert(m: Mat): Option<Mat> {
    var det := Det(m);
    if det == 0.0 then None
    else
      Some(Transpose(Mat(Scale(Cross(m.r1, m.r2), 1.0 / det),
                         Scale(Cross(m.r2, m.r0), 1.0 / det),
                         Scale(Cross(m.r0, m.r1), 1.0 / det))))
  }

  lemma DetCyclic(p: Vec, q: Vec, r: Vec)
    ensures Dot(p, Cross(q, r)) == Dot(q, Cross(r, p)) == Dot(r, Cross(p, q))
  {
    DotCross(p, q, r);
    DotCross(q, r, p);
    DotCross(r, p, q);
    hide Dot, Cross;
  }

  lemma DotCross(p: Vec, q: Vec, r: Vec)
    ensures Dot(p, Cross(q, r)) ==
      p.x * q.y * r.z - p.x * q.z * r.y + p.y * q.z * r.x - p.y * q.x * r.z + p.z * q.x * r.y - p.z * q.y * r.x
  {
  }

  lemma InvertWorks(m: Mat)
    requires Invert(m).Some?
    ensures Mul(m, Invert(m).value) == IDENTITY
  {
    hide Dot, Cross;
    var p, q, r := m.r0, m.r1, m.r2;
    var det := Det(m);
    var k := 1.0 / det;
    assert det * k == 1.0;
    DetCyclic(p, q, r);
    InvertRow(p, q, r, k, p);
    InvertRow(p, q, r, k, q);
    InvertRow(p, q, r, k, r);
    CrossOrthogonal(q, r);
    CrossOrthogonal(r, p);
    CrossOrthogonal(p, q);
  }

  lemma InvertRow(p: Vec, q: Vec, r: Vec, k: real, v: Vec)
    ensures Apply(Mat(Scale(Cross(q, r), k), Scale(Cross(r, p), k), Scale(Cross(p, q), k)), v) ==
      Vec(k * Dot(v, Cross(q, r)), k * Dot(v, Cross(r, p)), k * Dot(v, Cross(p, q)))
  {
    hide Dot, Cross;
    DotScale(Cross(q, r), k, v);
    DotScale(Cross(r, p), k, v);
    DotScale(Cross(p, q), k, v);
    DotComm(v, Cross(q, r));
    DotComm(v, Cross(r, p));
    DotComm(v, Cross(p, q));
  }

  lemma MulIdentity(m: Mat)
    ensures Mul(m, IDENTITY) == m
  {
  }

  lemma TransposeMul(b: Mat, c: Mat, v: Vec)
    ensures Apply(Transpose(Mul(b, c)), v) == Apply(Transpose(c), Apply(Transpose(b), v))
  {
    hide Dot, Apply, Transpose;
    var t := Transpose(c);
    TransposeApply(Mul(b, c), v);
    TransposeApply(b, v);
    ApplyScale(t, b.r0, v.x);
    ApplyScale(t, b.r1, v.y);
    ApplyScale(t, b.r2, v.z);
    ApplyAdd(t, Scale(b.r0, v.x), Scale(b.r1, v.y));
    ApplyAdd(t, Add(Scale(b.r0, v.x), Scale(b.r1, v.y)), Scale(b.r2, v.z));
  }

  lemma MulAssoc(a: Mat, b: Mat, c: Mat)
    ensures Mul(Mul(a, b), c) == Mul(a, Mul(b, c))
  {
    hide Dot, Apply, Transpose;
    TransposeMul(b, c, a.r0);
    TransposeMul(b, c, a.r1);
    TransposeMul(b, c, a.r2);
  }

  /** Turning every column of a matrix is multiplying it by the rotation on the left. */
  lemma TurnColumns(m: Mat, d: Mat)
    ensures Transpose(Mat(Apply(m, d.r0), Apply(m, d.r1), Apply(m, d.r2))) == Mul(m, Transpose(d))
  {
    hide Dot;
    assert Transpose(Transpose(d)) == d;
    DotComm(m.r0, d.r0); DotComm(m.r0, d.r1); DotComm(m.r0, d.r2);
    DotComm(m.r1, d.r0); DotComm(m.r1, d.r1); DotComm(m.r1, d.r2);
    DotComm(m.r2, d.r0); DotComm(m.r2, d.r1); DotComm(m.r2, d.r2);
  }
}

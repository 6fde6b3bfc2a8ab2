/** Rotation angles as (cosine, sine) pairs, and the conversions between them and matrices. */
module Euler {
  import opened Geometry

  datatype Angle = Angle(c: real, s: real)

  const ZERO_ANGLE := Angle(1.0, 0.0)
  const GIMBAL := 0.00001

  ghost predicate Unit(a: Angle) {
    Sqr(a.c) + Sqr(a.s) == 1.0
  }

  /** The angle of the point (x, y); the origin gives angle zero. */
  function ArcTan2(sqrt: real -> real, y: real, x: real): Angle {
    if x == 0.0 && y == 0.0 then ZERO_ANGLE
    else
      var h := sqrt(Sqr(x) + Sqr(y));
      if h == 0.0 then ZERO_ANGLE else Angle(x / h, y / h)
  }

  datatype Angles = Angles(pitch: Angle, yaw: Angle, roll: Angle)

  function Abs(a: real): real { if a < 0.0 then -a else a }

  function Clamp(a: real): real { if a < -1.0 then -1.0 else if a > 1.0 then 1.0 else a }

  function MatrixToEuler(sqrt: real -> real, m: Mat): Angles {
    var sy := Clamp(m.r0.z);
    var cy := sqrt(1.0 - Sqr(sy));
    if Abs(cy) > GIMBAL then
      Angles(ArcTan2(sqrt, -m.r1.z / cy, m.r2.z / cy), Angle(cy, sy), ArcTan2(sqrt, -m.r0.y / cy, m.r0.x / cy))
    else
      Angles(ZERO_ANGLE, Angle(cy, sy), ArcTan2(sqrt, m.r1.x, m.r1.y))
  }

  function EulerToMatrix(a: Angles): Mat {
    var cp, sp, cy, sy, cr, sr := a.pitch.c, a.pitch.s, a.yaw.c, a.yaw.s, a.roll.c, a.roll.s;
    Mat(Vec(cr * cy, -sr * cy, sy),
        Vec(cr * sy * sp + sr * cp, -sr * sy * sp + cr * cp, -cy * sp),
        Vec(-cr * sy * cp + sr * sp, sr * sy * cp + cr * sp, cy * cp))
  }

  // ---------- angles to matrix ----------

  function TurnX(a: Angle): Mat { Mat(Vec(1.0, 0.0, 0.0), Vec(0.0, a.c, -a.s), Vec(0.0, a.s, a.c)) }

  function TurnY(a: Angle): Mat { Mat(Vec(a.c, 0.0, a.s), Vec(0.0, 1.0, 0.0), Vec(-a.s, 0.0, a.c)) }

  function TurnZ(a: Angle): Mat { Mat(Vec(a.c, -a.s, 0.0), Vec(a.s, a.c, 0.0), Vec(0.0, 0.0, 1.0)) }

  lemma YawRoll(y: Angle, r: Angle)
    ensures Mul(TurnY(y), TurnZ(r)) ==
      Mat(Vec(r.c * y.c, -r.s * y.c, y.s), Vec(r.s, r.c, 0.0), Vec(-r.c * y.s, r.s * y.s, y.c))
  {
    hide Transpose, Apply;
    var z := TurnZ(r);
    TransposeApply(z, TurnY(y).r0);
    TransposeApply(z, TurnY(y).r1);
    TransposeApply(z, TurnY(y).r2);
  }

  lemma PitchOf(p: Angle, m: Mat)
    ensures Mul(TurnX(p), m) ==
      Mat(m.r0, Sub(Scale(m.r1, p.c), Scale(m.r2, p.s)), Add(Scale(m.r1, p.s), Scale(m.r2, p.c)))
  {
    TransposeApply(m, TurnX(p).r0);
    TransposeApply(m, TurnX(p).r1);
    TransposeApply(m, TurnX(p).r2);
    NoneOfFirst(m, p.c, -p.s);
    NoneOfFirst(m, p.s, p.c);
    OnlyFirst(m);
    hide Transpose, Apply, Scale, Add;
    ScaleNeg(m.r2, p.s);
    AddNeg(Scale(m.r1, p.c), Scale(m.r2, p.s));
  }

  lemma NoneOfFirst(m: Mat, b: real, c: real)
    ensures Add(Add(Scale(m.r0, 0.0), Scale(m.r1, b)), Scale(m.r2, c)) == Add(Scale(m.r1, b), Scale(m.r2, c))
  {
  }

  lemma OnlyFirst(m: Mat)
    ensures Add(Add(Scale(m.r0, 1.0), Scale(m.r1, 0.0)), Scale(m.r2, 0.0)) == m.r0
  {
  }

  lemma ScaleNeg(v: Vec, c: real)
    ensures Scale(v, -c) == Sub(ORIGIN, Scale(v, c))
  {
  }

  lemma AddNeg(v: Vec, w: Vec)
    ensures Add(v, Sub(ORIGIN, w)) == Sub(v, w)
  {
  }

  /** The matrix is roll about z, then yaw about y, then pitch about x. */
  lemma EulerIsProduct(a: Angles)
    ensures EulerToMatrix(a) == Mul(TurnX(a.pitch), Mul(TurnY(a.yaw), TurnZ(a.roll)))
  {
    hide Mul;
    YawRoll(a.yaw, a.roll);
    PitchOf(a.pitch, Mul(TurnY(a.yaw), TurnZ(a.roll)));
  }

  lemma TurnsAreRotations(a: Angle)
    requires Unit(a)
    ensures Rotation(TurnX(a)) && Rotation(TurnY(a)) && Rotation(TurnZ(a))
    ensures Rotation(Transpose(TurnY(a))) && Rotation(Transpose(TurnZ(a)))
  {
  }

  /** A rotation times a matrix whose transpose is a rotation is a rotation. */
  lemma ProductIsRotation(a: Mat, b: Mat)
    requires Rotation(a) && Rotation(Transpose(b))
    ensures Rotation(Mul(a, b))
  {
    hide Dot, Cross, Apply, Transpose;
    var t := Transpose(b);
    RotationKeepsDot(t, a.r0, a.r0);
    RotationKeepsDot(t, a.r1, a.r1);
    RotationKeepsDot(t, a.r2, a.r2);
    RotationKeepsDot(t, a.r0, a.r1);
    RotationKeepsDot(t, a.r0, a.r2);
    RotationKeepsDot(t, a.r1, a.r2);
    RotationKeepsCross(t, a.r1, a.r2);
    RotationKeepsDot(t, a.r0, Cross(a.r1, a.r2));
  }

  /** euler_to_matrix always yields a rotation. */
  lemma EulerIsRotation(a: Angles)
    requires Unit(a.pitch) && Unit(a.yaw) && Unit(a.roll)
    ensures Rotation(EulerToMatrix(a))
  {
    hide Dot, Cross, Mul, TurnX, TurnY, TurnZ, EulerToMatrix;
    EulerIsProduct(a);
    TurnsAreRotations(a.pitch);
    TurnsAreRotations(a.yaw);
    TurnsAreRotations(a.roll);
    MulAssoc(TurnX(a.pitch), TurnY(a.yaw), TurnZ(a.roll));
    ProductIsRotation(TurnX(a.pitch), TurnY(a.yaw));
    ProductIsRotation(Mul(TurnX(a.pitch), TurnY(a.yaw)), TurnZ(a.roll));
  }

  /** Aligning a displacement with the head keeps its length. */
  lemma AlignedLengthKept(a: Angles, v: Vec)
    requires Unit(a.pitch) && Unit(a.yaw) && Unit(a.roll)
    ensures Dot(Apply(EulerToMatrix(a), v), Apply(EulerToMatrix(a), v)) == Dot(v, v)
  {
    EulerIsRotation(a);
    RotationKeepsDot(EulerToMatrix(a), v, v);
  }

  // ---------- matrix to angles and back ----------

  lemma SquareAtMostOne(a: real)
    requires Sqr(a) <= 1.0
    ensures -1.0 <= a <= 1.0
  {
    if a > 1.0 { GrowsPast(a, a); }
    if a < -1.0 { GrowsPast(-a, -a); SqrNeg(a); }
  }

  lemma GrowsPast(a: real, b: real)
    requires a > 1.0 && b > 1.0
    ensures Times(a, b) > 1.0
  {
    assert a * b > b;
  }

  lemma RootOfOne(h: real)
    requires h >= 0.0 && Sqr(h) == 1.0
    ensures h == 1.0
  {
    SquareAtMostOne(h);
    if h < 1.0 { ShrinksBelow(h, h); }
  }

  lemma ShrinksBelow(a: real, b: real)
    requires 0.0 <= a < 1.0 && 0.0 <= b < 1.0
    ensures Times(a, b) < 1.0
  {
    assert a * b <= b;
  }

  /** A point on the unit circle is its own angle. */
  lemma ArcTan2Unit(sqrt: real -> real, y: real, x: real)
    requires IsSqrt(sqrt) && Sqr(x) + Sqr(y) == 1.0
    ensures ArcTan2(sqrt, y, x) == Angle(x, y)
  {
    hide Sqr;
    RootOfOne(sqrt(1.0));
  }

  lemma SqrOver(x: real, c: real)
    requires c != 0.0
    ensures Sqr(x / c) == Sqr(x) * ((1.0 / c) * (1.0 / c))
  {
    assert x / c == x * (1.0 / c);
    Rearrange(x, 1.0 / c);
  }

  lemma Rearrange(x: real, k: real)
    ensures (x * k) * (x * k) == (x * x) * (k * k)
  {
  }

  lemma OverRadius(x: real, y: real, c: real)
    requires c != 0.0 && Sqr(x) + Sqr(y) == Sqr(c)
    ensures Sqr(x / c) + Sqr(y / c) == 1.0
  {
    hide Sqr;
    SqrOver(x, c);
    SqrOver(y, c);
    var k := (1.0 / c) * (1.0 / c);
    assert Sqr(x) * k + Sqr(y) * k == (Sqr(x) + Sqr(y)) * k;
    InverseSquare(c, Sqr(c));
    assert Sqr(c) * k == (1.0 / c) * ((1.0 / c) * Sqr(c));
  }

  /** Squares of the entries of the first row, and of the third column, add up to one. */
  lemma RowAndColumn(m: Mat)
    requires Rotation(m)
    ensures Sqr(m.r0.x) + Sqr(m.r0.y) + Sqr(m.r0.z) == 1.0
    ensures Sqr(m.r1.x) + Sqr(m.r1.y) + Sqr(m.r1.z) == 1.0
    ensures Sqr(m.r0.z) + Sqr(m.r1.z) + Sqr(m.r2.z) == 1.0
  {
    DotSquares(m.r0);
    DotSquares(m.r1);
    var up := Vec(0.0, 0.0, 1.0);
    var column := Vec(m.r0.z, m.r1.z, m.r2.z);
    assert Apply(m, up) == column;
    TransposeUndoes(m, up);
    DotSquares(column);
  }

  /** The cosine of the yaw that matrix_to_euler computes. */
  function YawCosine(sqrt: real -> real, m: Mat): real {
    sqrt(1.0 - Sqr(Clamp(m.r0.z)))
  }

  lemma YawOfRotation(sqrt: real -> real, m: Mat)
    requires IsSqrt(sqrt) && Rotation(m)
    ensures Clamp(m.r0.z) == m.r0.z && YawCosine(sqrt, m) >= 0.0
    ensures Sqr(YawCosine(sqrt, m)) == Sqr(m.r0.x) + Sqr(m.r0.y) == Sqr(m.r1.z) + Sqr(m.r2.z)
    ensures Unit(Angle(YawCosine(sqrt, m), m.r0.z))
  {
    hide Sqr, Rotation;
    RowAndColumn(m);
    SquareAtMostOne(m.r0.z);
  }

  /** The angles found when the yaw is not near a right angle. */
  lemma AnglesAwayFromGimbal(sqrt: real -> real, m: Mat)
    requires IsSqrt(sqrt) && Rotation(m) && YawCosine(sqrt, m) > GIMBAL
    ensures var cy := YawCosine(sqrt, m);
      MatrixToEuler(sqrt, m) ==
        Angles(Angle(m.r2.z / cy, -m.r1.z / cy), Angle(cy, m.r0.z), Angle(m.r0.x / cy, -m.r0.y / cy))
  {
    hide Sqr, Rotation, ArcTan2;
    var cy := YawCosine(sqrt, m);
    YawOfRotation(sqrt, m);
    SqrNeg(m.r1.z);
    SqrNeg(m.r0.y);
    OverRadius(m.r2.z, -m.r1.z, cy);
    OverRadius(m.r0.x, -m.r0.y, cy);
    ArcTan2Unit(sqrt, -m.r1.z / cy, m.r2.z / cy);
    ArcTan2Unit(sqrt, -m.r0.y / cy, m.r0.x / cy);
  }

  /** From a == b*s - c and b == s*a - d follows a*(1 - s*s) == -(d*s) - c. */
  lemma Eliminate(a: real, b: real, c: real, d: real, s: real)
    requires a == b * s - c && b == s * a - d
    ensures a * (1.0 - s * s) == -(d * s) - c
  {
    assert b * s == (s * a - d) * s;
    assert (s * a - d) * s == a * (s * s) - d * s;
    assert a * (1.0 - s * s) == a - a * (s * s);
  }

  /** p/c * s * (q/c) + r/c * (t/c) is x when x*c*c is p*s*q + r*t. */
  lemma Recombine(x: real, p: real, q: real, r: real, t: real, s: real, c: real)
    requires c != 0.0 && x * (c * c) == p * s * q + r * t
    ensures (p / c) * s * (q / c) + (r / c) * (t / c) == x
  {
    var k := 1.0 / c;
    assert k * c == 1.0;
    assert p / c == p * k && q / c == q * k && r / c == r * k && t / c == t * k;
    assert (p * k) * s * (q * k) + (r * k) * (t * k) == (p * s * q + r * t) * (k * k);
    assert (x * (c * c)) * (k * k) == x * ((k * c) * (k * c));
  }

  /** One remaining entry: x is fixed by its two cross-product equations. */
  lemma EntryBack(x: real, b: real, p: real, q: real, r: real, t: real, s: real, c: real)
    requires c != 0.0 && c * c == 1.0 - s * s
    requires x == b * s + r * t && b == s * x + p * q
    ensures (p / c) * s * (q / c) + (r / c) * (t / c) == x
  {
    Eliminate(x, b, -(r * t), -(p * q), s);
    assert x * (1.0 - s * s) == (p * q) * s + r * t;
    assert x * (c * c) == p * s * q + r * t;
    Recombine(x, p, q, r, t, s, c);
  }

  /** The rows as cross products, entry by entry. */
  lemma CrossEntries(m: Mat)
    requires Rotation(m)
    ensures m.r1.x == m.r2.y * m.r0.z - m.r2.z * m.r0.y && m.r1.y == m.r2.z * m.r0.x - m.r2.x * m.r0.z
    ensures m.r2.x == m.r0.y * m.r1.z - m.r0.z * m.r1.y && m.r2.y == m.r0.z * m.r1.x - m.r0.x * m.r1.z
    ensures m.r0.x == m.r1.y * m.r2.z - m.r1.z * m.r2.y && m.r0.y == m.r1.z * m.r2.x - m.r1.x * m.r2.z
  {
    hide Dot;
    RowsAreCrosses(m);
  }

  lemma NegOver(x: real, c: real)
    requires c != 0.0
    ensures -x / c == -(x / c) && (x / c) * c == x
  {
  }

  /** The entries that are not products of two, from the outer ones. */
  lemma InnerEntriesR1(m: Mat, c: real)
    requires Rotation(m) && c != 0.0 && c * c == 1.0 - m.r0.z * m.r0.z
    ensures (m.r0.x / c) * m.r0.z * (-m.r1.z / c) + (-m.r0.y / c) * (m.r2.z / c) == m.r1.x
    ensures (m.r0.y / c) * m.r0.z * (-m.r1.z / c) + (m.r0.x / c) * (m.r2.z / c) == m.r1.y
  {
    hide Rotation;
    CrossEntries(m);
    EntryBack(m.r1.x, m.r2.y, m.r0.x, -m.r1.z, -m.r0.y, m.r2.z, m.r0.z, c);
    EntryBack(m.r1.y, -m.r2.x, m.r0.y, -m.r1.z, m.r0.x, m.r2.z, m.r0.z, c);
  }

  lemma InnerEntriesR2(m: Mat, c: real)
    requires Rotation(m) && c != 0.0 && c * c == 1.0 - m.r0.z * m.r0.z
    ensures (-m.r0.x / c) * m.r0.z * (m.r2.z / c) + (-m.r0.y / c) * (-m.r1.z / c) == m.r2.x
    ensures (-m.r0.y / c) * m.r0.z * (m.r2.z / c) + (m.r0.x / c) * (-m.r1.z / c) == m.r2.y
  {
    hide Rotation;
    CrossEntries(m);
    EntryBack(m.r2.x, -m.r1.y, -m.r0.x, m.r2.z, -m.r0.y, -m.r1.z, m.r0.z, c);
    EntryBack(m.r2.y, m.r1.x, -m.r0.y, m.r2.z, m.r0.x, -m.r1.z, m.r0.z, c);
  }

  /** The angles found when the cosine of the yaw is c. */
  function QuotientAngles(m: Mat, c: real): Angles
    requires c != 0.0
  {
    Angles(Angle(m.r2.z / c, -m.r1.z / c), Angle(c, m.r0.z), Angle(m.r0.x / c, -m.r0.y / c))
  }

  lemma QuotientRow0(m: Mat, c: real)
    requires c != 0.0
    ensures EulerToMatrix(QuotientAngles(m, c)).r0 == m.r0
  {
    NegOver(m.r0.x, c);
    NegOver(m.r0.y, c);
  }

  lemma QuotientRow1(m: Mat, c: real)
    requires c != 0.0
    ensures EulerToMatrix(QuotientAngles(m, c)).r1 ==
      Vec((m.r0.x / c) * m.r0.z * (-m.r1.z / c) + (-m.r0.y / c) * (m.r2.z / c),
          (m.r0.y / c) * m.r0.z * (-m.r1.z / c) + (m.r0.x / c) * (m.r2.z / c),
          m.r1.z)
  {
    NegOver(m.r0.y, c);
    NegOver(m.r1.z, c);
  }

  lemma QuotientRow2(m: Mat, c: real)
    requires c != 0.0
    ensures EulerToMatrix(QuotientAngles(m, c)).r2 ==
      Vec((-m.r0.x / c) * m.r0.z * (m.r2.z / c) + (-m.r0.y / c) * (-m.r1.z / c),
          (-m.r0.y / c) * m.r0.z * (m.r2.z / c) + (m.r0.x / c) * (-m.r1.z / c),
          m.r2.z)
  {
    NegOver(m.r0.x, c);
    NegOver(m.r2.z, c);
  }

  /** Away from a right-angle yaw the angles give the matrix back. */
  lemma BackAwayFromGimbal(sqrt: real -> real, m: Mat)
    requires IsSqrt(sqrt) && Rotation(m) && YawCosine(sqrt, m) > GIMBAL
    ensures EulerToMatrix(MatrixToEuler(sqrt, m)) == m
  {
    hide Sqr, Rotation, MatrixToEuler, YawCosine, EulerToMatrix;
    var c := YawCosine(sqrt, m);
    AnglesAwayFromGimbal(sqrt, m);
    CosineSquare(sqrt, m);
    InnerEntriesR1(m, c);
    InnerEntriesR2(m, c);
    QuotientRow0(m, c);
    QuotientRow1(m, c);
    QuotientRow2(m, c);
  }

  lemma CosineSquare(sqrt: real -> real, m: Mat)
    requires IsSqrt(sqrt) && Rotation(m)
    ensures YawCosine(sqrt, m) * YawCosine(sqrt, m) == 1.0 - m.r0.z * m.r0.z
  {
    hide Rotation, YawCosine;
    YawOfRotation(sqrt, m);
  }

  /** Near a right-angle yaw the pitch is reported as zero, so the result has no pitch entry. */
  lemma NearGimbalPitchLost(sqrt: real -> real, m: Mat)
    requires IsSqrt(sqrt) && Rotation(m) && YawCosine(sqrt, m) <= GIMBAL
    ensures var e := EulerToMatrix(MatrixToEuler(sqrt, m)); e.r1.z == 0.0 && e.r2.z == YawCosine(sqrt, m)
  {
    hide Sqr, Rotation;
    YawOfRotation(sqrt, m);
  }

  lemma SqrBoth(a: real, b: real)
    requires Sqr(a) == Sqr(b) && a >= 0.0 && b >= 0.0
    ensures a == b
  {
    if a > b { TimesGrows(b, b, a, a); }
    if a < b { TimesGrows(a, a, b, b); }
  }

  /** With no pitch in the matrix the angles give it back even there. */
  lemma BackWithoutPitch(sqrt: real -> real, m: Mat)
    requires IsSqrt(sqrt) && Rotation(m) && YawCosine(sqrt, m) <= GIMBAL && m.r1.z == 0.0 && m.r2.z >= 0.0
    ensures EulerToMatrix(MatrixToEuler(sqrt, m)) == m
  {
    hide Sqr, Rotation, ArcTan2;
    YawOfRotation(sqrt, m);
    RowAndColumn(m);
    assert Sqr(0.0) == 0.0;
    SqrBoth(YawCosine(sqrt, m), m.r2.z);
    ArcTan2Unit(sqrt, m.r1.x, m.r1.y);
    assert MatrixToEuler(sqrt, m) == Angles(ZERO_ANGLE, Angle(m.r2.z, m.r0.z), Angle(m.r1.y, m.r1.x));
    CrossEntries(m);
  }

  /** Converting a rotation to angles and back gives it back exactly when the cosine of the yaw is above the
      threshold or the matrix has no pitch to lose. */
  lemma EulerRoundTrip(sqrt: real -> real, m: Mat)
    requires IsSqrt(sqrt) && Rotation(m)
    ensures EulerToMatrix(MatrixToEuler(sqrt, m)) == m <==>
      YawCosine(sqrt, m) > GIMBAL || (m.r1.z == 0.0 && m.r2.z >= 0.0)
  {
    hide Sqr, Rotation, MatrixToEuler, EulerToMatrix, YawCosine;
    YawOfRotation(sqrt, m);
    if YawCosine(sqrt, m) > GIMBAL {
      BackAwayFromGimbal(sqrt, m);
    } else {
      NearGimbalPitchLost(sqrt, m);
      if m.r1.z == 0.0 && m.r2.z >= 0.0 {
        BackWithoutPitch(sqrt, m);
      }
    }
  }

  /** At an exactly right-angle yaw the matrix always comes back. */
  lemma RightAngleYawBack(sqrt: real -> real, m: Mat)
    requires IsSqrt(sqrt) && Rotation(m) && (m.r0.z == 1.0 || m.r0.z == -1.0)
    ensures EulerToMatrix(MatrixToEuler(sqrt, m)) == m
  {
    hide Sqr, Rotation, MatrixToEuler, EulerToMatrix;
    YawOfRotation(sqrt, m);
    RowAndColumn(m);
    SqrNeg(1.0);
    SqrOne();
    EulerRoundTrip(sqrt, m);
  }

  lemma SqrOne()
    ensures Sqr(1.0) == 1.0
  {
  }

  lemma PitchedEntries(yaw: Angle)
    ensures var m := EulerToMatrix(Angles(Angle(0.0, 1.0), yaw, ZERO_ANGLE)); m.r1.z == -yaw.c && m.r2.z == 0.0
  {
  }

  lemma PitchedCosine(sqrt: real -> real, m: Mat, c: real)
    requires IsSqrt(sqrt) && Rotation(m) && m.r1.z == -c && m.r2.z == 0.0 && c >= 0.0
    ensures YawCosine(sqrt, m) == c
  {
    hide Rotation, YawCosine, Sqr;
    YawOfRotation(sqrt, m);
    SqrNeg(c);
    SqrBoth(YawCosine(sqrt, m), c);
  }

  /** Rotations just off the right-angle yaw, pitched by a right angle, do not come back. */
  lemma LostNearGimbal(sqrt: real -> real, yaw: Angle)
    requires IsSqrt(sqrt) && Unit(yaw) && 0.0 < yaw.c <= GIMBAL
    ensures var m := EulerToMatrix(Angles(Angle(0.0, 1.0), yaw, ZERO_ANGLE));
      Rotation(m) && EulerToMatrix(MatrixToEuler(sqrt, m)) != m
  {
    hide Rotation, MatrixToEuler, YawCosine, Sqr, EulerToMatrix;
    var a := Angles(Angle(0.0, 1.0), yaw, ZERO_ANGLE);
    SqrOne();
    EulerIsRotation(a);
    PitchedEntries(yaw);
    PitchedCosine(sqrt, EulerToMatrix(a), yaw.c);
    EulerRoundTrip(sqrt, EulerToMatrix(a));
  }

  /** Such angles exist. */
  lemma NearGimbalAngle()
    ensures var yaw := Angle(2000000.0 / 1000000000001.0, 999999999999.0 / 1000000000001.0);
      Unit(yaw) && 0.0 < yaw.c <= GIMBAL
  {
  }
}

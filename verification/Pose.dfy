/** Head pose from three points: the centre of rotation in the points' own base, recentring, and the
    recovered rotation and translation. */
module Pose {
  import opened Options
  import opened Geometry
  import opened Euler

  datatype Points = Points(p0: Vec, p1: Vec, p2: Vec)

  function BaseOf(sqrt: real -> real, p: Points): Option<Mat> {
    MakeBase(sqrt, Sub(p.p1, p.p0), Sub(p.p2, p.p0))
  }

  /** The centre of rotation c in the local base of the points. */
  function LocalCentre(sqrt: real -> real, p: Points, c: Vec): Option<Vec> {
    var base := BaseOf(sqrt, p);
    if base.None? then None
    else
      var r := Points(Sub(p.p0, c), Sub(p.p1, c), Sub(p.p2, c));
      Some(Apply(base.value, Sub(ORIGIN, r.p0)))
  }

  /** The centre of rotation of points seen anywhere, from its local coordinates. */
  function CentreOf(p: Points, base: Mat, local: Vec): Vec {
    Add(Apply(Transpose(base), local), p.p0)
  }

  /** The points relative to c, as columns. */
  function Spread(p: Points, c: Vec): Mat {
    Transpose(Mat(Sub(p.p0, c), Sub(p.p1, c), Sub(p.p2, c)))
  }

  datatype Found = Found(rot: Mat, angles: Angles, trans: Vec, centre: Vec, absAngles: Angles)

  /** The pose of points p against a reference centre and inverse spread. */
  function PoseAgainst(sqrt: real -> real, p: Points, local: Vec, centre: Vec, inverse: Mat, modelInverse: Mat)
    : Option<Found>
  {
    var base := BaseOf(sqrt, p);
    if base.None? then None
    else
      var c := CentreOf(p, base.value, local);
      var rot, absRot := Mul(Spread(p, c), inverse), Mul(Spread(p, c), modelInverse);
      Some(Found(rot, MatrixToEuler(sqrt, rot), Sub(c, centre), c, MatrixToEuler(sqrt, absRot)))
  }

  class Tracker {
    const sqrt: real -> real
    var cBase: Vec        // centre of rotation in the model's local base
    var trCenter: Vec     // centre at the last recentring
    var trRot: Mat        // inverse of the spread at the last recentring
    var trRotBase: Mat    // inverse of the spread of the model itself

    ghost var reference: Option<Points>   // the points of the last recentring, if it succeeded
    ghost var model: Option<Points>       // the model in use, if it was set up
    ghost var modelCentre: Vec            // its centre of rotation

    /** Centre c and the inverse of the spread belong to points p. */
    ghost predicate Anchored(p: Points, c: Vec, inverse: Mat)
      reads this
    {
      && BaseOf(sqrt, p).Some?
      && c == CentreOf(p, BaseOf(sqrt, p).value, cBase)
      && Invert(Spread(p, c)) == Some(inverse)
    }

    /** The stored centre and matrix belong to the reference points, and the other matrix to the model. */
    ghost predicate Valid()
      reads this
    {
      && (reference.Some? ==> Anchored(reference.value, trCenter, trRot))
      && (model.Some? ==> Anchored(model.value, modelCentre, trRotBase))
    }

    constructor (sqrt: real -> real)
      ensures this.sqrt == sqrt && Valid() && reference.None? && model.None?
    {
      this.sqrt := sqrt;
      cBase, trCenter, trRot, trRotBase := ORIGIN, ORIGIN, IDENTITY, IDENTITY;
      reference, model, modelCentre := None, None, ORIGIN;
    }

    /** Takes the points as the new reference. On a singular spread the centre has already been moved. */
    method Center(p: Points) returns (ok: bool)
      requires Valid()
      modifies `trCenter, `trRot, `reference
      ensures Valid()
      ensures ok <==> BaseOf(sqrt, p).Some? && Invert(Spread(p, trCenter)).Some?
      ensures ok ==> reference == Some(p)
      ensures BaseOf(sqrt, p).None? ==> !ok && trCenter == old(trCenter)
      ensures BaseOf(sqrt, p).None? ==> trRot == old(trRot) && reference == old(reference)
      ensures BaseOf(sqrt, p).Some? ==> trCenter == CentreOf(p, BaseOf(sqrt, p).value, cBase)
      ensures BaseOf(sqrt, p).Some? && !ok ==> trRot == old(trRot) && reference.None?
    {
      hide MakeBase, Invert, Spread, CentreOf;
      var base := BaseOf(sqrt, p);
      if base.None? {
        return false;
      }
      trCenter := CentreOf(p, base.value, cBase);
      reference := None;
      var inv := Invert(Spread(p, trCenter));
      if inv.None? {
        return false;
      }
      trRot := inv.value;
      reference := Some(p);
      return true;
    }

    /** Sets up a model: its points and its centre of rotation. Points without a base leave the model in use alone. */
    method Init(p: Points, hc: Vec) returns (ok: bool)
      requires Valid() && IsSqrt(sqrt)
      modifies `cBase, `trCenter, `trRot, `trRotBase, `reference, `model, `modelCentre
      ensures Valid()
      ensures ok <==> BaseOf(sqrt, p).Some? && Invert(Spread(p, hc)).Some?
      ensures ok ==> reference == Some(p) && trCenter == hc && trRotBase == trRot == Invert(Spread(p, hc)).value
      ensures ok ==> Some(cBase) == LocalCentre(sqrt, p, hc)
      ensures ok ==> model == Some(p) && modelCentre == hc
      ensures !ok ==> if BaseOf(sqrt, p).None? then model == old(model) else model.None?
    {
      hide MakeBase, Invert, Spread, CentreOf, Apply, IsSqrt;
      if BaseOf(sqrt, p).None? {
        return false;
      }
      cBase := LocalCentre(sqrt, p, hc).value;
      reference, model := None, None;
      CentreFound(sqrt, p, hc);
      ok := Center(p);
      trRotBase := trRot;
      if ok {
        model, modelCentre := Some(p), hc;
      }
    }

    /** The pose of the points relative to the reference: nothing exactly when they have no base. If they are the
        reference turned by m and moved by t, it is exactly that motion. If they are the model turned by m and moved
        by t, the absolute angles are those of m, whatever the reference is. */
    method GetPose(p: Points) returns (r: Option<Found>)
      requires Valid()
      ensures r == PoseAgainst(sqrt, p, cBase, trCenter, trRot, trRotBase)
      ensures reference.Some? ==> forall m, t :: Rotation(m) && p == Moved(m, t, reference.value) ==>
        r.Some? && RecoversMotion(r.value, sqrt, m, t, trCenter)
      ensures model.Some? ==> forall m, t :: Rotation(m) && p == Moved(m, t, model.value) ==>
        r.Some? && ShowsModel(r.value, sqrt, m, t, modelCentre)
    {
      hide MakeBase, Invert, Spread, CentreOf, Mul, MatrixToEuler, Moved, RecoversMotion, ShowsModel, Rotation;
      if model.Some? {
        forall m, t | Rotation(m) && p == Moved(m, t, model.value)
          ensures var f := PoseAgainst(sqrt, p, cBase, trCenter, trRot, trRotBase);
            f.Some? && ShowsModel(f.value, sqrt, m, t, modelCentre)
        {
          ModelRecovered(sqrt, m, t, model.value, cBase, trCenter, trRot);
        }
      }
      if reference.Some? {
        forall m, t | Rotation(m) && p == Moved(m, t, reference.value)
          ensures var f := PoseAgainst(sqrt, p, cBase, trCenter, trRot, trRotBase);
            f.Some? && RecoversMotion(f.value, sqrt, m, t, trCenter)
        {
          PoseRecovered(sqrt, m, t, reference.value, cBase, trRotBase);
        }
      }
      var base := BaseOf(sqrt, p);
      if base.None? {
        return None;
      }
      var c := CentreOf(p, base.value, cBase);
      var spread := Spread(p, c);
      var trans := Sub(c, trCenter);
      var rot := Mul(spread, trRot);
      var absRot := Mul(spread, trRotBase);
      return Some(Found(rot, MatrixToEuler(sqrt, rot), trans, c, MatrixToEuler(sqrt, absRot)));
    }

    /** One set of points: recentre if asked, then report the pose. Against a reference that was turned by
        m and moved by t, the pose is exactly that motion; right after recentring it is no motion. Either way, the
        absolute angles of the model turned by m and moved by t are those of m. */
    method ProcessPoints(p: Points, centering: bool) returns (r: Option<Found>)
      requires Valid()
      modifies `trCenter, `trRot, `reference
      ensures Valid()
      ensures !centering ==> trCenter == old(trCenter) && trRot == old(trRot) && reference == old(reference)
      ensures !centering ==> r == PoseAgainst(sqrt, p, cBase, trCenter, trRot, trRotBase)
      ensures centering ==> (r.Some? <==> BaseOf(sqrt, p).Some? && Invert(Spread(p, trCenter)).Some?)
      ensures centering && r.Some? ==> reference == Some(p) && r.value.centre == trCenter
      ensures centering && r.Some? ==> r.value.rot == IDENTITY && r.value.trans == ORIGIN
      ensures !centering && reference.Some? ==> forall m, t :: Rotation(m) && p == Moved(m, t, reference.value) ==>
        r.Some? && RecoversMotion(r.value, sqrt, m, t, trCenter)
      ensures model.Some? ==> forall m, t :: Rotation(m) && p == Moved(m, t, model.value) ==>
        r.Some? && ShowsModel(r.value, sqrt, m, t, modelCentre)
    {
      hide MakeBase, Invert, Spread, CentreOf, Mul, MatrixToEuler, Moved, RecoversMotion, ShowsModel, Rotation;
      if model.Some? {
        forall m, t | Rotation(m) && p == Moved(m, t, model.value)
          ensures BaseOf(sqrt, p).Some? && Invert(Spread(p, CentreOf(p, BaseOf(sqrt, p).value, cBase))).Some?
        {
          MovedCanCentre(sqrt, m, t, model.value, cBase);
        }
      }
      if centering {
        var ok := Center(p);
        if !ok {
          return None;
        }
        InvertWorks(Spread(p, trCenter));
      }
      r := GetPose(p);
    }
  }

  /** The report is exactly the motion: rotation m, and a translation that carries the turned centre. */
  ghost predicate RecoversMotion(f: Found, sqrt: real -> real, m: Mat, t: Vec, centre: Vec) {
    && f.rot == m && f.angles == MatrixToEuler(sqrt, m)
    && f.centre == Add(Apply(m, centre), t)
    && f.trans == Sub(Add(Apply(m, centre), t), centre)
  }

  /** The report shows the model as it stands: turned by m, with its centre carried along. */
  ghost predicate ShowsModel(f: Found, sqrt: real -> real, m: Mat, t: Vec, centre: Vec) {
    f.absAngles == MatrixToEuler(sqrt, m) && f.centre == Add(Apply(m, centre), t)
  }

  // ---------- rigid motion ----------

  /** The points turned by m and then moved by t. */
  function Moved(m: Mat, t: Vec, p: Points): Points {
    Points(MovedPoint(m, t, p.p0), MovedPoint(m, t, p.p1), MovedPoint(m, t, p.p2))
  }

  function MovedPoint(m: Mat, t: Vec, v: Vec): Vec {
    Add(Apply(m, v), t)
  }

  lemma MovedDifference(m: Mat, t: Vec, a: Vec, b: Vec)
    ensures Sub(MovedPoint(m, t, a), MovedPoint(m, t, b)) == Apply(m, Sub(a, b))
  {
    hide Dot, Apply;
    ApplySub(m, a, b);
  }

  /** The local base turns with the points. */
  lemma BaseMoves(sqrt: real -> real, m: Mat, t: Vec, p: Points)
    requires Rotation(m)
    ensures var b := BaseOf(sqrt, p);
      BaseOf(sqrt, Moved(m, t, p)) ==
        if b.None? then None else Some(Mat(Apply(m, b.value.r0), Apply(m, b.value.r1), Apply(m, b.value.r2)))
  {
    hide Rotation, MakeBase, Apply, MovedPoint;
    MovedDifference(m, t, p.p1, p.p0);
    MovedDifference(m, t, p.p2, p.p0);
    BaseTurns(sqrt, m, Sub(p.p1, p.p0), Sub(p.p2, p.p0));
  }

  /** The centre moves with the points. */
  lemma CentreMoves(m: Mat, t: Vec, p: Points, base: Mat, local: Vec)
    ensures CentreOf(Moved(m, t, p), Mat(Apply(m, base.r0), Apply(m, base.r1), Apply(m, base.r2)), local) ==
      MovedPoint(m, t, CentreOf(p, base, local))
  {
    hide Apply, Dot, Transpose;
    TransposeApply(base, local);
    TransposeApply(Mat(Apply(m, base.r0), Apply(m, base.r1), Apply(m, base.r2)), local);
    ApplyScale(m, base.r0, local.x);
    ApplyScale(m, base.r1, local.y);
    ApplyScale(m, base.r2, local.z);
    ApplyAdd(m, Scale(base.r0, local.x), Scale(base.r1, local.y));
    ApplyAdd(m, Add(Scale(base.r0, local.x), Scale(base.r1, local.y)), Scale(base.r2, local.z));
    ApplyAdd(m, Apply(Transpose(base), local), p.p0);
  }

  /** The spread is multiplied by the rotation. */
  lemma SpreadMoves(m: Mat, t: Vec, p: Points, c: Vec)
    ensures Spread(Moved(m, t, p), MovedPoint(m, t, c)) == Mul(m, Spread(p, c))
  {
    hide Apply, Transpose, Mul, MovedPoint;
    MovedDifference(m, t, p.p0, c);
    MovedDifference(m, t, p.p1, c);
    MovedDifference(m, t, p.p2, c);
    TurnColumns(m, Mat(Sub(p.p0, c), Sub(p.p1, c), Sub(p.p2, c)));
  }

  /** Recentred on points p, the pose of the same points turned by m and moved by t is exactly m, the
      translation is how far the centre moved, and the reported centre is the moved one. */
  lemma PoseOfMovedPoints(sqrt: real -> real, m: Mat, t: Vec, p: Points, local: Vec)
    requires Rotation(m) && BaseOf(sqrt, p).Some?
    requires Invert(Spread(p, CentreOf(p, BaseOf(sqrt, p).value, local))).Some?
    ensures var c := CentreOf(p, BaseOf(sqrt, p).value, local);
      && BaseOf(sqrt, Moved(m, t, p)).Some?
      && var c' := CentreOf(Moved(m, t, p), BaseOf(sqrt, Moved(m, t, p)).value, local);
      && c' == Add(Apply(m, c), t)
      && Mul(Spread(Moved(m, t, p), c'), Invert(Spread(p, c)).value) == m
  {
    hide Rotation, Apply, BaseOf, CentreOf, Spread, Mul, Invert;
    var base := BaseOf(sqrt, p).value;
    var c := CentreOf(p, base, local);
    BaseMoves(sqrt, m, t, p);
    CentreMoves(m, t, p, base, local);
    SpreadMoves(m, t, p, c);
    InvertWorks(Spread(p, c));
    MulAssoc(m, Spread(p, c), Invert(Spread(p, c)).value);
    MulIdentity(m);
  }

  lemma PoseRecovered(sqrt: real -> real, m: Mat, t: Vec, p: Points, local: Vec, modelInverse: Mat)
    requires Rotation(m) && BaseOf(sqrt, p).Some?
    requires Invert(Spread(p, CentreOf(p, BaseOf(sqrt, p).value, local))).Some?
    ensures var c := CentreOf(p, BaseOf(sqrt, p).value, local);
      var r := PoseAgainst(sqrt, Moved(m, t, p), local, c, Invert(Spread(p, c)).value, modelInverse);
      r.Some? && RecoversMotion(r.value, sqrt, m, t, c)
  {
    hide Rotation, Apply, BaseOf, CentreOf, Spread, Mul, Invert, MatrixToEuler;
    PoseOfMovedPoints(sqrt, m, t, p, local);
  }

  /** The absolute angles of a model that was turned by m and moved by t are those of m, whatever was recentred. */
  lemma ModelRecovered(sqrt: real -> real, m: Mat, t: Vec, p: Points, local: Vec, centre: Vec, inverse: Mat)
    requires Rotation(m) && BaseOf(sqrt, p).Some?
    requires Invert(Spread(p, CentreOf(p, BaseOf(sqrt, p).value, local))).Some?
    ensures var c := CentreOf(p, BaseOf(sqrt, p).value, local);
      var r := PoseAgainst(sqrt, Moved(m, t, p), local, centre, inverse, Invert(Spread(p, c)).value);
      r.Some? && ShowsModel(r.value, sqrt, m, t, c)
  {
    hide Rotation, Apply, BaseOf, CentreOf, Spread, Mul, Invert, MatrixToEuler;
    PoseOfMovedPoints(sqrt, m, t, p, local);
  }

  lemma DetTranspose(m: Mat)
    ensures Det(Transpose(m)) == Det(m)
  {
  }

  /** Turning keeps the volume of the spread. */
  lemma DetMoves(m: Mat, t: Vec, p: Points, c: Vec)
    requires Rotation(m)
    ensures Det(Spread(Moved(m, t, p), MovedPoint(m, t, c))) == Det(Spread(p, c))
  {
    hide Dot, Cross, Apply, Rotation, MovedPoint, Transpose;
    var a, b, d := Sub(p.p0, c), Sub(p.p1, c), Sub(p.p2, c);
    MovedDifference(m, t, p.p0, c);
    MovedDifference(m, t, p.p1, c);
    MovedDifference(m, t, p.p2, c);
    DetTranspose(Mat(a, b, d));
    DetTranspose(Mat(Apply(m, a), Apply(m, b), Apply(m, d)));
    RotationKeepsCross(m, b, d);
    RotationKeepsDot(m, a, Cross(b, d));
  }

  /** Points that can be recentred on still can once turned and moved. */
  lemma MovedCanCentre(sqrt: real -> real, m: Mat, t: Vec, p: Points, local: Vec)
    requires Rotation(m) && BaseOf(sqrt, p).Some?
    requires Invert(Spread(p, CentreOf(p, BaseOf(sqrt, p).value, local))).Some?
    ensures var q := Moved(m, t, p);
      BaseOf(sqrt, q).Some? && Invert(Spread(q, CentreOf(q, BaseOf(sqrt, q).value, local))).Some?
  {
    hide Rotation, Apply, BaseOf, CentreOf, Spread, Det;
    var base := BaseOf(sqrt, p).value;
    BaseMoves(sqrt, m, t, p);
    CentreMoves(m, t, p, base, local);
    DetMoves(m, t, p, CentreOf(p, base, local));
  }

  /** The centre found from the local coordinates is the one they were made from. */
  lemma CentreFound(sqrt: real -> real, p: Points, hc: Vec)
    requires IsSqrt(sqrt) && BaseOf(sqrt, p).Some?
    ensures CentreOf(p, BaseOf(sqrt, p).value, LocalCentre(sqrt, p, hc).value) == hc
  {
    hide Apply, Rotation, MakeBase, Transpose;
    var base := BaseOf(sqrt, p).value;
    BaseIsRotation(sqrt, Sub(p.p1, p.p0), Sub(p.p2, p.p0));
    TransposeUndoes(base, Sub(hc, p.p0));
    assert Sub(ORIGIN, Sub(p.p0, hc)) == Sub(hc, p.p0);
  }
}

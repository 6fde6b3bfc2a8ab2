/** The matrix routines as they run: in place on 3x3 arrays, proved against the value functions. */
module MatrixArrays {
  import opened Geometry

  ghost predicate Square3(m: array2<real>) {
    m.Length0 == 3 && m.Length1 == 3
  }

  function RowOf(m: array2<real>, i: nat): Vec
    requires Square3(m) && i < 3
    reads m
  {
    Vec(m[i, 0], m[i, 1], m[i, 2])
  }

  function MatOf(m: array2<real>): Mat
    requires Square3(m)
    reads m
  {
    Mat(RowOf(m, 0), RowOf(m, 1), RowOf(m, 2))
  }

  method SetRow(m: array2<real>, i: nat, v: Vec)
    requires Square3(m) && i < 3
    modifies m
    ensures RowOf(m, i) == v
    ensures forall k :: 0 <= k < 3 && k != i ==> RowOf(m, k) == old(RowOf(m, k))
  {
    m[i, 0], m[i, 1], m[i, 2] := v.x, v.y, v.z;
  }

  method TransposeInPlace(m: array2<real>)
    requires Square3(m)
    modifies m
    ensures MatOf(m) == Transpose(old(MatOf(m)))
  {
    m[0, 1], m[1, 0] := m[1, 0], m[0, 1];
    m[0, 2], m[2, 0] := m[2, 0], m[0, 2];
    m[1, 2], m[2, 1] := m[2, 1], m[1, 2];
  }

  /** Entry (i, j) of the product. */
  function Entry(a: array2<real>, b: array2<real>, i: nat, j: nat): real
    requires Square3(a) && Square3(b) && i < 3 && j < 3
    reads a, b
  {
    a[i, 0] * b[0, j] + a[i, 1] * b[1, j] + a[i, 2] * b[2, j]
  }

  method MulMatrix(a: array2<real>, b: array2<real>, res: array2<real>)
    requires Square3(a) && Square3(b) && Square3(res) && res != a && res != b
    modifies res
    ensures MatOf(res) == Mul(MatOf(a), MatOf(b))
  {
    for i := 0 to 3
      invariant forall k, l :: 0 <= k < i && 0 <= l < 3 ==> res[k, l] == Entry(a, b, k, l)
    {
      for j := 0 to 3
        invariant forall k, l :: 0 <= k < i && 0 <= l < 3 ==> res[k, l] == Entry(a, b, k, l)
        invariant forall l :: 0 <= l < j ==> res[i, l] == Entry(a, b, i, l)
      {
        res[i, j] := a[i, 0] * b[0, j] + a[i, 1] * b[1, j] + a[i, 2] * b[2, j];
      }
    }
    EntriesAreProduct(a, b);
  }

  lemma EntriesAreProduct(a: array2<real>, b: array2<real>)
    requires Square3(a) && Square3(b)
    ensures Mul(MatOf(a), MatOf(b)) ==
      Mat(Vec(Entry(a, b, 0, 0), Entry(a, b, 0, 1), Entry(a, b, 0, 2)),
          Vec(Entry(a, b, 1, 0), Entry(a, b, 1, 1), Entry(a, b, 1, 2)),
          Vec(Entry(a, b, 2, 0), Entry(a, b, 2, 1), Entry(a, b, 2, 2)))
  {
  }

  /** Returns whether the result is finite. */
  method InvertMatrix(m: array2<real>, out: array2<real>) returns (finite: bool)
    requires Square3(m) && Square3(out) && m != out
    modifies out
    ensures finite == Invert(MatOf(m)).Some?
    ensures finite ==> MatOf(out) == Invert(MatOf(m)).value
  {
    var det := m[0, 0] * m[1, 1] * m[2, 2] - m[2, 0] * m[1, 1] * m[0, 2]
             + m[1, 0] * m[2, 1] * m[0, 2] - m[1, 0] * m[0, 1] * m[2, 2]
             + m[2, 0] * m[0, 1] * m[1, 2] - m[0, 0] * m[2, 1] * m[1, 2];
    DetExpanded(RowOf(m, 0), RowOf(m, 1), RowOf(m, 2));
    assert det == Det(MatOf(m));
    hide Cross, Dot, RowOf, Transpose;
    SetRow(out, 0, Cross(RowOf(m, 1), RowOf(m, 2)));
    SetRow(out, 1, Cross(RowOf(m, 2), RowOf(m, 0)));
    SetRow(out, 2, Cross(RowOf(m, 0), RowOf(m, 1)));
    if det == 0.0 {
      return false;
    }
    SetRow(out, 0, Scale(RowOf(out, 0), 1.0 / det));
    SetRow(out, 1, Scale(RowOf(out, 1), 1.0 / det));
    SetRow(out, 2, Scale(RowOf(out, 2), 1.0 / det));
    TransposeInPlace(out);
    return true;
  }

  lemma DetExpanded(p: Vec, q: Vec, r: Vec)
    ensures Dot(p, Cross(q, r)) ==
      p.x * q.y * r.z - r.x * q.y * p.z + q.x * r.y * p.z - q.x * p.y * r.z + r.x * p.y * q.z - p.x * r.y * q.z
  {
  }
}

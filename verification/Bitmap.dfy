/** The 8-bit image the finder scans and marks. */
module Bitmap {
  import opened Words

  function Clip(v: int, min: int, max: int): (r: int)
    requires min <= max
    ensures min <= r <= max && (min <= v <= max ==> r == v) && (v < min ==> r == min) && (v > max ==> r == max)
  {
    var t := if v < min then min else v;
    if t > max then max else t
  }

  /** Index of the first cell of row y: y * w. */
  ghost function Base(y: nat, w: nat): nat {
    if y == 0 then 0 else Base(y - 1, w) + w
  }

  lemma {:induction false} BaseIsProduct(y: nat, w: nat)
    ensures Base(y, w) == y * w
  {
    if y > 0 {
      BaseIsProduct(y - 1, w);
      assert y * w == (y - 1) * w + w;
    }
  }

  lemma {:induction false} BaseGrows(y: nat, h: nat, w: nat)
    requires y <= h
    ensures Base(y, w) <= Base(h, w)
    decreases h
  {
    if y < h {
      BaseGrows(y, h - 1, w);
    }
  }

  /** `after` is `before` with the cells lo..hi (inclusive) set to one colour. */
  ghost predicate Painted(before: seq<byte>, after: seq<byte>, lo: int, hi: int, color: byte) {
    && |after| == |before|
    && forall k :: 0 <= k < |before| ==> after[k] == if lo <= k <= hi then color else before[k]
  }

  lemma QuotientOrder(x: real, ratio: real, a: real)
    requires ratio > 0.0
    ensures x / ratio < a <==> x < a * ratio
  {
    var q := x / ratio;
    assert q * ratio == x;
    assert (a - q) * ratio == a * ratio - x;
    assert a > q ==> (a - q) * ratio > 0.0;
    assert a <= q ==> (q - a) * ratio >= 0.0;
  }

  lemma QuotientFloor(x: real, ratio: real, c: real)
    requires ratio > 0.0 && c <= x / ratio < c + 1.0
    ensures c * ratio <= x < c * ratio + ratio
  {
    QuotientOrder(x, ratio, c);
    QuotientOrder(x, ratio, c + 1.0);
  }

  class Image {
    const w: int
    const h: int
    const ratio: real
    const bits: array?<byte>
    ghost var overran: bool   // some cell past the end of bits has been written

    constructor (w: int, h: int, ratio: real, bits: array?<byte>)
      ensures this.w == w && this.h == h && this.ratio == ratio && this.bits == bits && !overran
    {
      this.w, this.h, this.ratio, this.bits, overran := w, h, ratio, bits, false;
    }

    ghost predicate Sized() {
      && w >= 1 && h >= 1 && ratio > 0.0
      && (bits != null ==> bits.Length >= Base(h, w))
    }

    function Column(x: int): (c: int)
      requires w >= 1 && ratio > 0.0
      ensures 0 <= c < w
    {
      Clip((x as real / ratio).Floor, 0, w - 1)
    }

    /** Camera column x falls within the width of column c of the image, when it falls on the image at all: scaled up,
        the column starts at or before x and the next one after it. Beyond the edges it is the column at the edge. */
    lemma ColumnHolds(x: int)
      requires w >= 1 && ratio > 0.0
      ensures var c := Column(x);
        && (x < 0 ==> c == 0)
        && (x >= 0 && x as real >= w as real * ratio ==> c == w - 1)
        && (x >= 0 && (x as real) < w as real * ratio ==> c as real * ratio <= x as real < c as real * ratio + ratio)
    {
      QuotientOrder(x as real, ratio, w as real);
      QuotientOrder(x as real, ratio, 0.0);
      if x >= 0 && (x as real) < w as real * ratio {
        QuotientFloor(x as real, ratio, Column(x) as real);
      }
    }

    /** First and last cell written for a stripe: one cell to the right of the columns it covers. */
    function FirstCell(x: int, y: int): (c: int)
      requires w >= 1 && h >= 1 && ratio > 0.0
      ensures 0 < c
    {
      assert Clip(y, 0, h - 1) * w >= 0;
      Clip(y, 0, h - 1) * w + Column(x) + 1
    }

    function LastCell(y: int, xEnd: int): int
      requires w >= 1 && h >= 1 && ratio > 0.0
    {
      Clip(y, 0, h - 1) * w + Column(xEnd) + 1
    }

    lemma RowOfCells(y: nat)
      requires w >= 1 && y < h
      ensures Base(y, w) == y * w && Base(y + 1, w) <= Base(h, w) && (y < h - 1 ==> Base(y + 2, w) <= Base(h, w))
    {
      BaseIsProduct(y, w);
      BaseGrows(y + 1, h, w);
      if y < h - 1 {
        BaseGrows(y + 2, h, w);
      }
    }

    /** With exactly the cells of its rows, marking leaves them exactly when line and column both end up in the
        corner, and then by one cell. */
    lemma LeavesFromCorner(y: int, xEnd: int)
      requires w >= 1 && h >= 1 && ratio > 0.0
      ensures LastCell(y, xEnd) >= Base(h, w) <==> Clip(y, 0, h - 1) == h - 1 && Column(xEnd) == w - 1
      ensures LastCell(y, xEnd) <= Base(h, w)
    {
      var row := Clip(y, 0, h - 1);
      RowOfCells(row);
      RowOfCells(h - 1);
    }

    /** Colours one cell; past the end of bits this is only noted. */
    method Colour(ptr: nat, color: byte)
      requires bits != null
      modifies bits, `overran
      ensures Painted(old(bits[..]), bits[..], ptr, ptr, color)
      ensures overran <==> old(overran) || ptr >= bits.Length
    {
      if ptr < bits.Length {
        bits[ptr] := color;
      } else {
        overran := true;
      }
    }

    method DrawStripe(x: int, y: int, xEnd: int, color: byte)
      requires Sized() && bits != null
      modifies bits, `overran
      ensures Painted(old(bits[..]), bits[..], FirstCell(x, y), LastCell(y, xEnd), color)
      ensures overran <==> old(overran) || (FirstCell(x, y) <= LastCell(y, xEnd) && LastCell(y, xEnd) >= bits.Length)
    {
      var x' := Column(x);
      var y' := Clip(y, 0, h - 1);
      var ptr := y' * w + x';
      var left := Column(xEnd) - x';
      assert y' * w >= 0;
      ghost var first := ptr + 1;
      while left >= 0
        invariant ptr + 1 + left == LastCell(y, xEnd)
        invariant first == FirstCell(x, y) <= ptr + 1
        invariant left >= -1 || ptr + 1 == first
        invariant Painted(old(bits[..]), bits[..], first, ptr, color)
        invariant overran <==> old(overran) || (first <= ptr && ptr >= bits.Length)
      {
        ptr := ptr + 1;
        Colour(ptr, color);
        left := left - 1;
      }
    }
  }
}

/** Scanning an image into stripes: the maximal runs of non-zero pixels, row by row. */
module Scan {
  import opened Words
  import opened StripeGraph
  import opened Bitmap
  import opened BlobFinder

  /** The image as rows of pixels. */
  ghost predicate Picture(rows: seq<seq<byte>>, w: int) {
    forall y :: 0 <= y < |rows| ==> |rows[y]| == w
  }

  /** The same index as the scan computes it. */
  function RowStart(y: nat, w: nat): (b: nat)
    ensures b == Base(y, w)
  {
    BaseIsProduct(y, w);
    y * w
  }

  lemma BaseFits(y: nat, w: nat, h: nat)
    requires y < h
    ensures Base(y, w) + w == Base(y + 1, w) <= Base(h, w)
  {
    BaseGrows(y + 1, h, w);
  }

  lemma BasesFit(w: nat, h: nat)
    ensures forall y :: 0 <= y < h ==> Base(y, w) + w <= Base(h, w)
  {
    forall y | 0 <= y < h ensures Base(y, w) + w <= Base(h, w) {
      BaseFits(y, w, h);
    }
  }

  ghost function RowsOf(cells: seq<byte>, w: nat, h: nat): (rows: seq<seq<byte>>)
    requires |cells| >= Base(h, w)
    ensures |rows| == h && Picture(rows, w)
    ensures forall y :: 0 <= y < h ==> Base(y, w) + w <= |cells| && rows[y] == cells[Base(y, w)..Base(y, w) + w]
  {
    BasesFit(w, h);
    seq(h, y requires 0 <= y < h && Base(y, w) + w <= |cells| => cells[Base(y, w)..Base(y, w) + w])
  }

  // ---------- maximal runs ----------

  ghost predicate IsRun(row: seq<byte>, s: int, e: int) {
    && 0 <= s <= e < |row|
    && (forall x :: s <= x <= e ==> row[x] != 0)
    && (s > 0 ==> row[s - 1] == 0)
    && (e < |row| - 1 ==> row[e + 1] == 0)
  }

  /** Sum of the pixels s..e. */
  ghost function Weight(row: seq<byte>, s: int, e: int): (r: nat)
    requires 0 <= s <= e < |row|
    decreases e
  {
    if e == s then row[s] else Weight(row, s, e - 1) + row[e]
  }

  /** Sum of the pixels s..e, each times its distance from s. */
  ghost function Moment(row: seq<byte>, s: int, e: int): (r: nat)
    requires 0 <= s <= e < |row|
    decreases e
  {
    if e == s then 0 else Moment(row, s, e - 1) + row[e] * (e - s)
  }

  ghost predicate Describes(t: Stripe, row: seq<byte>) {
    && IsRun(row, t.hstart, t.hstop)
    && t.points == t.hstop - t.hstart + 1
    && t.sum == Weight(row, t.hstart, t.hstop)
    && t.sumX == Moment(row, t.hstart, t.hstop)
  }

  ghost predicate Covers(t: Stripe, x: int, y: int) {
    t.vline == y && t.hstart <= x <= t.hstop
  }

  ghost predicate RunsInOrder(rows: seq<seq<byte>>, h: seq<Stripe>) {
    && (forall k :: 0 <= k < |h| ==> h[k].vline < |rows| && Describes(h[k], rows[h[k].vline]))
    && (forall i, j :: 0 <= i < j < |h| ==>
          h[i].vline < h[j].vline || (h[i].vline == h[j].vline && h[i].hstop + 1 < h[j].hstart))
  }

  ghost predicate Covered(h: seq<Stripe>, x: int, y: int) {
    exists k :: 0 <= k < |h| && Covers(h[k], x, y)
  }

  /** The stripes are exactly the maximal runs of the picture, in scanning order, with exact sums. */
  ghost predicate AreRuns(rows: seq<seq<byte>>, h: seq<Stripe>) {
    && RunsInOrder(rows, h)
    && (forall y, x :: 0 <= y < |rows| && 0 <= x < |rows[y]| && rows[y][x] != 0 ==> Covered(h, x, y))
  }

  /** Every run in one list is in the other, with the same sums. */
  lemma RunShared(rows: seq<seq<byte>>, h: seq<Stripe>, g: seq<Stripe>, k: nat) returns (m: nat)
    requires AreRuns(rows, h) && AreRuns(rows, g) && k < |h|
    ensures m < |g| && g[m] == h[k]
  {
    var s := h[k];
    hide AreRuns, Weight, Moment, RunsInOrder;
    DescribedRun(rows, h, k);
    RunFound(rows, g, s.hstart, s.vline);
    var i :| 0 <= i < |g| && Covers(g[i], s.hstart, s.vline);
    m := i;
    DescribedRun(rows, g, m);
    SameRun(rows[s.vline], s, g[m]);
  }

  lemma DescribedRun(rows: seq<seq<byte>>, h: seq<Stripe>, k: nat)
    requires AreRuns(rows, h) && k < |h|
    ensures h[k].vline < |rows| && Describes(h[k], rows[h[k].vline])
  {
  }

  lemma RunFound(rows: seq<seq<byte>>, h: seq<Stripe>, x: int, y: int)
    requires AreRuns(rows, h) && 0 <= y < |rows| && 0 <= x < |rows[y]| && rows[y][x] != 0
    ensures Covered(h, x, y)
  {
  }

  lemma SameRun(row: seq<byte>, s: Stripe, t: Stripe)
    requires Describes(s, row) && Describes(t, row) && s.vline == t.vline && t.hstart <= s.hstart <= t.hstop
    ensures s == t
  {
    assert s.hstart == t.hstart;
    assert s.hstop == t.hstop;
  }

  lemma RunsIncrease(rows: seq<seq<byte>>, h: seq<Stripe>, i: nat, j: nat)
    requires AreRuns(rows, h) && i < j < |h|
    ensures h[i].vline < h[j].vline || (h[i].vline == h[j].vline && h[i].hstart < h[j].hstart)
  {
    DescribedRun(rows, h, i);
  }

  lemma {:induction false} RunsAgreeAt(rows: seq<seq<byte>>, h: seq<Stripe>, g: seq<Stripe>, k: nat)
    requires AreRuns(rows, h) && AreRuns(rows, g) && k < |h| && k < |g|
    ensures h[k] == g[k]
    decreases k
  {
    hide AreRuns;
    var m := RunShared(rows, h, g, k);
    var j := RunShared(rows, g, h, k);
    if m < k {
      RunsAgreeAt(rows, h, g, m);
      RunsIncrease(rows, h, m, k);
    } else if m > k {
      RunsIncrease(rows, g, k, m);
      if j < k {
        RunsAgreeAt(rows, h, g, j);
        RunsIncrease(rows, g, j, k);
      } else if j > k {
        RunsIncrease(rows, h, k, j);
      }
    }
  }

  /** A picture has one list of runs. */
  lemma RunsUnique(rows: seq<seq<byte>>, h: seq<Stripe>, g: seq<Stripe>)
    requires AreRuns(rows, h) && AreRuns(rows, g)
    ensures h == g
  {
    NoFewerRuns(rows, h, g);
    NoFewerRuns(rows, g, h);
    hide AreRuns;
    forall k | 0 <= k < |h| ensures h[k] == g[k] {
      RunsAgreeAt(rows, h, g, k);
    }
  }

  lemma NoFewerRuns(rows: seq<seq<byte>>, h: seq<Stripe>, g: seq<Stripe>)
    requires AreRuns(rows, h) && AreRuns(rows, g)
    ensures |h| <= |g|
  {
    hide AreRuns;
    if |h| > |g| {
      var m := RunShared(rows, h, g, |g|);
      RunsAgreeAt(rows, h, g, m);
      RunsIncrease(rows, h, m, |g|);
    }
  }

  // ---------- what the scan sees ----------

  /** Marking a run that reaches the last column also marks the first cell of the next row, before that
      row is scanned. This is row y as the scan finds it. */
  ghost function SeenRow(rows: seq<seq<byte>>, y: nat): (r: seq<byte>)
    requires y < |rows|
    ensures |r| == |rows[y]|
  {
    if y > 0 && |rows[y]| > 0 && LastLit(SeenRow(rows, y - 1)) then rows[y][0 := 0x80] else rows[y]
  }

  ghost predicate LastLit(row: seq<byte>) {
    |row| > 0 && row[|row| - 1] != 0
  }

  ghost function Seen(rows: seq<seq<byte>>): (r: seq<seq<byte>>)
    ensures |r| == |rows| && forall y :: 0 <= y < |rows| ==> r[y] == SeenRow(rows, y)
  {
    seq(|rows|, y requires 0 <= y < |rows| => SeenRow(rows, y))
  }

  /** Where a row ends lit, the next one already starts with the marking colour. */
  ghost predicate WrapHarmless(rows: seq<seq<byte>>) {
    forall y :: 0 < y < |rows| && |rows[y]| > 0 && LastLit(rows[y - 1]) ==> rows[y][0] == 0x80
  }

  lemma {:induction false} SeenAsDrawn(rows: seq<seq<byte>>, y: nat)
    requires y < |rows|
    requires forall k :: 0 < k <= y && |rows[k]| > 0 && LastLit(rows[k - 1]) ==> rows[k][0] == 0x80
    ensures SeenRow(rows, y) == rows[y]
  {
    if y > 0 {
      SeenAsDrawn(rows, y - 1);
    }
  }

  /** The scan sees the picture itself exactly when the wrap-around marking is harmless, in particular
      when the last column is dark. */
  lemma SeenIsPicture(rows: seq<seq<byte>>)
    ensures Seen(rows) == rows <==> WrapHarmless(rows)
  {
    if WrapHarmless(rows) {
      forall y | 0 <= y < |rows| ensures Seen(rows)[y] == rows[y] {
        SeenAsDrawn(rows, y);
      }
    }
    if Seen(rows) == rows {
      forall y | 0 < y < |rows| && |rows[y]| > 0 && LastLit(rows[y - 1]) ensures rows[y][0] == 0x80 {
        assert Seen(rows)[y - 1] == SeenRow(rows, y - 1) && Seen(rows)[y] == SeenRow(rows, y);
      }
    }
  }

  lemma {:induction false} WeightDiffers(a: seq<byte>, b: seq<byte>, e: int)
    requires 0 <= e < |a| == |b| && forall x :: 0 < x < |a| ==> a[x] == b[x]
    ensures Weight(a, 0, e) + b[0] == Weight(b, 0, e) + a[0]
    decreases e
  {
    if e > 0 {
      WeightDiffers(a, b, e - 1);
    }
  }

  /** The stripes of what the scan sees are the stripes of the picture exactly when the wrap-around marking
      is harmless. */
  lemma SeenRunsArePictureRuns(rows: seq<seq<byte>>, h: seq<Stripe>)
    requires AreRuns(Seen(rows), h)
    ensures AreRuns(rows, h) <==> WrapHarmless(rows)
  {
    SeenIsPicture(rows);
    if Seen(rows) != rows {
      var y :| 0 <= y < |rows| && Seen(rows)[y] != rows[y];
      MarkedRowMisread(rows, h, y);
    }
  }

  lemma MarkedRowMisread(rows: seq<seq<byte>>, h: seq<Stripe>, y: int)
    requires AreRuns(Seen(rows), h) && 0 <= y < |rows| && Seen(rows)[y] != rows[y]
    ensures !AreRuns(rows, h)
  {
    hide Describes, IsRun, Weight, Moment;
    var seen := Seen(rows)[y];
    assert seen == SeenRow(rows, y) == rows[y][0 := 0x80] && rows[y][0] != 0x80;
    assert Covered(h, 0, y);
    var k :| 0 <= k < |h| && Covers(h[k], 0, y);
    MarkedRowUndescribed(rows[y], h[k]);
  }

  lemma MarkedRowUndescribed(row: seq<byte>, t: Stripe)
    requires |row| > 0 && row[0] != 0x80 && t.hstart == 0 && Describes(t, row[0 := 0x80])
    ensures !Describes(t, row)
  {
    WeightDiffers(row[0 := 0x80], row, t.hstop);
  }

  /** A two-by-two picture whose first row ends lit is not reported as it is. */
  lemma LitLastColumnIsMisread()
    ensures var rows: seq<seq<byte>> := [[0, 5], [0, 0]]; Picture(rows, 2) && Seen(rows)[1] == [0x80, 0]
  {
    var rows: seq<seq<byte>> := [[0, 5], [0, 0]];
    assert SeenRow(rows, 0) == rows[0];
  }

  lemma DarkLastColumnIsHarmless(rows: seq<seq<byte>>)
    requires forall y :: 0 <= y < |rows| ==> !LastLit(rows[y])
    ensures WrapHarmless(rows) && Seen(rows) == rows
  {
    SeenIsPicture(rows);
  }

  // ---------- the scan ----------

  /** Every lit pixel of the rows above y, and of row y left of x, lies in an emitted stripe. */
  ghost predicate ScannedTo(rows: seq<seq<byte>>, h: seq<Stripe>, y: int, x: int) {
    && (forall v, u :: 0 <= v < y && v < |rows| && 0 <= u < |rows[v]| && rows[v][u] != 0 ==> Covered(h, u, v))
    && (0 <= y < |rows| ==> forall u :: 0 <= u < x && u < |rows[y]| && rows[y][u] != 0 ==> Covered(h, u, y))
  }

  lemma CoveredAppended(h: seq<Stripe>, s: Stripe)
    ensures forall x, y :: Covered(h, x, y) ==> Covered(h + [s], x, y)
    ensures forall x, y :: Covers(s, x, y) ==> Covered(h + [s], x, y)
  {
    assert (h + [s])[|h|] == s;
    forall x, y | Covered(h, x, y) ensures Covered(h + [s], x, y) {
      var k :| 0 <= k < |h| && Covers(h[k], x, y);
      assert Covers((h + [s])[k], x, y);
    }
  }

  /** Emitting the run that ends just before column x keeps order and coverage. */
  lemma RunEmitted(rows: seq<seq<byte>>, h: seq<Stripe>, s: Stripe, y: int, x: int)
    requires 0 <= y < |rows| && s.vline == y && Describes(s, rows[y]) && s.hstop < x <= |rows[y]|
    requires RunsInOrder(rows, h) && ScannedTo(rows, h, y, s.hstart)
    requires forall k :: 0 <= k < |h| ==> h[k].vline < y || (h[k].vline == y && h[k].hstop + 1 < s.hstart)
    requires forall u :: s.hstop < u < x ==> rows[y][u] == 0
    ensures RunsInOrder(rows, h + [s]) && ScannedTo(rows, h + [s], y, x)
  {
    CoveredAppended(h, s);
    forall u | 0 <= u < x && rows[y][u] != 0 ensures Covered(h + [s], u, y) {
      if u >= s.hstart { assert Covers(s, u, y); }
    }
  }

  /** The cells after the first n lit pixels' right neighbours are as they were: of the row at `base`, exactly the
      right neighbours of its lit pixels among the first n are marked. */
  ghost predicate MarkedTo(start: seq<byte>, bits: seq<byte>, base: nat, row: seq<byte>, n: int) {
    && |bits| == |start| && 0 <= n <= |row|
    && forall k :: 0 <= k < |bits| ==>
         bits[k] == if base < k <= base + n && row[k - 1 - base] != 0 then 0x80 else start[k]
  }

  lemma MarkedNone(start: seq<byte>, base: nat, row: seq<byte>)
    ensures MarkedTo(start, start, base, row, 0)
  {
  }

  lemma MarkedDark(start: seq<byte>, bits: seq<byte>, base: nat, row: seq<byte>, x: int)
    requires MarkedTo(start, bits, base, row, x) && x < |row| && row[x] == 0
    ensures MarkedTo(start, bits, base, row, x + 1)
  {
  }

  lemma MarkedRun(start: seq<byte>, before: seq<byte>, after: seq<byte>, base: nat, row: seq<byte>, s: int, e: int)
    requires MarkedTo(start, before, base, row, s) && Painted(before, after, base + s + 1, base + e + 1, 0x80)
    requires s <= e < |row| && forall x :: s <= x <= e ==> row[x] != 0
    ensures MarkedTo(start, after, base, row, e + 1)
  {
  }

  /** What is still to be read is as it was. */
  lemma MarkedRead(start: seq<byte>, bits: seq<byte>, base: nat, row: seq<byte>, n: int, x: int)
    requires MarkedTo(start, bits, base, row, n) && n <= x < |row| && base + x < |bits|
    requires n == x && x > 0 ==> row[x - 1] == 0
    ensures bits[base + x] == start[base + x]
  {
  }

  lemma DarkPixelScanned(rows: seq<seq<byte>>, h: seq<Stripe>, y: int, x: int)
    requires 0 <= y < |rows| && 0 <= x < |rows[y]| && rows[y][x] == 0 && ScannedTo(rows, h, y, x)
    ensures ScannedTo(rows, h, y, x + 1)
  {
  }

  /** Where the marking of a run lands when the image is not scaled. */
  lemma UnscaledCells(img: Image, s: Stripe)
    requires img.w >= 1 && img.h >= 1 && img.ratio == 1.0
    requires s.hstart <= s.hstop < img.w <= 0x8000_0000 && s.vline < img.h <= 0x8000_0000
    ensures img.FirstCell(ToInt(s.hstart), ToInt(s.vline)) == s.vline * img.w + s.hstart + 1
    ensures img.LastCell(ToInt(s.vline), ToInt(s.hstop)) == s.vline * img.w + s.hstop + 1
  {
    assert (s.hstart as real / 1.0).Floor == s.hstart;
    assert (s.hstop as real / 1.0).Floor == s.hstop;
  }

  ghost predicate Before(h: seq<Stripe>, y: int, x: int) {
    forall k :: 0 <= k < |h| ==> h[k].vline < y || (h[k].vline == y && h[k].hstop + 1 < x)
  }

  /** Hands the finished run to the finder, which marks it; a run that ends in the very last cell is marked past it. */
  method EmitRun(f: Finder, img: Image, s: Stripe, x: nat, base: nat,
                 ghost rows: seq<seq<byte>>, ghost start: seq<byte>)
    requires f.Valid() && f.Room(s) && img.Sized() && img.bits != null && img.ratio == 1.0
    requires img.w < 0x8000_0000 && s.vline < img.h < 0x8000_0000 && base == Base(s.vline, img.w)
    requires s.vline < |rows| && |rows[s.vline]| == img.w && s.hstop < x <= img.w && Describes(s, rows[s.vline])
    requires RunsInOrder(rows, f.history) && ScannedTo(rows, f.history, s.vline, s.hstart)
    requires Before(f.history, s.vline, s.hstart)
    requires forall u :: s.hstop < u < x ==> rows[s.vline][u] == 0
    requires MarkedTo(start, img.bits[..], base, rows[s.vline], s.hstart)
    modifies f, f.current, f.next, f.live, img.bits, img`overran
    ensures f.Valid() && fresh(f.live - old(f.live))
    ensures {f.current, f.next} == old({f.current, f.next})
    ensures f.history == old(f.history) + [s] && f.currentVline == s.vline
    ensures f.nextLimit == if s.vline == old(f.currentVline) then old(f.nextLimit) + 1 else 1
    ensures RunsInOrder(rows, f.history) && ScannedTo(rows, f.history, s.vline, x)
    ensures MarkedTo(start, img.bits[..], base, rows[s.vline], s.hstop + 1)
    ensures img.overran <==> old(img.overran) || base + s.hstop + 1 >= img.bits.Length
  {
    hide Finder.Valid, RunsInOrder, ScannedTo, MarkedTo, Painted;
    UnscaledCells(img, s);
    BaseIsProduct(s.vline, img.w);
    RunEmitted(rows, f.history, s, s.vline, x);
    ghost var before := img.bits[..];
    var _ := f.AddStripe(s, img);
    MarkedRun(start, before, img.bits[..], base, rows[s.vline], s.hstart, s.hstop);
  }

  /** The run being read: hstart..x-1, with the sums kept the way the scan keeps them. */
  ghost predicate Reading(row: seq<byte>, x: int, hstart: int, hstop: int, sum: int, sumX: int, points: int) {
    && 0 <= hstart <= hstop == x - 1 < |row| && points == hstop - hstart
    && (hstart > 0 ==> row[hstart - 1] == 0)
    && (forall u :: hstart <= u < x ==> row[u] != 0)
    && sum == Weight(row, hstart, hstop) && sumX == Moment(row, hstart, hstop)
  }

  lemma ReadStart(row: seq<byte>, x: int)
    requires 0 <= x < |row| && row[x] != 0 && (x > 0 ==> row[x - 1] == 0)
    ensures Reading(row, x + 1, x, x, row[x], 0, 0)
  {
  }

  lemma ReadOn(row: seq<byte>, x: int, hstart: int, hstop: int, sum: int, sumX: int, points: int)
    requires Reading(row, x, hstart, hstop, sum, sumX, points) && x < |row| && row[x] != 0
    ensures row[x] * (points + 1) >= 0
    ensures Reading(row, x + 1, hstart, x, sum + row[x], sumX + row[x] * (points + 1), points + 1)
  {
    hide Weight;
    WeightStep(row, hstart, x);
    assert points + 1 == x - hstart;
  }

  lemma WeightStep(row: seq<byte>, s: int, x: int)
    requires 0 <= s < x < |row|
    ensures Weight(row, s, x) == Weight(row, s, x - 1) + row[x]
  {
  }

  lemma ReadEnd(row: seq<byte>, x: int, y: uint32, hstart: uint32, hstop: uint32, sum: nat, sumX: nat, points: nat)
    requires 0 < x <= |row| && hstop == x - 1
    requires Reading(row, x, hstart, hstop, sum, sumX, points) && (x < |row| ==> row[x] == 0)
    ensures row[hstop] != 0 && Describes(Stripe(y, hstart, hstop, sumX, sum, points + 1), row)
  {
  }

  /** Scans row y, whose first cell is `base`, emitting its maximal runs. */
  method ScanRow(f: Finder, img: Image, y: nat, base: nat, ghost rows: seq<seq<byte>>)
    requires f.Valid() && img.Sized() && img.bits != null && img.ratio == 1.0
    requires img.w < 0x8000_0000 && y < img.h < 0x8000_0000 && f.next.Length >= img.w / 2 + 1
    requires f.current.Length == f.next.Length
    requires |rows| == img.h && |rows[y]| == img.w && base == Base(y, img.w) && base + img.w <= img.bits.Length
    requires img.bits[base..base + img.w] == rows[y]
    requires RunsInOrder(rows, f.history) && ScannedTo(rows, f.history, y, 0)
    requires f.currentVline != y && forall k :: 0 <= k < |f.history| ==> f.history[k].vline < y
    modifies f, f.current, f.next, f.live, img.bits, img`overran
    ensures f.Valid() && fresh(f.live - old(f.live))
    ensures {f.current, f.next} == old({f.current, f.next})
    ensures RunsInOrder(rows, f.history) && ScannedTo(rows, f.history, y, img.w)
    ensures f.currentVline == y || f.currentVline == old(f.currentVline)
    ensures forall k :: 0 <= k < |f.history| ==> f.history[k].vline <= y
    ensures MarkedTo(old(img.bits[..]), img.bits[..], base, rows[y], img.w)
    ensures img.overran <==> old(img.overran) || (LastLit(rows[y]) && base + img.w >= img.bits.Length)
  {
    hide Finder.Valid, RunsInOrder, ScannedTo, Picture, Weight, Moment, MarkedTo, Base, Image.Sized, Reading, Describes;
    SizedFacts(img);
    ghost var start, row := img.bits[..], rows[y];
    assert start[base..base + img.w] == img.bits[base..base + img.w];
    MarkedNone(start, base, row);
    var inStripe := false;
    var hstart, hstop: nat, sum: nat, sumX: nat, points: nat := 0, 0, 0, 0, 0;
    for x := 0 to img.w
      invariant f.Valid() && fresh(f.live - old(f.live)) && {f.current, f.next} == old({f.current, f.next})
      invariant RunsInOrder(rows, f.history) && ScannedTo(rows, f.history, y, if inStripe then hstart else x)
      invariant inStripe ==> hstart <= hstop == x - 1 && Reading(row, x, hstart, hstop, sum, sumX, points)
      invariant !inStripe && x > 0 ==> row[x - 1] == 0
      invariant f.currentVline == y || f.currentVline == old(f.currentVline)
      invariant f.currentVline == y ==> 2 * f.nextLimit <= if inStripe then hstart else x
      invariant Before(f.history, y, if inStripe then hstart else x)
      invariant MarkedTo(start, img.bits[..], base, row, if inStripe then hstart else x)
      invariant img.overran == old(img.overran)
    {
      var v := img.bits[base + x];
      MarkedRead(start, img.bits[..], base, row, if inStripe then hstart else x, x);
      assert v == row[x];
      if v != 0 {
        if inStripe {
          ReadOn(row, x, hstart, hstop, sum, sumX, points);
          points := points + 1;
          hstop := x;
          sum := sum + v;
          sumX := sumX + v * points;
        } else {
          ReadStart(row, x);
          points, hstart, hstop, sumX, sum := 0, x, x, 0, v;
          inStripe := true;
        }
      } else {
        if inStripe {
          ReadEnd(row, x, y, hstart, hstop, sum, sumX, points);
          points := points + 1;
          inStripe := false;
          EmitRun(f, img, Stripe(y, hstart, hstop, sumX, sum, points), x + 1, base, rows, start);
          MarkedDark(start, img.bits[..], base, row, x);
        } else {
          DarkPixelScanned(rows, f.history, y, x);
          MarkedDark(start, img.bits[..], base, row, x);
        }
      }
    }
    if inStripe {
      ReadEnd(row, img.w, y, hstart, hstop, sum, sumX, points);
      points := points + 1;
      EmitRun(f, img, Stripe(y, hstart, hstop, sumX, sum, points), img.w, base, rows, start);
    }
  }

  lemma ScanStarts(rows: seq<seq<byte>>)
    ensures RunsInOrder(rows, []) && ScannedTo(rows, [], 0, 0)
  {
  }

  lemma RowDone(rows: seq<seq<byte>>, h: seq<Stripe>, y: nat)
    requires y < |rows| && ScannedTo(rows, h, y, |rows[y]|)
    ensures ScannedTo(rows, h, y + 1, 0)
  {
  }

  lemma ScanEnds(rows: seq<seq<byte>>, h: seq<Stripe>)
    requires RunsInOrder(rows, h) && ScannedTo(rows, h, |rows|, 0)
    ensures AreRuns(rows, h)
  {
  }

  // ---------- which cells the scan marks ----------

  lemma RowOffset(y: nat, w: nat, x: nat)
    requires x < w
    ensures (Base(y, w) + x) % w == x
  {
    BaseIsProduct(y, w);
    RemainderOf(y, w, x);
  }

  lemma RemainderOf(q: nat, w: nat, x: nat)
    requires x < w
    ensures (q * w + x) % w == x
  {
    var d := (q * w + x) / w - q;
    assert d * w == x - (q * w + x) % w;
    if d != 0 {
      FarFromZero(d, w);
    }
  }

  lemma FarFromZero(d: int, w: nat)
    requires d != 0
    ensures d * w >= w || d * w <= 0 - w
  {
    if d > 0 {
      assert (d - 1) * w >= 0;
    } else {
      assert (-1 - d) * w >= 0;
    }
  }

  /** Cell c as the scan finds it: lit, or the first of its row after a row found to end lit. */
  ghost predicate SeenLit(cells: seq<byte>, w: nat, c: nat)
    requires w > 0 && c < |cells|
  {
    cells[c] != 0 || (c > 0 && c % w == 0 && SeenLit(cells, w, c - 1))
  }

  lemma SeenLitStep(cells: seq<byte>, w: nat, h: nat, y: nat, x: nat)
    requires w > 0 && Base(h, w) <= |cells| && y < h && x < w
    ensures Base(y, w) + x < |cells| && (if y > 0 then Base(y, w) == Base(y - 1, w) + w else Base(y, w) == 0)
    ensures SeenLit(cells, w, Base(y, w) + x) <==>
      cells[Base(y, w) + x] != 0 || (x == 0 && y > 0 && SeenLit(cells, w, Base(y, w) - 1))
  {
    BaseFits(y, w, h);
    RowOffset(y, w, x);
  }

  lemma SeenCell(cells: seq<byte>, w: nat, h: nat, y: nat, x: nat)
    requires w > 0 && Base(h, w) <= |cells| && y < h && x < w
    ensures Base(y, w) + w <= |cells| && |Seen(RowsOf(cells, w, h))| == h && |Seen(RowsOf(cells, w, h))[y]| == w
    ensures Seen(RowsOf(cells, w, h))[y][x] ==
      if x == 0 && y > 0 && LastLit(Seen(RowsOf(cells, w, h))[y - 1]) then 0x80 else cells[Base(y, w) + x]
  {
    BaseFits(y, w, h);
    var drawn := RowsOf(cells, w, h);
    assert drawn[y][x] == cells[Base(y, w) + x];
    if y > 0 {
      assert Seen(drawn)[y - 1] == SeenRow(drawn, y - 1);
    }
  }

  lemma {:induction false} SeenLitAt(cells: seq<byte>, w: nat, h: nat, y: nat, x: nat)
    requires w > 0 && Base(h, w) <= |cells| && y < h && x < w
    ensures Base(y, w) + x < |cells| && |Seen(RowsOf(cells, w, h))[y]| == w
    ensures SeenLit(cells, w, Base(y, w) + x) <==> Seen(RowsOf(cells, w, h))[y][x] != 0
    decreases y
  {
    hide SeenLit, Seen, RowsOf, Base;
    SeenLitStep(cells, w, h, y, x);
    SeenCell(cells, w, h, y, x);
    if y > 0 {
      SeenLitAt(cells, w, h, y - 1, w - 1);
    }
  }

  /** Of the first n cells, exactly the right neighbours of those found lit are marked. */
  ghost predicate MarkedCells(cells: seq<byte>, bits: seq<byte>, w: nat, n: nat)
    requires w > 0
  {
    && |bits| == |cells| && n <= |cells|
    && forall k :: 0 <= k < |bits| ==> bits[k] == if 0 < k <= n && SeenLit(cells, w, k - 1) then 0x80 else cells[k]
  }

  lemma CellReady(cells: seq<byte>, bits: seq<byte>, y: nat, w: nat, h: nat, x: nat)
    requires x < w && y < h && Base(h, w) <= |cells| && MarkedCells(cells, bits, w, Base(y, w))
    ensures Base(y, w) + x < |bits| && |Seen(RowsOf(cells, w, h))[y]| == w
    ensures bits[Base(y, w) + x] == Seen(RowsOf(cells, w, h))[y][x]
  {
    hide SeenLit, Seen, RowsOf, Base;
    SeenLitStep(cells, w, h, y, x);
    SeenCell(cells, w, h, y, x);
    if x == 0 && y > 0 {
      SeenLitAt(cells, w, h, y - 1, w - 1);
    }
  }

  /** The marks of the rows above make the row look as the scan is said to see it. */
  lemma RowReady(cells: seq<byte>, bits: seq<byte>, y: nat, w: nat, h: nat)
    requires 0 < w && y < h && Base(h, w) <= |cells| && MarkedCells(cells, bits, w, Base(y, w))
    ensures Base(y, w) + w <= |bits|
    ensures bits[Base(y, w)..Base(y, w) + w] == Seen(RowsOf(cells, w, h))[y]
  {
    BaseFits(y, w, h);
    CellReady(cells, bits, y, w, h, 0);
    hide SeenLit, Seen, RowsOf, Base;
    forall x | 0 <= x < w ensures bits[Base(y, w) + x] == Seen(RowsOf(cells, w, h))[y][x] {
      CellReady(cells, bits, y, w, h, x);
    }
  }

  lemma RowMarked(cells: seq<byte>, before: seq<byte>, after: seq<byte>, y: nat, w: nat, h: nat)
    requires 0 < w && y < h && Base(h, w) <= |cells| && MarkedCells(cells, before, w, Base(y, w))
    requires MarkedTo(before, after, Base(y, w), Seen(RowsOf(cells, w, h))[y], w)
    ensures MarkedCells(cells, after, w, Base(y + 1, w))
  {
    hide SeenLit, Seen, RowsOf, Base;
    BaseFits(y, w, h);
    var row := Seen(RowsOf(cells, w, h))[y];
    forall x | 0 <= x < w ensures SeenLit(cells, w, Base(y, w) + x) <==> row[x] != 0 {
      SeenLitAt(cells, w, h, y, x);
    }
    forall k | 0 <= k < |after|
      ensures after[k] == if 0 < k <= Base(y + 1, w) && SeenLit(cells, w, k - 1) then 0x80 else cells[k]
    {
      if Base(y, w) < k <= Base(y, w) + w {
        var x := k - 1 - Base(y, w);
        assert SeenLit(cells, w, Base(y, w) + x) <==> row[x] != 0;
      }
    }
  }

  /** What the scan sees, given the image's cells when it starts. */
  ghost function SeenCells(cells: seq<byte>, img: Image): (rows: seq<seq<byte>>)
    requires img.w >= 0 && img.h >= 0 && |cells| >= Base(img.h, img.w)
    ensures |rows| == img.h && Picture(rows, img.w)
  {
    Seen(RowsOf(cells, img.w, img.h))
  }

  /** The bottom right pixel is dark; if there is only one column, the whole picture. */
  ghost predicate MarksInside(cells: seq<byte>, w: nat, h: nat)
    requires w >= 1 && h >= 1 && |cells| >= Base(h, w)
  {
    assert Base(h, w) == Base(h - 1, w) + w;
    if w >= 2 then cells[Base(h, w) - 1] == 0 else BaseIsProduct(h, w); forall c :: 0 <= c < h ==> cells[c] == 0
  }

  lemma {:induction false} OneColumnSeen(cells: seq<byte>, c: nat)
    requires c < |cells|
    ensures SeenLit(cells, 1, c) <==> exists k :: 0 <= k <= c && cells[k] != 0
  {
    if c > 0 {
      OneColumnSeen(cells, c - 1);
    }
  }

  /** The cell after the picture is marked exactly when the picture is lit in the corner or, if it has only one
      column, anywhere. */
  lemma CornerSeen(cells: seq<byte>, w: nat, h: nat)
    requires w >= 1 && h >= 1 && |cells| >= Base(h, w)
    ensures Base(h, w) >= 1 && (SeenLit(cells, w, Base(h, w) - 1) <==> !MarksInside(cells, w, h))
  {
    if w == 1 {
      BaseIsProduct(h, w);
      OneColumnSeen(cells, h - 1);
    } else {
      RowOffset(h - 1, w, w - 1);
    }
  }

  /** Pictures whose marking goes one cell past their end: lit in the corner, or a single column lit at its top. */
  lemma MarkedPastTheEnd()
    ensures Base(1, 2) == 2 && !MarksInside([0, 5], 2, 1)
    ensures Base(3, 1) == 3 && !MarksInside([5, 0, 0], 1, 3)
  {
    assert Base(2, 1) == 2;
    var column: seq<byte> := [5, 0, 0];
    assert column[0] != 0;
  }

  // ---------- no line is too long for the buffers ----------

  /** A row of w pixels has at most half of them, rounded up, as runs. */
  lemma RunsFit(rows: seq<seq<byte>>, w: nat, h: seq<Stripe>)
    requires Picture(rows, w) && RunsInOrder(rows, h)
    ensures Separate(h, w) && LinesFit(h, (w + 1) / 2)
  {
    assert forall k :: 0 <= k < |h| ==> Describes(h[k], rows[h[k].vline]);
    SeparateFits(h, w, (w + 1) / 2);
  }

  // ---------- the whole scan ----------

  lemma LastRow(cells: seq<byte>, w: nat, h: nat)
    requires w >= 1 && h >= 1 && |cells| >= Base(h, w)
    ensures Base(h, w) == Base(h - 1, w) + w
    ensures LastLit(Seen(RowsOf(cells, w, h))[h - 1]) <==> !MarksInside(cells, w, h)
  {
    hide SeenLit, Seen, RowsOf, MarksInside;
    SeenLitAt(cells, w, h, h - 1, w - 1);
    CornerSeen(cells, w, h);
  }

  /** The scan stands at row y: the rows above are done, and only the last row can have been marked past the end. */
  ghost predicate AtRow(f: Finder, img: Image, cells: seq<byte>, rows: seq<seq<byte>>, y: nat, overran: bool)
    reads f, img, img.bits
    requires img.bits != null && img.w >= 1 && img.h >= 1 && Base(img.h, img.w) <= |cells|
    requires rows == Seen(RowsOf(cells, img.w, img.h))
  {
    && RunsInOrder(rows, f.history) && ScannedTo(rows, f.history, y, 0)
    && (f.currentVline < y || f.currentVline == 0xFFFF_FFFE)
    && (forall k :: 0 <= k < |f.history| ==> f.history[k].vline < y)
    && MarkedCells(cells, img.bits[..], img.w, Base(y, img.w))
    && (img.overran <==> overran || (y == img.h && LastLit(rows[img.h - 1]) && img.bits.Length == Base(img.h, img.w)))
  }

  method NextRow(f: Finder, img: Image, y: nat, ghost cells: seq<byte>, ghost rows: seq<seq<byte>>, ghost overran: bool)
    requires f.Valid() && img.Sized() && img.bits != null && img.ratio == 1.0
    requires img.w < 0x8000_0000 && y < img.h < 0x8000_0000 && f.current.Length == f.next.Length >= img.w / 2 + 1
    requires img.bits.Length == |cells| && rows == Seen(RowsOf(cells, img.w, img.h))
    requires AtRow(f, img, cells, rows, y, overran)
    modifies f, f.current, f.next, f.live, img.bits, img`overran
    ensures f.Valid() && fresh(f.live - old(f.live)) && {f.current, f.next} == old({f.current, f.next})
    ensures AtRow(f, img, cells, rows, y + 1, overran)
  {
    hide Finder.Valid, RunsInOrder, ScannedTo, LastLit, MarkedTo, MarkedCells, Picture, RowStart, Base, Seen, RowsOf;
    ghost var w: nat, h: nat := img.w, img.h;
    var base := RowStart(y, img.w);
    ghost var before := img.bits[..];
    RowReady(cells, before, y, w, h);
    LaterRow(y, w, h);
    assert before[base..base + w] == img.bits[base..base + w];
    ScanRow(f, img, y, base, rows);
    RowDone(rows, f.history, y);
    RowMarked(cells, before, img.bits[..], y, w, h);
  }

  /** Scans the whole image. The stripes handed to the finder are the maximal runs of what it sees; the cells marked
      are the right neighbours of those it sees lit, and only a corner seen lit makes it write past its end. */
  method ToStripes(f: Finder, img: Image)
    requires f.Valid() && f.history == [] && img.Sized() && img.bits != null && img.ratio == 1.0
    requires img.w < 0x8000_0000 && img.h < 0x8000_0000 && f.current.Length >= img.w / 2 + 1
    modifies f, f.current, f.next, f.live, img.bits, img`overran
    ensures f.Valid() && fresh(f.live - old(f.live)) && {f.current, f.next} == old({f.current, f.next})
    ensures AreRuns(SeenCells(old(img.bits[..]), img), f.history) && LinesFit(f.history, (img.w + 1) / 2)
    ensures MarkedCells(old(img.bits[..]), img.bits[..], img.w, Base(img.h, img.w))
    ensures img.overran <==>
      old(img.overran) || (img.bits.Length == Base(img.h, img.w) && !MarksInside(old(img.bits[..]), img.w, img.h))
  {
    hide Finder.Valid, RunsInOrder, ScannedTo, AreRuns, LastLit, MarkedCells, Picture, Image.Sized, MarksInside;
    hide SeenCells, Base, Seen, RowsOf, LinesFit, AtRow;
    SizedFacts(img);
    ghost var cells, rows := img.bits[..], SeenRows(img.bits[..], img);
    AtFirstRow(f, img, cells, rows);
    SameBuffers(f);
    for y := 0 to img.h
      invariant f.Valid() && fresh(f.live - old(f.live)) && {f.current, f.next} == old({f.current, f.next})
      invariant AtRow(f, img, cells, rows, y, old(img.overran))
    {
      SameBuffers(f);
      NextRow(f, img, y, cells, rows, old(img.overran));
    }
    AfterLastRow(f, img, cells, rows, old(img.overran));
  }

  lemma AtFirstRow(f: Finder, img: Image, cells: seq<byte>, rows: seq<seq<byte>>)
    requires f.Valid() && f.history == [] && img.Sized() && img.bits != null && cells == img.bits[..]
    requires rows == Seen(RowsOf(cells, img.w, img.h))
    ensures AtRow(f, img, cells, rows, 0, img.overran)
  {
    hide Seen, RowsOf, Finder.Valid;
    ScanStarts(rows);
    SameBuffers(f);
  }

  lemma AfterLastRow(f: Finder, img: Image, cells: seq<byte>, rows: seq<seq<byte>>, overran: bool)
    requires img.Sized() && img.bits != null && Base(img.h, img.w) <= |cells|
    requires rows == Seen(RowsOf(cells, img.w, img.h)) && AtRow(f, img, cells, rows, img.h, overran)
    ensures AreRuns(rows, f.history) && LinesFit(f.history, (img.w + 1) / 2)
    ensures MarkedCells(cells, img.bits[..], img.w, Base(img.h, img.w))
    ensures img.overran <==> overran || (img.bits.Length == Base(img.h, img.w) && !MarksInside(cells, img.w, img.h))
  {
    hide Seen, RowsOf, RunsInOrder, ScannedTo, MarkedCells, LastLit, MarksInside, Base, LinesFit, AreRuns;
    ScanEnds(rows, f.history);
    RunsFit(rows, img.w, f.history);
    LastRow(cells, img.w, img.h);
  }

  ghost function SeenRows(cells: seq<byte>, img: Image): (rows: seq<seq<byte>>)
    requires img.w >= 1 && img.h >= 1 && |cells| >= Base(img.h, img.w)
    ensures rows == SeenCells(cells, img) == Seen(RowsOf(cells, img.w, img.h))
    ensures |rows| == img.h && Picture(rows, img.w)
  {
    SeenCells(cells, img)
  }

  lemma LaterRow(y: nat, w: nat, h: nat)
    requires w > 0 && y < h
    ensures y == h - 1 || Base(y, w) + w < Base(h, w)
    ensures Base(y + 1, w) == Base(y, w) + w
  {
    BaseFits(y, w, h);
    if y < h - 1 {
      BaseFits(y + 1, w, h);
    }
  }

  lemma SizedFacts(img: Image)
    requires img.Sized()
    ensures img.w >= 1 && img.h >= 1 && (img.bits != null ==> img.bits.Length >= Base(img.h, img.w))
  {
  }

  lemma SameBuffers(f: Finder)
    requires f.Valid()
    ensures f.current.Length == f.next.Length && f.current != f.next
    ensures |f.history| == 0 ==> f.currentVline == 0xFFFF_FFFE
  {
  }
}

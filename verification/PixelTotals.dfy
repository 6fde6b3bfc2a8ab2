/** Sums over sets of pixels, and the end-to-end result of processing a frame. */
module PixelTotals {
  import opened Words
  import opened StripeGraph
  import opened Bitmap
  import opened BlobFinder
  import opened Scan
  import opened Pixels

  /** What one pixel contributes: its value times its coordinates, its value, and one point. */
  ghost function Share(rows: seq<seq<byte>>, p: Pixel): Totals {
    if Lit(rows, p) then
      var v := rows[p.y][p.x];
      Totals(v * p.x, v * p.y, v, 1)
    else ZERO
  }

  /** Pixel count, weight and weighted coordinates over a set of pixels. */
  ghost function PixelSum(rows: seq<seq<byte>>, s: set<Pixel>): Totals
    decreases |s|
  {
    if s == {} then ZERO
    else
      var p :| p in s;
      Plus(PixelSum(rows, s - {p}), Share(rows, p))
  }

  lemma {:induction false} PixelSumRemove(rows: seq<seq<byte>>, s: set<Pixel>, p: Pixel)
    requires p in s
    ensures PixelSum(rows, s) == Plus(PixelSum(rows, s - {p}), Share(rows, p))
    decreases |s|
  {
    hide Share;
    var q :| q in s && PixelSum(rows, s) == Plus(PixelSum(rows, s - {q}), Share(rows, q));
    if p != q {
      PixelSumRemove(rows, s - {q}, p);
      PixelSumRemove(rows, s - {p}, q);
      assert s - {q} - {p} == s - {p} - {q};
      var a, b := PixelSum(rows, s - {q}), PixelSum(rows, s - {p});
      var c := PixelSum(rows, s - {p} - {q});
      assert a == Plus(c, Share(rows, p)) && b == Plus(c, Share(rows, q));
      assert PixelSum(rows, s) == Plus(a, Share(rows, q));
    }
  }

  lemma {:induction false} PixelSumUnion(rows: seq<seq<byte>>, s: set<Pixel>, t: set<Pixel>)
    requires s !! t
    ensures PixelSum(rows, s + t) == Plus(PixelSum(rows, s), PixelSum(rows, t))
    decreases |t|
  {
    hide Share;
    if t == {} {
      assert s + t == s;
    } else {
      var p :| p in t;
      PixelSumUnion(rows, s, t - {p});
      PixelSumRemove(rows, s + t, p);
      PixelSumRemove(rows, t, p);
      assert s + t - {p} == s + (t - {p});
    }
  }

  lemma PixelSumEmpty(rows: seq<seq<byte>>)
    ensures PixelSum(rows, {}) == ZERO
  {
  }

  // ---------- one run ----------

  ghost function Segment(y: int, lo: int, hi: int): (s: set<Pixel>)
    ensures forall p :: p in s <==> p.y == y && lo <= p.x <= hi
  {
    set x | lo <= x <= hi :: Pixel(x, y)
  }

  ghost function RunPixels(t: Stripe): (s: set<Pixel>)
    ensures forall p :: p in s <==> InRun(t, p)
  {
    Segment(t.vline, t.hstart, t.hstop)
  }

  lemma MomentShift(w: int, m: int, v: int, s: int, e: int, y: int)
    ensures (w + v) * s + (m + v * (e - s)) == w * s + m + v * e
    ensures (w + v) * y == w * y + v * y
  {
  }

  lemma SumsAt(row: seq<byte>, s: int, e: int)
    requires 0 <= s <= e < |row|
    ensures Weight(row, s, e) == row[e] + if e == s then 0 else Weight(row, s, e - 1)
    ensures Moment(row, s, e) == if e == s then 0 else Moment(row, s, e - 1) + row[e] * (e - s)
  {
  }

  lemma {:induction false} SegmentSum(rows: seq<seq<byte>>, y: int, s: int, e: int)
    requires 0 <= y < |rows| && 0 <= s <= e < |rows[y]|
    requires forall x :: s <= x <= e ==> rows[y][x] != 0
    ensures var weight := Weight(rows[y], s, e);
      PixelSum(rows, Segment(y, s, e)) ==
        Totals(weight * s + Moment(rows[y], s, e), weight * y, weight, e - s + 1)
    decreases e
  {
    hide PixelSum, Weight, Moment;
    var last := Pixel(e, y);
    assert Share(rows, last) == Totals(rows[y][e] * e, rows[y][e] * y, rows[y][e], 1);
    SumsAt(rows[y], s, e);
    PixelSumRemove(rows, Segment(y, s, e), last);
    PixelSumEmpty(rows);
    if e == s {
      assert Segment(y, s, e) - {last} == {};
    } else {
      assert Segment(y, s, e) - {last} == Segment(y, s, e - 1);
      SegmentSum(rows, y, s, e - 1);
      MomentShift(Weight(rows[y], s, e - 1), Moment(rows[y], s, e - 1), rows[y][e], s, e, y);
    }
  }

  lemma RunSum(rows: seq<seq<byte>>, t: Stripe)
    requires t.vline < |rows| && Describes(t, rows[t.vline])
    ensures PixelSum(rows, RunPixels(t)) == Mass(t)
  {
    SegmentSum(rows, t.vline, t.hstart, t.hstop);
  }

  // ---------- one component ----------

  /** The pixels of the stripes tagged c. */
  ghost function TaggedPixels(h: seq<Stripe>, comp: seq<int>, c: int): set<Pixel>
    requires |comp| <= |h|
  {
    if |comp| == 0 then {}
    else
      var n := |comp| - 1;
      var rest := TaggedPixels(h, comp[..n], c);
      if comp[n] == c then rest + RunPixels(h[n]) else rest
  }

  lemma {:induction false} TaggedPixelsAre(h: seq<Stripe>, comp: seq<int>, c: int, p: Pixel)
    requires |comp| <= |h|
    ensures p in TaggedPixels(h, comp, c) <==> exists k :: 0 <= k < |comp| && comp[k] == c && InRun(h[k], p)
  {
    if |comp| > 0 {
      TaggedPixelsAre(h, comp[..|comp| - 1], c, p);
    }
  }

  lemma EarlierPixel(rows: seq<seq<byte>>, h: seq<Stripe>, comp: seq<int>, c: int, p: Pixel)
    requires RunsInOrder(rows, h) && |comp| < |h| && p in TaggedPixels(h, comp, c)
    ensures !InRun(h[|comp|], p)
  {
    TaggedPixelsAre(h, comp, c, p);
    var k :| 0 <= k < |comp| && comp[k] == c && InRun(h[k], p);
    if InRun(h[|comp|], p) {
      OneRunPerPixel(rows, h, k, |comp|, p);
    }
  }

  /** The totals over the stripes of a component are the sums over its pixels. */
  lemma {:induction false} ComponentSum(rows: seq<seq<byte>>, h: seq<Stripe>, comp: seq<int>, c: int)
    requires RunsInOrder(rows, h) && |comp| <= |h|
    ensures Sum(h, comp, c) == PixelSum(rows, TaggedPixels(h, comp, c))
  {
    if |comp| > 0 {
      var n := |comp| - 1;
      ComponentSum(rows, h, comp[..n], c);
      if comp[n] == c {
        var rest := TaggedPixels(h, comp[..n], c);
        forall p | p in rest ensures p !in RunPixels(h[n]) {
          EarlierPixel(rows, h, comp[..n], c, p);
        }
        RunSum(rows, h[n]);
        PixelSumUnion(rows, rest, RunPixels(h[n]));
      }
    }
  }

  ghost function LitPixels(rows: seq<seq<byte>>): (s: set<Pixel>)
    ensures forall p :: p in s <==> Lit(rows, p)
  {
    set y, x | 0 <= y < |rows| && 0 <= x < |rows[y]| && rows[y][x] != 0 :: Pixel(x, y)
  }

  /** The 8-connected component of q. */
  ghost function ComponentOf(rows: seq<seq<byte>>, q: Pixel): (s: set<Pixel>)
    ensures forall p :: p in s <==> Lit(rows, p) && Joins(rows, p, q)
  {
    set p | p in LitPixels(rows) && Joins(rows, p, q)
  }

  // ---------- the frame ----------

  /** Entry at[q] belongs to the component of pixel q: every lit pixel has an entry, two pixels share one
      exactly when they are 8-connected, no entry is without pixels, and each entry is the exact sum. */
  ghost predicate EntriesAreBlobs(rows: seq<seq<byte>>, flushed: seq<Totals>, at: map<Pixel, int>) {
    && at.Keys == LitPixels(rows)
    && (forall q :: q in at ==> 0 <= at[q] < |flushed| && flushed[at[q]] == PixelSum(rows, ComponentOf(rows, q)))
    && (forall p, q :: p in at && q in at ==> (at[p] == at[q] <==> Joins(rows, p, q)))
    && (forall c :: 0 <= c < |flushed| ==> c in at.Values)
  }

  ghost function RunAt(h: seq<Stripe>, q: Pixel): (k: int)
    requires Covered(h, q.x, q.y)
    ensures 0 <= k < |h| && InRun(h[k], q)
  {
    var k :| 0 <= k < |h| && Covers(h[k], q.x, q.y);
    k
  }

  lemma EntryOfPixel(rows: seq<seq<byte>>, w: int, h: seq<Stripe>, flushed: seq<Totals>, comp: seq<int>, i: int,
                     q: Pixel)
    requires SmallPicture(rows, w) && AreRuns(rows, h) && OneEntryPerComponent(h, flushed, comp)
    requires 0 <= i < |h| && InRun(h[i], q)
    ensures 0 <= comp[i] < |flushed| && flushed[comp[i]] == PixelSum(rows, ComponentOf(rows, q))
  {
    ComponentSum(rows, h, comp, comp[i]);
    forall p ensures p in TaggedPixels(h, comp, comp[i]) <==> p in ComponentOf(rows, q) {
      TaggedPixelsAre(h, comp, comp[i], p);
      if Lit(rows, p) {
        assert Covered(h, p.x, p.y);
        var j := RunAt(h, p);
        PixelsAndRunsAgree(rows, w, h, j, i, p, q);
        if p in TaggedPixels(h, comp, comp[i]) {
          var k :| 0 <= k < |comp| && comp[k] == comp[i] && InRun(h[k], p);
          OneRunPerPixel(rows, h, j, k, p);
        }
      }
    }
    assert TaggedPixels(h, comp, comp[i]) == ComponentOf(rows, q);
  }

  ghost function EntryMap(rows: seq<seq<byte>>, h: seq<Stripe>, comp: seq<int>): (at: map<Pixel, int>)
    requires AreRuns(rows, h) && |comp| == |h|
    ensures at.Keys == LitPixels(rows)
    ensures forall q :: q in at ==> Covered(h, q.x, q.y) && at[q] == comp[RunAt(h, q)]
  {
    map q | q in LitPixels(rows) :: comp[RunAt(h, q)]
  }

  /** One entry per component of the stripe graph is one entry per 8-connected blob of the picture. */
  lemma EntriesOfFrame(rows: seq<seq<byte>>, w: int, h: seq<Stripe>, flushed: seq<Totals>, comp: seq<int>)
    requires SmallPicture(rows, w) && AreRuns(rows, h) && OneEntryPerComponent(h, flushed, comp)
    ensures EntriesAreBlobs(rows, flushed, EntryMap(rows, h, comp))
  {
    var at := EntryMap(rows, h, comp);
    forall q | q in at ensures 0 <= at[q] < |flushed| && flushed[at[q]] == PixelSum(rows, ComponentOf(rows, q)) {
      EntryOfPixel(rows, w, h, flushed, comp, RunAt(h, q), q);
    }
    forall p, q | p in at && q in at ensures at[p] == at[q] <==> Joins(rows, p, q) {
      PixelsAndRunsAgree(rows, w, h, RunAt(h, p), RunAt(h, q), p, q);
    }
    forall c | 0 <= c < |flushed| ensures c in at.Values {
      assert c in comp;
      var i :| 0 <= i < |comp| && comp[i] == c;
      var q := Pixel(h[i].hstart, h[i].vline);
      RunLit(rows, h, i, q);
      OneRunPerPixel(rows, h, i, RunAt(h, q), q);
      assert q in at && at[q] == c;
    }
  }

  // ---------- the order of the entries ----------

  /** Reading order: by row, and from left to right. */
  ghost predicate Before(d: Pixel, e: Pixel) {
    d.y < e.y || (d.y == e.y && d.x < e.x)
  }

  ghost predicate Increasing(s: seq<Pixel>) {
    forall c, d :: 0 <= c < d < |s| ==> Before(s[c], s[d])
  }

  lemma IncreasingSnoc(s: seq<Pixel>, p: Pixel)
    requires Increasing(s) && forall e :: e in s ==> Before(e, p)
    ensures Increasing(s + [p])
  {
    hide Before;
    forall c | 0 <= c < |s| ensures Before(s[c], p) {
      assert s[c] in s;
    }
  }

  lemma IncreasingLast(s: seq<Pixel>, e: Pixel)
    requires Increasing(s) && |s| > 0 && e in s[..|s| - 1]
    ensures Before(e, s[|s| - 1]) && Increasing(s[..|s| - 1])
  {
    hide Before;
    var k :| 0 <= k < |s| - 1 && s[..|s| - 1][k] == e;
    assert Before(s[k], s[|s| - 1]);
  }

  /** The leftmost pixel on the last row of its component. */
  ghost predicate IsEnd(rows: seq<seq<byte>>, e: Pixel) {
    Lit(rows, e) && forall q :: Lit(rows, q) && Joins(rows, q, e) ==> q.y < e.y || (q.y == e.y && e.x <= q.x)
  }

  /** One entry per component, with its exact sum, in the reading order of the pixels where the components end. */
  ghost predicate EntriesByEnd(rows: seq<seq<byte>>, flushed: seq<Totals>, ends: seq<Pixel>) {
    && |ends| == |flushed|
    && Increasing(ends)
    && (forall e :: IsEnd(rows, e) <==> e in ends)
    && (forall c :: 0 <= c < |ends| ==> flushed[c] == PixelSum(rows, ComponentOf(rows, ends[c])))
  }

  /** The first pixel of the first run on the last line of entry c. */
  ghost function EndPixel(h: seq<Stripe>, comp: seq<int>, c: int): Pixel
    requires |comp| == |h| && c in comp
  {
    EndIndexEnds(h, comp, c);
    var i := EndIndex(h, comp, c);
    Pixel(h[i].hstart, h[i].vline)
  }

  ghost function EndPixels(h: seq<Stripe>, comp: seq<int>, n: nat): (ends: seq<Pixel>)
    requires |comp| == |h| && forall c :: 0 <= c < n ==> c in comp
    ensures |ends| == n && forall c :: 0 <= c < n ==> ends[c] == EndPixel(h, comp, c)
  {
    seq(n, c requires 0 <= c < n => EndPixel(h, comp, c))
  }

  lemma EndIsRunStart(rows: seq<seq<byte>>, h: seq<Stripe>, comp: seq<int>, c: int) returns (i: int)
    requires AreRuns(rows, h) && |comp| == |h| && c in comp
    ensures 0 <= i < |h| && comp[i] == c && i == EndIndex(h, comp, c)
    ensures EndPixel(h, comp, c) == Pixel(h[i].hstart, h[i].vline)
    ensures InRun(h[i], EndPixel(h, comp, c)) && Lit(rows, EndPixel(h, comp, c))
    ensures forall k :: 0 <= k < |h| && comp[k] == c ==> EndsAt(h, i, k)
  {
    EndIndexEnds(h, comp, c);
    i := EndIndex(h, comp, c);
    DescribedRun(rows, h, i);
    RunLit(rows, h, i, EndPixel(h, comp, c));
  }

  lemma SameEntryJoins(rows: seq<seq<byte>>, w: int, h: seq<Stripe>, flushed: seq<Totals>, comp: seq<int>,
                       i: int, j: int, p: Pixel, q: Pixel)
    requires SmallPicture(rows, w) && AreRuns(rows, h) && OneEntryPerComponent(h, flushed, comp)
    requires 0 <= i < |h| && 0 <= j < |h| && InRun(h[i], p) && InRun(h[j], q)
    ensures Joins(rows, p, q) <==> comp[i] == comp[j]
  {
    PixelsAndRunsAgree(rows, w, h, i, j, p, q);
  }

  /** Every other pixel of the component comes earlier by row, or later on the same row. */
  lemma EndBeats(rows: seq<seq<byte>>, w: int, h: seq<Stripe>, flushed: seq<Totals>, comp: seq<int>, c: int, q: Pixel)
    requires SmallPicture(rows, w) && AreRuns(rows, h) && OneEntryPerComponent(h, flushed, comp) && |comp| == |h|
    requires c in comp && Lit(rows, q) && Joins(rows, q, EndPixel(h, comp, c))
    ensures var e := EndPixel(h, comp, c); q.y < e.y || (q.y == e.y && e.x <= q.x)
  {
    var i := EndIsRunStart(rows, h, comp, c);
    var e := EndPixel(h, comp, c);
    hide AreRuns, OneEntryPerComponent, SmallPicture, Joins, EndIndex, EndPixel, RunsInOrder, Describes;
    RunFound(rows, h, q.x, q.y);
    var k := RunAt(h, q);
    SameEntryJoins(rows, w, h, flushed, comp, k, i, q, e);
    hide Covered;
    RunsFollow(rows, h, i, k, e, q);
  }

  /** A pixel of a run that ends no later lies on an earlier row, or not left of the first pixel. */
  lemma RunsFollow(rows: seq<seq<byte>>, h: seq<Stripe>, i: int, k: int, e: Pixel, q: Pixel)
    requires AreRuns(rows, h) && 0 <= i < |h| && 0 <= k < |h| && EndsAt(h, i, k)
    requires e == Pixel(h[i].hstart, h[i].vline) && InRun(h[k], q)
    ensures q.y < e.y || (q.y == e.y && e.x <= q.x)
  {
    hide AreRuns;
    if i < k {
      RunsIncrease(rows, h, i, k);
    }
  }

  lemma EndOfEntry(rows: seq<seq<byte>>, w: int, h: seq<Stripe>, flushed: seq<Totals>, comp: seq<int>, c: int)
    requires SmallPicture(rows, w) && AreRuns(rows, h) && OneEntryPerComponent(h, flushed, comp) && c in comp
    ensures IsEnd(rows, EndPixel(h, comp, c))
  {
    var i := EndIsRunStart(rows, h, comp, c);
    var e := EndPixel(h, comp, c);
    CompSize(h, flushed, comp);
    hide AreRuns, OneEntryPerComponent, SmallPicture, Joins, EndIndex, EndPixel, Lit;
    forall q | Lit(rows, q) && Joins(rows, q, e) ensures q.y < e.y || (q.y == e.y && e.x <= q.x) {
      EndBeats(rows, w, h, flushed, comp, c, q);
    }
  }

  lemma CompSize(h: seq<Stripe>, flushed: seq<Totals>, comp: seq<int>)
    requires OneEntryPerComponent(h, flushed, comp)
    ensures |comp| == |h| && forall c :: 0 <= c < |flushed| ==> c in comp
    ensures forall k :: 0 <= k < |h| ==> 0 <= comp[k] < |flushed|
  {
  }

  /** Every end of a component is the end of its entry. */
  lemma EndFound(rows: seq<seq<byte>>, w: int, h: seq<Stripe>, flushed: seq<Totals>, comp: seq<int>, e: Pixel)
    returns (c: int)
    requires SmallPicture(rows, w) && AreRuns(rows, h) && OneEntryPerComponent(h, flushed, comp) && IsEnd(rows, e)
    ensures 0 <= c < |flushed| && c in comp && |comp| == |h| && e == EndPixel(h, comp, c)
  {
    CompSize(h, flushed, comp);
    RunFound(rows, h, e.x, e.y);
    var k := RunAt(h, e);
    c := comp[k];
    var i := EndIsRunStart(rows, h, comp, c);
    var p := EndPixel(h, comp, c);
    SameEntryJoins(rows, w, h, flushed, comp, i, k, p, e);
    SameEntryJoins(rows, w, h, flushed, comp, k, i, e, p);
    EndOfEntry(rows, w, h, flushed, comp, c);
    hide EndPixel, Joins;
  }

  lemma EndsIncrease(rows: seq<seq<byte>>, h: seq<Stripe>, comp: seq<int>, c: int, d: int)
    requires AreRuns(rows, h) && NumberedByEnd(h, comp) && c in comp && d in comp && c < d
    ensures Before(EndPixel(h, comp, c), EndPixel(h, comp, d))
  {
    var i := EndIsRunStart(rows, h, comp, c);
    var j := EndIsRunStart(rows, h, comp, d);
    hide AreRuns, EndIndex, EndPixel;
    assert comp[i] < comp[j];
    RunsIncrease(rows, h, i, j);
  }

  /** The entries come in the reading order of the pixels where their components end. */
  lemma EntriesInOrder(rows: seq<seq<byte>>, w: int, h: seq<Stripe>, flushed: seq<Totals>, comp: seq<int>)
    requires SmallPicture(rows, w) && AreRuns(rows, h)
    requires OneEntryPerComponent(h, flushed, comp) && NumberedByEnd(h, comp)
    ensures |comp| == |h| && forall c :: 0 <= c < |flushed| ==> c in comp
    ensures EntriesByEnd(rows, flushed, EndPixels(h, comp, |flushed|))
  {
    CompSize(h, flushed, comp);
    var ends := EndPixels(h, comp, |flushed|);
    hide SmallPicture, AreRuns, OneEntryPerComponent, NumberedByEnd, EndPixel, IsEnd, PixelSum, EndPixels, Before;
    assert Increasing(ends) by {
      forall c, d | 0 <= c < d < |ends| ensures Before(ends[c], ends[d]) {
        EndsIncrease(rows, h, comp, c, d);
      }
    }
    forall c | 0 <= c < |ends|
      ensures flushed[c] == PixelSum(rows, ComponentOf(rows, ends[c])) && IsEnd(rows, ends[c])
    {
      var i := EndIsRunStart(rows, h, comp, c);
      EntryOfPixel(rows, w, h, flushed, comp, i, ends[c]);
      EndOfEntry(rows, w, h, flushed, comp, c);
    }
    forall e | IsEnd(rows, e) ensures e in ends {
      var c := EndFound(rows, w, h, flushed, comp, e);
      assert ends[c] == e;
    }
  }

  // ---------- the blobs that are reported ----------

  ghost predicate AllLit(rows: seq<seq<byte>>, s: set<Pixel>) {
    forall p :: p in s ==> Lit(rows, p)
  }

  /** The values of the pixels of s, each times its distance from column a, and from line b. */
  ghost function Levers(rows: seq<seq<byte>>, s: set<Pixel>, a: real, b: real): (r: (real, real))
    requires AllLit(rows, s)
    decreases |s|
  {
    if s == {} then (0.0, 0.0)
    else
      var p :| p in s;
      var rest := Levers(rows, s - {p}, a, b);
      (rest.0 + Lever(rows[p.y][p.x], p.x, a), rest.1 + Lever(rows[p.y][p.x], p.y, b))
  }

  lemma LeversEmpty(rows: seq<seq<byte>>, a: real, b: real)
    ensures Levers(rows, {}, a, b) == (0.0, 0.0)
  {
  }

  /** One pixel p of s apart, with its value v and its weighted coordinates mx and my. */
  lemma LeversSplit(rows: seq<seq<byte>>, s: set<Pixel>, a: real, b: real)
    returns (p: Pixel, v: int, mx: int, my: int)
    requires AllLit(rows, s) && s != {}
    ensures p in s
    ensures var t := PixelSum(rows, s - {p});
      PixelSum(rows, s) == Totals(t.sumX + mx, t.sumY + my, t.sum + v, t.points + 1)
    ensures var rest := Levers(rows, s - {p}, a, b);
      Levers(rows, s, a, b) == (rest.0 + Scaled(a, v) - mx as real, rest.1 + Scaled(b, v) - my as real)
  {
    hide Lever, Scaled;
    p :| p in s && Levers(rows, s, a, b) ==
      (Levers(rows, s - {p}, a, b).0 + Lever(rows[p.y][p.x], p.x, a),
       Levers(rows, s - {p}, a, b).1 + Lever(rows[p.y][p.x], p.y, b));
    hide PixelSum, Levers;
    v := rows[p.y][p.x];
    mx, my := v * p.x, v * p.y;
    PixelSumRemove(rows, s, p);
    LeverIs(v, p.x, a);
    LeverIs(v, p.y, b);
  }

  lemma {:induction false} LeversAre(rows: seq<seq<byte>>, s: set<Pixel>, a: real, b: real)
    requires AllLit(rows, s)
    ensures var t := PixelSum(rows, s);
      && Levers(rows, s, a, b).0 == Scaled(a, t.sum) - t.sumX as real
      && Levers(rows, s, a, b).1 == Scaled(b, t.sum) - t.sumY as real
      && t.points == |s|
    decreases |s|
  {
    LeversEmpty(rows, a, b);
    PixelSumEmpty(rows);
    hide Lever, Scaled, PixelSum, Levers;
    if s == {} {
      ScaledAdd(a, 0, 0);
      ScaledAdd(b, 0, 0);
    } else {
      var p, v, mx, my := LeversSplit(rows, s, a, b);
      LeversAre(rows, s - {p}, a, b);
      var t := PixelSum(rows, s - {p});
      ScaledAdd(a, t.sum, v);
      ScaledAdd(b, t.sum, v);
    }
  }

  /** The blob of a component: its score is the number of pixels, and seen from its place, which is counted from the
      centre of the picture, the values of the pixels balance in both directions. */
  ghost predicate BlobOfComponent(b: Blob, rows: seq<seq<byte>>, s: set<Pixel>, w: int, h: int) {
    && AllLit(rows, s) && b.score == |s| && b.x.Finite? && b.y.Finite?
    && Levers(rows, s, (w - 1) as real / 2.0 - b.x.v, (h - 1) as real / 2.0 - b.y.v) == (0.0, 0.0)
  }

  lemma SumHasBlob(b: Blob, rows: seq<seq<byte>>, s: set<Pixel>, w: int, h: int)
    requires AllLit(rows, s) && s != {} && StandsFor(b, PixelSum(rows, s), w, h, 1.0)
    ensures BlobOfComponent(b, rows, s, w, h)
  {
    LeversAre(rows, s, 0.0, 0.0);
    WeightPositive(rows, s);
    hide PixelSum, Levers, Scaled;
    assert CellAt(w, b.x.v, 1.0) == (w - 1) as real / 2.0 - b.x.v;
    assert CellAt(h, b.y.v, 1.0) == (h - 1) as real / 2.0 - b.y.v;
    LeversAre(rows, s, (w - 1) as real / 2.0 - b.x.v, (h - 1) as real / 2.0 - b.y.v);
  }

  lemma {:induction false} WeightPositive(rows: seq<seq<byte>>, s: set<Pixel>)
    requires AllLit(rows, s) && s != {}
    ensures PixelSum(rows, s).sum > 0
    decreases |s|
  {
    hide PixelSum;
    var p :| p in s;
    PixelSumRemove(rows, s, p);
    if s - {p} == {} {
      PixelSumEmpty(rows);
    } else {
      WeightPositive(rows, s - {p});
    }
  }

  /** The blob that is reported for the component of a lit pixel. */
  lemma ComponentHasBlob(rows: seq<seq<byte>>, e: Pixel, w: int, h: int)
    requires Lit(rows, e)
    ensures var s := ComponentOf(rows, e); BlobOfComponent(BlobOf(PixelSum(rows, s), w, h, 1.0), rows, s, w, h)
  {
    var s := ComponentOf(rows, e);
    NearJoins(rows, e, e);
    assert e in s;
    BlobStandsFor(PixelSum(rows, s), w, h, 1.0);
    hide BlobOf, StandsFor, BlobOfComponent, PixelSum, ComponentOf;
    SumHasBlob(BlobOf(PixelSum(rows, s), w, h, 1.0), rows, s, w, h);
  }

  ghost function Area(rows: seq<seq<byte>>, e: Pixel): int {
    PixelSum(rows, ComponentOf(rows, e)).points
  }

  /** A component within the size limits ends here. */
  ghost predicate Reports(rows: seq<seq<byte>>, e: Pixel, minPts: int, maxPts: int) {
    IsEnd(rows, e) && minPts <= Area(rows, e) <= maxPts
  }

  /** The ends of exactly the components within the limits, in reading order. */
  ghost predicate ReportedEnds(rows: seq<seq<byte>>, ends: seq<Pixel>, minPts: int, maxPts: int) {
    && Increasing(ends)
    && (forall e :: Reports(rows, e, minPts, maxPts) <==> e in ends)
  }

  /** The ends of the selected entries. */
  ghost function Picked(ts: seq<Totals>, ends: seq<Pixel>, minPts: int, maxPts: int): (r: seq<Pixel>)
    requires |ts| == |ends|
    ensures |r| == |Selected(ts, minPts, maxPts)|
    ensures forall e :: e in r ==> e in ends
  {
    if |ts| == 0 then []
    else
      var n := |ts| - 1;
      var rest := Picked(ts[..n], ends[..n], minPts, maxPts);
      if minPts <= ts[n].points <= maxPts then rest + [ends[n]] else rest
  }

  lemma {:induction false} PickedOrder(ts: seq<Totals>, ends: seq<Pixel>, minPts: int, maxPts: int)
    requires |ts| == |ends| && Increasing(ends)
    ensures Increasing(Picked(ts, ends, minPts, maxPts))
  {
    if |ts| > 0 {
      hide Before;
      var n := |ts| - 1;
      assert Increasing(ends[..n]);
      PickedOrder(ts[..n], ends[..n], minPts, maxPts);
      var rest := Picked(ts[..n], ends[..n], minPts, maxPts);
      hide Increasing;
      forall e | e in rest ensures Before(e, ends[n]) {
        IncreasingLast(ends, e);
      }
      IncreasingSnoc(rest, ends[n]);
    }
  }

  lemma {:induction false} PickedTotals(rows: seq<seq<byte>>, ts: seq<Totals>, ends: seq<Pixel>, minPts: int,
                                        maxPts: int)
    requires |ts| == |ends|
    requires forall c :: 0 <= c < |ends| ==> ts[c] == PixelSum(rows, ComponentOf(rows, ends[c]))
    ensures var r := Picked(ts, ends, minPts, maxPts); var sel := Selected(ts, minPts, maxPts);
      && (forall k :: 0 <= k < |r| ==> sel[k] == PixelSum(rows, ComponentOf(rows, r[k])))
      && (forall e :: e in r <==> e in ends && minPts <= Area(rows, e) <= maxPts)
  {
    hide PixelSum, ComponentOf;
    if |ts| > 0 {
      var n := |ts| - 1;
      PickedTotals(rows, ts[..n], ends[..n], minPts, maxPts);
      var rest := Picked(ts[..n], ends[..n], minPts, maxPts);
      assert ts[n].points == Area(rows, ends[n]);
      assert ends == ends[..n] + [ends[n]];
      forall e ensures e in Picked(ts, ends, minPts, maxPts) <==> e in ends && minPts <= Area(rows, e) <= maxPts {
        assert e in rest <==> e in ends[..n] && minPts <= Area(rows, e) <= maxPts;
      }
    }
  }

  /** The selected entries are the components within the limits, in reading order of their ends. */
  lemma SelectedEnds(rows: seq<seq<byte>>, flushed: seq<Totals>, ends: seq<Pixel>, minPts: int, maxPts: int)
    requires EntriesByEnd(rows, flushed, ends)
    ensures var r := Picked(flushed, ends, minPts, maxPts); var sel := Selected(flushed, minPts, maxPts);
      && ReportedEnds(rows, r, minPts, maxPts)
      && forall k :: 0 <= k < |sel| ==> sel[k] == PixelSum(rows, ComponentOf(rows, r[k]))
  {
    hide PixelSum, ComponentOf, IsEnd, Before, Picked, Selected;
    PickedOrder(flushed, ends, minPts, maxPts);
    PickedTotals(rows, flushed, ends, minPts, maxPts);
  }

  // ---------- when the blobs come sorted by area ----------

  ghost predicate Ordered(down: bool, a: int, b: int) {
    if down then a >= b else a <= b
  }

  ghost predicate SortedByScore(blobs: seq<Blob>, down: bool) {
    forall i, j :: 0 <= i < j < |blobs| ==> Ordered(down, blobs[i].score, blobs[j].score)
  }

  /** How many components within the limits end before e. */
  ghost function Rank(rows: seq<seq<byte>>, e: Pixel, minPts: int, maxPts: int): nat {
    |set x | x in LitPixels(rows) && Reports(rows, x, minPts, maxPts) && Before(x, e)|
  }

  /** Among the first n components within the limits, areas only go down, or only go up, in reading order of the pixels
      where the components end. */
  ghost predicate MonotoneInArea(rows: seq<seq<byte>>, minPts: int, maxPts: int, n: nat, down: bool) {
    forall d, e ::
      (Reports(rows, d, minPts, maxPts) && Reports(rows, e, minPts, maxPts) && Before(d, e)
       && Rank(rows, e, minPts, maxPts) < n) ==>
        Ordered(down, Area(rows, d), Area(rows, e))
  }

  ghost function Elements(s: seq<Pixel>): (r: set<Pixel>)
    ensures forall x :: x in r <==> x in s
  {
    set x | x in s
  }

  lemma {:induction false} DistinctCount(s: seq<Pixel>)
    requires forall c, d :: 0 <= c < d < |s| ==> s[c] != s[d]
    ensures |Elements(s)| == |s|
  {
    if |s| > 0 {
      var n := |s| - 1;
      DistinctCount(s[..n]);
      assert s == s[..n] + [s[n]];
      assert Elements(s) == Elements(s[..n]) + {s[n]};
    } else {
      assert Elements(s) == {};
    }
  }

  lemma RankIs(rows: seq<seq<byte>>, ends: seq<Pixel>, k: nat, minPts: int, maxPts: int)
    requires ReportedEnds(rows, ends, minPts, maxPts) && k < |ends|
    ensures Rank(rows, ends[k], minPts, maxPts) == k
  {
    var earlier := set x | x in LitPixels(rows) && Reports(rows, x, minPts, maxPts) && Before(x, ends[k]);
    forall x ensures x in earlier <==> x in ends[..k] {
      if x in earlier {
        assert x in ends;
        var i :| 0 <= i < |ends| && ends[i] == x;
        assert i < k;
        assert ends[..k][i] == x;
      }
      if x in ends[..k] {
        assert x in ends && Reports(rows, x, minPts, maxPts);
      }
    }
    assert earlier == Elements(ends[..k]);
    DistinctCount(ends[..k]);
  }

  /** The reported blobs are sorted by area exactly when the components of the picture already are, in reading order of
      the pixels where they end. */
  lemma SortedIff(rows: seq<seq<byte>>, ends: seq<Pixel>, minPts: int, maxPts: int, blobs: seq<Blob>, down: bool)
    requires ReportedEnds(rows, ends, minPts, maxPts) && |blobs| <= |ends|
    requires forall k :: 0 <= k < |blobs| ==> blobs[k].score == Area(rows, ends[k])
    ensures SortedByScore(blobs, down) <==> MonotoneInArea(rows, minPts, maxPts, |blobs|, down)
  {
    hide Area, Rank, Reports;
    if SortedByScore(blobs, down) {
      forall d, e | Reports(rows, d, minPts, maxPts) && Reports(rows, e, minPts, maxPts) && Before(d, e)
        && Rank(rows, e, minPts, maxPts) < |blobs|
        ensures Ordered(down, Area(rows, d), Area(rows, e))
      {
        var i :| 0 <= i < |ends| && ends[i] == d;
        var j :| 0 <= j < |ends| && ends[j] == e;
        RankIs(rows, ends, j, minPts, maxPts);
        assert i < j;
        assert Ordered(down, blobs[i].score, blobs[j].score);
      }
    }
    if MonotoneInArea(rows, minPts, maxPts, |blobs|, down) {
      forall i, j | 0 <= i < j < |blobs| ensures Ordered(down, blobs[i].score, blobs[j].score) {
        RankIs(rows, ends, j, minPts, maxPts);
        assert ends[i] in ends && ends[j] in ends && Before(ends[i], ends[j]);
      }
    }
  }

  lemma RunsInLineOrder(rows: seq<seq<byte>>, h: seq<Stripe>)
    requires AreRuns(rows, h)
    ensures InLineOrder(h)
  {
  }

  // ---------- a picture whose blobs do not come sorted by area ----------

  function UnsortedRows(): seq<seq<byte>> {
    [[1, 1, 0], [0, 0, 0], [1, 0, 0], [0, 0, 0], [1, 1, 0]]
  }

  function UnsortedRuns(): seq<Stripe> {
    [Stripe(0, 0, 1, 1, 2, 2), Stripe(2, 0, 0, 0, 1, 1), Stripe(4, 0, 1, 1, 2, 2)]
  }

  lemma PairDescribed(y: uint32, row: seq<byte>)
    requires row == [1, 1, 0]
    ensures Describes(Stripe(y, 0, 1, 1, 2, 2), row)
  {
    assert Weight(row, 0, 0) == 1 && Moment(row, 0, 0) == 0;
  }

  lemma SingleDescribed(y: uint32, row: seq<byte>)
    requires row == [1, 0, 0]
    ensures Describes(Stripe(y, 0, 0, 0, 1, 1), row)
  {
  }

  lemma UnsortedRunsInOrder()
    ensures RunsInOrder(UnsortedRows(), UnsortedRuns())
  {
    hide Describes;
    PairDescribed(0, UnsortedRows()[0]);
    SingleDescribed(2, UnsortedRows()[2]);
    PairDescribed(4, UnsortedRows()[4]);
  }

  lemma UnsortedCovered(y: int, x: int)
    requires 0 <= y < 5 && 0 <= x < 3 && UnsortedRows()[y][x] != 0
    ensures Covered(UnsortedRuns(), x, y)
  {
    assert Covers(UnsortedRuns()[if y == 0 then 0 else if y == 2 then 1 else 2], x, y);
  }

  /** These are the runs of this picture, which is read as it is. */
  lemma UnsortedAreRuns()
    ensures AreRuns(UnsortedRows(), UnsortedRuns())
    ensures Seen(UnsortedRows()) == UnsortedRows()
  {
    UnsortedRunsInOrder();
    assert forall y :: 0 <= y < 5 ==> |UnsortedRows()[y]| == 3 && UnsortedRows()[y][2] == 0;
    hide RunsInOrder, Covered, Seen, UnsortedRuns;
    DarkLastColumnIsHarmless(UnsortedRows());
    forall y, x | 0 <= y < 5 && 0 <= x < 3 && UnsortedRows()[y][x] != 0 ensures Covered(UnsortedRuns(), x, y) {
      UnsortedCovered(y, x);
    }
  }

  lemma UnsortedApart(i: int, j: int)
    requires Connected(UnsortedRuns(), i, j)
    ensures i == j
  {
    var h := UnsortedRuns();
    var p :| PathFromTo(h, p, i, j);
    if |p| > 1 {
      assert Link(h, p[0], p[1]);
      hide Above;
      AboveInLineOrder(h, p[0], p[1]);
      AboveInLineOrder(h, p[1], p[0]);
    }
  }

  lemma UnsortedComponent(k: nat, p: Pixel)
    requires k < 3 && InRun(UnsortedRuns()[k], p)
    ensures Lit(UnsortedRows(), p) && ComponentOf(UnsortedRows(), p) == RunPixels(UnsortedRuns()[k])
  {
    var rows, h := UnsortedRows(), UnsortedRuns();
    UnsortedAreRuns();
    UnsortedRunsInOrder();
    UnsortedSmall();
    assert |h| == 3;
    hide UnsortedRows, UnsortedRuns, AreRuns, RunsInOrder, SmallPicture, Joins;
    RunLit(rows, h, k, p);
    forall q ensures q in ComponentOf(rows, p) <==> q in RunPixels(h[k]) {
      if q in ComponentOf(rows, p) {
        RunFound(rows, h, q.x, q.y);
        var j := RunAt(h, q);
        PixelsAndRunsAgree(rows, 3, h, j, k, q, p);
        UnsortedApart(j, k);
      }
      if q in RunPixels(h[k]) {
        RunLit(rows, h, k, q);
        RunJoins(rows, h, k, q, p);
      }
    }
  }

  lemma UnsortedSmall()
    ensures SmallPicture(UnsortedRows(), 3)
  {
  }

  /** A component of this picture ends at the first pixel of its run, and has the points of the run. */
  lemma UnsortedReports(k: nat)
    requires k < 3
    ensures var s := UnsortedRuns()[k]; var e := Pixel(s.hstart, s.vline);
      Reports(UnsortedRows(), e, 1, 2) && Area(UnsortedRows(), e) == s.points
  {
    UnsortedAreRuns();
    UnsortedPoints();
    hide UnsortedRows, UnsortedRuns, AreRuns, Describes, PixelSum, IsEnd, RunPixels, ComponentOf;
    var rows, s := UnsortedRows(), UnsortedRuns()[k];
    var e := Pixel(s.hstart, s.vline);
    DescribedRun(rows, UnsortedRuns(), k);
    StartsRun(rows[s.vline], s);
    UnsortedComponent(k, e);
    RunSum(rows, s);
    MassPoints(s);
    OneRunEnd(rows, s, e);
  }

  lemma StartsRun(row: seq<byte>, s: Stripe)
    requires Describes(s, row)
    ensures InRun(s, Pixel(s.hstart, s.vline))
  {
  }

  /** A component that is one run ends at the first pixel of the run. */
  lemma OneRunEnd(rows: seq<seq<byte>>, s: Stripe, e: Pixel)
    requires Lit(rows, e) && e == Pixel(s.hstart, s.vline) && ComponentOf(rows, e) == RunPixels(s)
    ensures IsEnd(rows, e)
  {
    hide Joins;
    forall q | Lit(rows, q) && Joins(rows, q, e) ensures q.y < e.y || (q.y == e.y && e.x <= q.x) {
      assert q in ComponentOf(rows, e);
    }
  }

  lemma UnsortedPoints()
    ensures var h := UnsortedRuns(); |h| == 3 && h[0].points == 2 && h[1].points == 1 && h[2].points == 2
    ensures forall k :: 0 <= k < 3 ==> UnsortedRuns()[k].hstart == 0 && UnsortedRuns()[k].vline == 2 * k
  {
  }

  lemma MassPoints(s: Stripe)
    ensures Mass(s).points == s.points
  {
  }

  lemma PlaceOf(rows: seq<seq<byte>>, ends: seq<Pixel>, minPts: int, maxPts: int, e: Pixel) returns (i: nat)
    requires ReportedEnds(rows, ends, minPts, maxPts) && Reports(rows, e, minPts, maxPts)
    ensures i < |ends| && ends[i] == e
  {
    hide Reports;
    assert e in ends;
    i :| 0 <= i < |ends| && ends[i] == e;
  }

  lemma PlacesFollow(rows: seq<seq<byte>>, ends: seq<Pixel>, minPts: int, maxPts: int, i: nat, j: nat)
    requires ReportedEnds(rows, ends, minPts, maxPts) && i < |ends| && j < |ends| && Before(ends[i], ends[j])
    ensures i < j
  {
    hide Reports;
  }

  /** The three blobs of this picture have 2, 1 and 2 pixels in reading order: they are reported unsorted, whichever way
      sorted is meant. */
  lemma BlobsNotSorted(ends: seq<Pixel>, blobs: seq<Blob>, down: bool)
    requires ReportedEnds(UnsortedRows(), ends, 1, 2) && |blobs| == |ends|
    requires forall k :: 0 <= k < |blobs| ==> blobs[k].score == Area(UnsortedRows(), ends[k])
    ensures !SortedByScore(blobs, down)
  {
    UnsortedPoints();
    hide UnsortedRows, UnsortedRuns, ReportedEnds, Reports, Area;
    UnsortedReports(0);
    UnsortedReports(1);
    UnsortedReports(2);
    var rows := UnsortedRows();
    var i := PlaceOf(rows, ends, 1, 2, Pixel(0, 0));
    var j := PlaceOf(rows, ends, 1, 2, Pixel(0, 2));
    var k := PlaceOf(rows, ends, 1, 2, Pixel(0, 4));
    PlacesFollow(rows, ends, 1, 2, i, j);
    PlacesFollow(rows, ends, 1, 2, j, k);
    DownThenUp(blobs, down, i, j, k);
  }

  lemma DownThenUp(blobs: seq<Blob>, down: bool, i: nat, j: nat, k: nat)
    requires i < j < k < |blobs| && blobs[i].score == 2 && blobs[j].score == 1 && blobs[k].score == 2
    ensures !SortedByScore(blobs, down)
  {
    assert !Ordered(down, blobs[i].score, blobs[j].score) || !Ordered(down, blobs[j].score, blobs[k].score);
  }

  ghost predicate InBox(s: set<Pixel>, x0: int, x1: int, y0: int, y1: int) {
    forall p :: p in s ==> x0 <= p.x <= x1 && y0 <= p.y <= y1
  }

  /** A weighted sum of values between lo and hi. */
  ghost predicate Within(lo: int, hi: int, weight: int, moment: int) {
    lo * weight <= moment <= hi * weight
  }

  lemma WithinAdd(lo: int, hi: int, w1: int, m1: int, w2: int, m2: int)
    requires Within(lo, hi, w1, m1) && Within(lo, hi, w2, m2)
    ensures Within(lo, hi, w1 + w2, m1 + m2)
  {
    assert lo * (w1 + w2) == lo * w1 + lo * w2 && hi * (w1 + w2) == hi * w1 + hi * w2;
  }

  lemma WithinOne(lo: int, hi: int, v: int, c: int)
    requires v >= 0 && lo <= c <= hi
    ensures Within(lo, hi, v, v * c)
  {
    assert v * (c - lo) >= 0 && v * (hi - c) >= 0;
  }

  lemma {:induction false} SumInBox(rows: seq<seq<byte>>, s: set<Pixel>, x0: int, x1: int, y0: int, y1: int)
    requires AllLit(rows, s) && InBox(s, x0, x1, y0, y1)
    ensures var t := PixelSum(rows, s);
      && t.sum >= 0 && (s != {} ==> t.sum > 0)
      && Within(x0, x1, t.sum, t.sumX) && Within(y0, y1, t.sum, t.sumY)
    decreases |s|
  {
    if s != {} {
      hide PixelSum, Within;
      var p :| p in s;
      var v := rows[p.y][p.x];
      PixelSumRemove(rows, s, p);
      SumInBox(rows, s - {p}, x0, x1, y0, y1);
      var t := PixelSum(rows, s - {p});
      WithinOne(x0, x1, v, p.x);
      WithinOne(y0, y1, v, p.y);
      WithinAdd(x0, x1, t.sum, t.sumX, v, v * p.x);
      WithinAdd(y0, y1, t.sum, t.sumY, v, v * p.y);
    }
  }

  lemma ProductLess(a: real, b: real, c: real)
    requires a < b && c > 0.0
    ensures a * c < b * c
  {
    assert (b - a) * c > 0.0;
  }

  lemma QuotientInRange(a: int, b: int, lo: int, hi: int)
    requires b > 0 && Within(lo, hi, b, a)
    ensures Quotient(a, b).Finite? && lo as real <= Quotient(a, b).v <= hi as real
  {
    RealProduct(lo, b);
    RealProduct(hi, b);
    RatioBetween(a as real, b as real, lo as real, hi as real);
  }

  lemma RealProduct(x: int, y: int)
    ensures x as real * y as real == (x * y) as real
  {
  }

  lemma RatioBetween(a: real, b: real, lo: real, hi: real)
    requires b > 0.0 && lo * b <= a <= hi * b
    ensures lo <= a / b <= hi
  {
    var q := a / b;
    assert q * b == a;
    if q < lo { ProductLess(q, lo, b); }
    if q > hi { ProductLess(hi, q, b); }
  }

  /** The centroid of a reported blob is a finite point inside any box that holds its component. */
  lemma CentroidInBox(rows: seq<seq<byte>>, q: Pixel, x0: int, x1: int, y0: int, y1: int)
    requires Lit(rows, q) && InBox(ComponentOf(rows, q), x0, x1, y0, y1)
    ensures var t := PixelSum(rows, ComponentOf(rows, q));
      && Quotient(t.sumX, t.sum).Finite? && x0 as real <= Quotient(t.sumX, t.sum).v <= x1 as real
      && Quotient(t.sumY, t.sum).Finite? && y0 as real <= Quotient(t.sumY, t.sum).v <= y1 as real
  {
    NearJoins(rows, q, q);
    assert q in ComponentOf(rows, q);
    SumInBox(rows, ComponentOf(rows, q), x0, x1, y0, y1);
    var t := PixelSum(rows, ComponentOf(rows, q));
    QuotientInRange(t.sumX, t.sum, x0, x1);
    QuotientInRange(t.sumY, t.sum, y0, y1);
  }

  lemma EndIsLit(rows: seq<seq<byte>>, ends: seq<Pixel>, minPts: int, maxPts: int, k: nat)
    requires ReportedEnds(rows, ends, minPts, maxPts) && k < |ends|
    ensures Lit(rows, ends[k])
  {
    assert ends[k] in ends && Reports(rows, ends[k], minPts, maxPts);
  }

  /** One frame: scan the image, then report the blobs. The blobs are those of the components within the limits, in
      reading order of the pixels where the components end, as many as there is room for. */
  method FindBlobs(f: Finder, img: Image, numBlobs: nat, blobs: array<Blob>, minPts: int, maxPts: int)
    returns (count: nat, ghost flushed: seq<Totals>, ghost at: map<Pixel, int>, ghost ends: seq<Pixel>)
    requires f.Valid() && f.history == [] && img.Sized() && img.bits != null && img.ratio == 1.0
    requires img.w < 0x8000_0000 && img.h < 0x8000_0000 && f.current.Length >= img.w / 2 + 1 && numBlobs <= blobs.Length
    modifies f, f.current, f.next, f.live, img.bits, blobs, img`overran
    ensures f.Valid() && f.history == []
    ensures EntriesAreBlobs(SeenCells(old(img.bits[..]), img), flushed, at)
    ensures ReportedEnds(SeenCells(old(img.bits[..]), img), ends, minPts, maxPts)
    ensures count == if |ends| > numBlobs then numBlobs else |ends|
    ensures var rows := SeenCells(old(img.bits[..]), img);
      forall k :: 0 <= k < count ==>
        blobs[k] == BlobOf(PixelSum(rows, ComponentOf(rows, ends[k])), img.w, img.h, img.ratio)
    ensures var rows := SeenCells(old(img.bits[..]), img);
      forall k :: 0 <= k < count ==> BlobOfComponent(blobs[k], rows, ComponentOf(rows, ends[k]), img.w, img.h)
    ensures forall down :: SortedByScore(blobs[..count], down) <==>
      MonotoneInArea(SeenCells(old(img.bits[..]), img), minPts, maxPts, count, down)
    ensures img.overran <==>
      old(img.overran) || (img.bits.Length == Base(img.h, img.w) && !MarksInside(old(img.bits[..]), img.w, img.h))
  {
    hide Finder.Valid, AreRuns, Image.Sized, MarksInside, MarkedCells, SeenCells, Selected, EntriesAreBlobs;
    hide SortedByScore, MonotoneInArea, Chosen, Balances, BlobOfComponent, ComponentOf, Joins;
    hide InLineOrder, NumberedByEnd, EntriesByEnd, LinesFit, Base, OneEntryPerComponent, ReportedEnds, PixelSum, Picked;
    ghost var cells := img.bits[..];
    SizedFacts(img);
    ghost var rows := SeenCells(cells, img);
    ToStripes(f, img);
    ghost var h := f.history;
    ghost var comp: seq<int>;
    RunsInLineOrder(rows, h);
    var _, n, fl, cm := f.StripesToBlobs(numBlobs, blobs, minPts, maxPts, img);
    count, flushed, comp := n, fl, cm;
    CompSize(h, flushed, comp);
    EntriesOfFrame(rows, img.w, h, flushed, comp);
    at := EntryMap(rows, h, comp);
    EntriesInOrder(rows, img.w, h, flushed, comp);
    SelectedEnds(rows, flushed, EndPixels(h, comp, |flushed|), minPts, maxPts);
    ends := Picked(flushed, EndPixels(h, comp, |flushed|), minPts, maxPts);
    forall k | 0 <= k < count
      ensures BlobOfComponent(blobs[k], rows, ComponentOf(rows, ends[k]), img.w, img.h)
    {
      EndIsLit(rows, ends, minPts, maxPts, k);
      ComponentHasBlob(rows, ends[k], img.w, img.h);
    }
    forall down ensures SortedByScore(blobs[..count], down) <==> MonotoneInArea(rows, minPts, maxPts, count, down) {
      SortedIff(rows, ends, minPts, maxPts, blobs[..count], down);
    }
  }
}

/** From pixels to blobs: the entries the finder reports for a scanned picture are its 8-connected
    components, each with the exact pixel count and weighted coordinate sums. */
module Pixels {
  import opened Words
  import opened StripeGraph
  import opened Bitmap
  import opened BlobFinder
  import opened Scan

  datatype Pixel = Pixel(x: int, y: int)

  ghost predicate Lit(rows: seq<seq<byte>>, p: Pixel) {
    0 <= p.y < |rows| && 0 <= p.x < |rows[p.y]| && rows[p.y][p.x] != 0
  }

  /** Equal or one of the eight neighbours. */
  ghost predicate Near(p: Pixel, q: Pixel) {
    -1 <= p.x - q.x <= 1 && -1 <= p.y - q.y <= 1
  }

  ghost predicate Trail(rows: seq<seq<byte>>, t: seq<Pixel>) {
    && |t| > 0
    && (forall k :: 0 <= k < |t| ==> Lit(rows, t[k]))
    && (forall k :: 0 < k < |t| ==> Near(t[k - 1], t[k]))
  }

  ghost predicate TrailFromTo(rows: seq<seq<byte>>, t: seq<Pixel>, p: Pixel, q: Pixel) {
    Trail(rows, t) && t[0] == p && t[|t| - 1] == q
  }

  /** p and q lie in the same 8-connected component of lit pixels. */
  ghost predicate Joins(rows: seq<seq<byte>>, p: Pixel, q: Pixel) {
    exists t :: TrailFromTo(rows, t, p, q)
  }

  lemma NearJoins(rows: seq<seq<byte>>, p: Pixel, q: Pixel)
    requires Lit(rows, p) && Lit(rows, q) && Near(p, q)
    ensures Joins(rows, p, q)
  {
    assert TrailFromTo(rows, [p, q], p, q);
  }

  lemma JoinsTrans(rows: seq<seq<byte>>, p: Pixel, q: Pixel, r: Pixel)
    requires Joins(rows, p, q) && Joins(rows, q, r)
    ensures Joins(rows, p, r)
  {
    var s :| TrailFromTo(rows, s, p, q);
    var t :| TrailFromTo(rows, t, q, r);
    var u := s + t[1..];
    forall k | 0 < k < |u| ensures Near(u[k - 1], u[k]) {
      if k >= |s| { assert u[k] == t[k - |s| + 1] && u[k - 1] == t[k - |s|]; }
    }
    assert TrailFromTo(rows, u, p, r);
  }

  // ---------- pixels of one run ----------

  ghost predicate InRun(t: Stripe, p: Pixel) {
    Covers(t, p.x, p.y)
  }

  lemma RunLit(rows: seq<seq<byte>>, h: seq<Stripe>, i: int, p: Pixel)
    requires RunsInOrder(rows, h) && 0 <= i < |h| && InRun(h[i], p)
    ensures Lit(rows, p)
  {
  }

  lemma {:induction false} RunJoins(rows: seq<seq<byte>>, h: seq<Stripe>, i: int, p: Pixel, q: Pixel)
    requires RunsInOrder(rows, h) && 0 <= i < |h| && InRun(h[i], p) && InRun(h[i], q)
    ensures Joins(rows, p, q)
    decreases if p.x < q.x then q.x - p.x else p.x - q.x
  {
    RunLit(rows, h, i, p);
    if p.x == q.x {
      NearJoins(rows, p, q);
    } else {
      var r := Pixel(if p.x < q.x then p.x + 1 else p.x - 1, p.y);
      RunLit(rows, h, i, r);
      NearJoins(rows, p, r);
      RunJoins(rows, h, i, r, q);
      JoinsTrans(rows, p, r, q);
    }
  }

  lemma OneRunPerPixel(rows: seq<seq<byte>>, h: seq<Stripe>, i: int, j: int, p: Pixel)
    requires RunsInOrder(rows, h) && 0 <= i < |h| && 0 <= j < |h| && InRun(h[i], p) && InRun(h[j], p)
    ensures i == j
  {
  }

  // ---------- neighbouring runs ----------

  ghost predicate SmallPicture(rows: seq<seq<byte>>, w: int) {
    Picture(rows, w) && w < 0x8000_0000 && |rows| < 0x8000_0000
  }

  /** On a scanned picture the finder's edges join exactly the touching runs of neighbouring rows. */
  lemma EdgesAreContacts(rows: seq<seq<byte>>, w: int, h: seq<Stripe>, i: int, j: int)
    requires SmallPicture(rows, w) && RunsInOrder(rows, h) && 0 <= i < |h| && 0 <= j < |h|
    ensures Above(h, i, j) <==> h[j].vline == h[i].vline + 1 && Touch(h[j], h[i].hstart, h[i].hstop)
  {
    assert InLineOrder(h);
    AboveInLineOrder(h, i, j);
    assert Describes(h[i], rows[h[i].vline]) && Describes(h[j], rows[h[j].vline]);
    ContactTestIsTouch(h[j], h[i]);
  }

  lemma EdgeJoins(rows: seq<seq<byte>>, w: int, h: seq<Stripe>, i: int, j: int, p: Pixel, q: Pixel)
    requires SmallPicture(rows, w) && RunsInOrder(rows, h) && Link(h, i, j)
    requires InRun(h[i], p) && InRun(h[j], q)
    ensures Joins(rows, p, q)
  {
    EdgesAreContacts(rows, w, h, i, j);
    EdgesAreContacts(rows, w, h, j, i);
    var a, b := h[i], h[j];
    assert Describes(a, rows[a.vline]) && Describes(b, rows[b.vline]);
    var u := if a.hstart < b.hstart then (if b.hstart <= a.hstop then b.hstart else a.hstop) else a.hstart;
    var v := if u < b.hstart then b.hstart else if u > b.hstop then b.hstop else u;
    var p', q' := Pixel(u, a.vline), Pixel(v, b.vline);
    RunLit(rows, h, i, p');
    RunLit(rows, h, j, q');
    RunJoins(rows, h, i, p, p');
    NearJoins(rows, p', q');
    RunJoins(rows, h, j, q', q);
    JoinsTrans(rows, p, p', q');
    JoinsTrans(rows, p, q', q);
  }

  lemma {:induction false} PathJoins(rows: seq<seq<byte>>, w: int, h: seq<Stripe>, path: seq<int>, p: Pixel, q: Pixel)
    requires SmallPicture(rows, w) && RunsInOrder(rows, h) && Path(h, path)
    requires InRun(h[path[0]], p) && InRun(h[path[|path| - 1]], q)
    ensures Joins(rows, p, q)
  {
    var n := |path| - 1;
    if n == 0 {
      RunJoins(rows, h, path[0], p, q);
    } else {
      var i := path[n - 1];
      var r := Pixel(h[i].hstart, h[i].vline);
      assert Describes(h[i], rows[h[i].vline]);
      PathJoins(rows, w, h, path[..n], p, r);
      assert Link(h, path[n - 1], path[n]);
      EdgeJoins(rows, w, h, i, path[n], r, q);
      JoinsTrans(rows, p, r, q);
    }
  }

  /** Neighbouring lit pixels lie in one run or in two linked ones. */
  lemma NearLinks(rows: seq<seq<byte>>, w: int, h: seq<Stripe>, i: int, j: int, p: Pixel, q: Pixel)
    requires SmallPicture(rows, w) && RunsInOrder(rows, h) && 0 <= i < |h| && 0 <= j < |h|
    requires InRun(h[i], p) && InRun(h[j], q) && Near(p, q)
    ensures Connected(h, i, j)
  {
    if p.y == q.y {
      assert i == j;
      ConnectedRefl(h, i);
    } else {
      EdgesAreContacts(rows, w, h, i, j);
      EdgesAreContacts(rows, w, h, j, i);
      LinkConnects(h, i, j);
    }
  }

  lemma {:induction false} TrailConnects(rows: seq<seq<byte>>, w: int, h: seq<Stripe>, t: seq<Pixel>, i: int, j: int)
    requires SmallPicture(rows, w) && AreRuns(rows, h) && Trail(rows, t)
    requires 0 <= i < |h| && 0 <= j < |h| && InRun(h[i], t[0]) && InRun(h[j], t[|t| - 1])
    ensures Connected(h, i, j)
  {
    hide Describes, Connected;
    var n := |t| - 1;
    if n == 0 {
      OneRunPerPixel(rows, h, i, j, t[0]);
      ConnectedRefl(h, i);
    } else {
      assert Lit(rows, t[n - 1]) && Covered(h, t[n - 1].x, t[n - 1].y);
      var k :| 0 <= k < |h| && Covers(h[k], t[n - 1].x, t[n - 1].y);
      TrailConnects(rows, w, h, t[..n], i, k);
      NearLinks(rows, w, h, k, j, t[n - 1], t[n]);
      ConnectedTrans(h, i, k, j);
    }
  }

  /** Two pixels are 8-connected exactly when their runs are connected in the stripe graph. */
  lemma PixelsAndRunsAgree(rows: seq<seq<byte>>, w: int, h: seq<Stripe>, i: int, j: int, p: Pixel, q: Pixel)
    requires SmallPicture(rows, w) && AreRuns(rows, h)
    requires 0 <= i < |h| && 0 <= j < |h| && InRun(h[i], p) && InRun(h[j], q)
    ensures Joins(rows, p, q) <==> Connected(h, i, j)
  {
    if Joins(rows, p, q) {
      var t :| TrailFromTo(rows, t, p, q);
      TrailConnects(rows, w, h, t, i, j);
    }
    if Connected(h, i, j) {
      var path :| PathFromTo(h, path, i, j);
      PathJoins(rows, w, h, path, p, q);
    }
  }
}

/** Stripes (horizontal pixel runs) in the order they reach the blob finder, and the graph whose
    connected components the finder is meant to compute. */
module StripeGraph {
  import opened Words

  datatype Stripe = Stripe(vline: uint32, hstart: uint32, hstop: uint32, sumX: nat, sum: nat, points: nat)

  /** Unsigned 32-bit increment: wraps. */
  function Inc(u: uint32): uint32 {
    if u == 0xFFFF_FFFF then 0 else u + 1
  }

  /** The value a C `(int)` cast gives an unsigned coordinate. */
  function ToInt(u: uint32): int {
    if u < 0x8000_0000 then u else u - 0x1_0000_0000
  }

  /** The contact test exactly as it is computed: a signed comparison, then an unsigned one. */
  predicate StripeInRange(s: Stripe, x1: uint32, x2: uint32) {
    ToInt(s.hstart) - 1 <= ToInt(x2) && Inc(s.hstop) >= x1
  }

  /** The intended meaning: the two runs share a column or touch diagonally. */
  predicate Touch(s: Stripe, x1: int, x2: int) {
    s.hstart - 1 <= x2 && x1 <= s.hstop + 1
  }

  predicate SmallColumns(s: Stripe) {
    s.hstart < 0x8000_0000 && s.hstop < 0x8000_0000
  }

  lemma ContactTestIsTouch(s: Stripe, t: Stripe)
    requires SmallColumns(s) && SmallColumns(t)
    ensures StripeInRange(s, t.hstart, t.hstop) == Touch(s, t.hstart, t.hstop)
  {
  }

  // ---------- lines and adjacency ----------

  /** First stripe of the run of stripes on one line that stripe k belongs to. */
  ghost function LineStart(h: seq<Stripe>, k: nat): (r: nat)
    requires k < |h|
    ensures r <= k && forall i :: r <= i <= k ==> h[i].vline == h[k].vline
    ensures r > 0 ==> h[r - 1].vline != h[k].vline
  {
    if k == 0 || h[k - 1].vline != h[k].vline then k else LineStart(h, k - 1)
  }

  /** Start of the line before the one that starts at b, or b when that is not the line just above. */
  ghost function PrevLineStart(h: seq<Stripe>, b: nat): (a: nat)
    requires b < |h|
    ensures a <= b
  {
    if b > 0 && h[b].vline == Inc(h[b - 1].vline) then LineStart(h, b - 1) else b
  }

  /** Stripe i lies on the line that was scanned just before the line of stripe j, that line is the one
      above, and the two stripes are in contact. */
  ghost predicate Above(h: seq<Stripe>, i: int, j: int) {
    && 0 <= i < j < |h|
    && (var b := LineStart(h, j); PrevLineStart(h, b) <= i < b)
    && StripeInRange(h[j], h[i].hstart, h[i].hstop)
  }

  ghost predicate Link(h: seq<Stripe>, i: int, j: int) {
    Above(h, i, j) || Above(h, j, i)
  }

  lemma {:induction false} LineStartPrefix(h: seq<Stripe>, s: Stripe, k: nat)
    requires k < |h|
    ensures LineStart(h + [s], k) == LineStart(h, k)
  {
    if k > 0 && h[k - 1].vline == h[k].vline {
      LineStartPrefix(h, s, k - 1);
    }
  }

  /** Appending a stripe does not change the edges among the old ones. */
  lemma AbovePrefix(h: seq<Stripe>, s: Stripe, i: int, j: int)
    requires j < |h|
    ensures Above(h + [s], i, j) == Above(h, i, j)
  {
    if 0 <= i < j {
      LineStartPrefix(h, s, j);
      var b := LineStart(h, j);
      if b > 0 { LineStartPrefix(h, s, b - 1); }
    }
  }

  /** For stripes in line order the graph is the plain one: neighbouring lines and contact. */
  ghost predicate InLineOrder(h: seq<Stripe>) {
    forall i, j :: 0 <= i < j < |h| ==> h[i].vline <= h[j].vline
  }

  lemma AboveInLineOrder(h: seq<Stripe>, i: int, j: int)
    requires InLineOrder(h)
    requires 0 <= i < |h| && 0 <= j < |h|
    ensures Above(h, i, j) <==> h[j].vline == h[i].vline + 1 && StripeInRange(h[j], h[i].hstart, h[i].hstop)
  {
    var b := LineStart(h, j);
    if i < j {
      if h[j].vline == h[i].vline + 1 {
        assert i < b;
        assert h[i].vline <= h[b - 1].vline <= h[j].vline;
        var a := LineStart(h, b - 1);
        assert a > 0 ==> h[a - 1].vline < h[b - 1].vline;
      }
      if Above(h, i, j) {
        assert h[i].vline == h[b - 1].vline;
        assert h[b - 1].vline <= h[b].vline;
      }
    } else if i > j {
      assert h[j].vline <= h[i].vline;
    }
  }

  /** No line holds more than n stripes: each stripe has fewer than n before it on its line. */
  ghost predicate LinesFit(h: seq<Stripe>, n: nat) {
    forall k :: 0 <= k < |h| ==> k - LineStart(h, k) < n
  }

  /** Runs to the left of column c; on a line from left to right, with at least one column between them. */
  ghost predicate Separate(h: seq<Stripe>, c: int) {
    forall k :: 0 <= k < |h| ==>
      && h[k].hstart <= h[k].hstop < c
      && (k > 0 && h[k - 1].vline == h[k].vline ==> h[k - 1].hstop + 1 < h[k].hstart)
  }

  lemma {:induction false} SeparateStart(h: seq<Stripe>, c: int, k: nat)
    requires Separate(h, c) && k < |h|
    ensures h[k].hstart >= 2 * (k - LineStart(h, k))
  {
    if k > LineStart(h, k) {
      SeparateStart(h, c, k - 1);
    }
  }

  /** Every other column at most. */
  lemma SeparateFits(h: seq<Stripe>, c: int, n: nat)
    requires Separate(h, c) && (c + 1) / 2 <= n
    ensures LinesFit(h, n)
  {
    forall k | 0 <= k < |h| ensures k - LineStart(h, k) < n {
      SeparateStart(h, c, k);
    }
  }

  // ---------- connectivity ----------

  ghost predicate Path(h: seq<Stripe>, p: seq<int>) {
    && |p| > 0
    && (forall k :: 0 <= k < |p| ==> 0 <= p[k] < |h|)
    && (forall k :: 0 < k < |p| ==> Link(h, p[k - 1], p[k]))
  }

  ghost predicate PathFromTo(h: seq<Stripe>, p: seq<int>, i: int, j: int) {
    Path(h, p) && p[0] == i && p[|p| - 1] == j
  }

  /** Stripes i and j lie in the same connected component. */
  ghost predicate Connected(h: seq<Stripe>, i: int, j: int) {
    exists p :: PathFromTo(h, p, i, j)
  }

  lemma ConnectedRefl(h: seq<Stripe>, i: int)
    requires 0 <= i < |h|
    ensures Connected(h, i, i)
  {
    assert PathFromTo(h, [i], i, i);
  }

  lemma LinkConnects(h: seq<Stripe>, i: int, j: int)
    requires Link(h, i, j)
    ensures Connected(h, i, j)
  {
    assert PathFromTo(h, [i, j], i, j);
  }

  lemma ConnectedTrans(h: seq<Stripe>, i: int, j: int, k: int)
    requires Connected(h, i, j) && Connected(h, j, k)
    ensures Connected(h, i, k)
  {
    var p :| PathFromTo(h, p, i, j);
    var q :| PathFromTo(h, q, j, k);
    var r := p + q[1..];
    forall m | 0 < m < |r| ensures Link(h, r[m - 1], r[m]) {
      if m >= |p| { assert r[m] == q[m - |p| + 1] && r[m - 1] == q[m - |p|]; }
    }
    assert PathFromTo(h, r, i, k);
  }

  lemma ConnectedSym(h: seq<Stripe>, i: int, j: int)
    requires Connected(h, i, j)
    ensures Connected(h, j, i)
  {
    var p :| PathFromTo(h, p, i, j);
    var n := |p|;
    var r := seq(n, k requires 0 <= k < n => p[n - 1 - k]);
    forall m | 0 < m < n ensures Link(h, r[m - 1], r[m]) {
      assert Link(h, p[n - 1 - m], p[n - m]);
    }
    assert PathFromTo(h, r, j, i);
  }

  lemma ConnectedPrefix(h: seq<Stripe>, s: Stripe, i: int, j: int)
    requires Connected(h, i, j)
    ensures Connected(h + [s], i, j)
  {
    var p :| PathFromTo(h, p, i, j);
    forall k | 0 < k < |p| ensures Link(h + [s], p[k - 1], p[k]) {
      assert Link(h, p[k - 1], p[k]);
      AbovePrefix(h, s, p[k - 1], p[k]);
      AbovePrefix(h, s, p[k], p[k - 1]);
    }
    assert PathFromTo(h + [s], p, i, j);
  }

  // ---------- labellings ----------

  /** Equal labels only inside a component. */
  ghost predicate Sound<L>(h: seq<Stripe>, tag: seq<L>) {
    |tag| <= |h| && forall i, j :: 0 <= i < |tag| && 0 <= j < |tag| && tag[i] == tag[j] ==> Connected(h, i, j)
  }

  /** Equal labels along every edge. */
  ghost predicate Closed<L>(h: seq<Stripe>, tag: seq<L>) {
    |tag| <= |h| && forall i, j :: 0 <= i < |tag| && 0 <= j < |tag| && Above(h, i, j) ==> tag[i] == tag[j]
  }

  lemma {:induction false} ClosedAlongPath<L>(h: seq<Stripe>, tag: seq<L>, p: seq<int>)
    requires |tag| == |h| && Closed(h, tag) && Path(h, p)
    ensures tag[p[0]] == tag[p[|p| - 1]]
  {
    if |p| > 1 {
      var q := p[..|p| - 1];
      ClosedAlongPath(h, tag, q);
      assert Link(h, p[|p| - 2], p[|p| - 1]);
    }
  }

  /** A sound and closed labelling names exactly the connected components. */
  lemma LabelsAreComponents<L>(h: seq<Stripe>, tag: seq<L>, i: int, j: int)
    requires |tag| == |h| && Sound(h, tag) && Closed(h, tag)
    requires 0 <= i < |h| && 0 <= j < |h|
    ensures tag[i] == tag[j] <==> Connected(h, i, j)
  {
    if Connected(h, i, j) {
      var p :| PathFromTo(h, p, i, j);
      ClosedAlongPath(h, tag, p);
    }
  }
}

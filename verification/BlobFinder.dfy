/** One-pass connected-component labelling of stripes: two line buffers of ranges that share
    accumulator records, records merged and freed on contact, finished records moved to a list. */
module BlobFinder {
  import opened Words
  import opened StripeGraph
  import opened Bitmap

  // ---------- what a record accumulates ----------

  datatype Totals = Totals(sumX: int, sumY: int, sum: int, points: int)

  const ZERO := Totals(0, 0, 0, 0)

  function Plus(a: Totals, b: Totals): Totals {
    Totals(a.sumX + b.sumX, a.sumY + b.sumY, a.sum + b.sum, a.points + b.points)
  }

  /** A stripe's share: pixel weights times absolute coordinates, weights, pixel count. */
  function Mass(s: Stripe): Totals {
    Totals(s.sum * s.hstart + s.sumX, s.sum * s.vline, s.sum, s.points)
  }

  /** Totals over the stripes tagged t. */
  ghost function Sum<L>(h: seq<Stripe>, tag: seq<L>, t: L): Totals
    requires |tag| <= |h|
  {
    if |tag| == 0 then ZERO
    else
      var n := |tag| - 1;
      var rest := Sum(h, tag[..n], t);
      if tag[n] == t then Plus(rest, Mass(h[n])) else rest
  }

  ghost function Redirected<L>(tag: seq<L>, from: L, to: L): (r: seq<L>)
    ensures |r| == |tag| && forall k :: 0 <= k < |tag| ==> r[k] == if tag[k] == from then to else tag[k]
  {
    seq(|tag|, k requires 0 <= k < |tag| => if tag[k] == from then to else tag[k])
  }

  lemma SumStep<L>(h: seq<Stripe>, tag: seq<L>, t: L)
    requires 0 < |tag| <= |h|
    ensures var n := |tag| - 1; var rest := Sum(h, tag[..n], t);
      Sum(h, tag, t) == if tag[n] == t then Plus(rest, Mass(h[n])) else rest
  {
  }

  lemma {:induction false} SumRedirected<L>(h: seq<Stripe>, tag: seq<L>, from: L, to: L, t: L)
    requires |tag| <= |h| && from != to
    ensures Sum(h, Redirected(tag, from, to), t) ==
            if t == to then Plus(Sum(h, tag, to), Sum(h, tag, from))
            else if t == from then ZERO
            else Sum(h, tag, t)
  {
    var after := Redirected(tag, from, to);
    if |tag| > 0 {
      var n := |tag| - 1;
      hide Redirected, Mass;
      SumRedirected(h, tag[..n], from, to, t);
      assert after[..n] == Redirected(tag[..n], from, to);
      SumStep(h, tag, to);
      SumStep(h, tag, from);
      SumStep(h, tag, t);
      SumStep(h, after, t);
      hide Sum;
      assert Sum(h, after, t) == if t == to then Plus(Sum(h, tag, to), Sum(h, tag, from))
                                 else if t == from then ZERO
                                 else Sum(h, tag, t);
    }
  }

  lemma SumsRedirected<L>(h: seq<Stripe>, tag: seq<L>, from: L, to: L, all: set<L>)
    requires |tag| <= |h| && from != to
    ensures forall t :: t in all ==>
      (Sum(h, Redirected(tag, from, to), t) ==
       if t == to then Plus(Sum(h, tag, to), Sum(h, tag, from))
       else if t == from then ZERO
       else Sum(h, tag, t))
  {
    forall t | t in all {
      SumRedirected(h, tag, from, to, t);
    }
  }

  lemma {:induction false} SumPrefix<L>(h: seq<Stripe>, s: Stripe, tag: seq<L>, t: L)
    requires |tag| <= |h|
    ensures Sum(h + [s], tag, t) == Sum(h, tag, t)
  {
    if |tag| > 0 {
      SumPrefix(h, s, tag[..|tag| - 1], t);
    }
  }

  lemma SumAppend<L>(h: seq<Stripe>, s: Stripe, tag: seq<L>, u: L, t: L)
    requires |tag| == |h|
    ensures Sum(h + [s], tag + [u], t) == if u == t then Plus(Sum(h, tag, t), Mass(s)) else Sum(h, tag, t)
  {
    SumPrefix(h, s, tag, t);
    assert (tag + [u])[..|tag|] == tag;
  }

  lemma {:induction false} SumAbsent<L>(h: seq<Stripe>, tag: seq<L>, t: L)
    requires |tag| <= |h| && t !in tag
    ensures Sum(h, tag, t) == ZERO
  {
    if |tag| > 0 {
      SumAbsent(h, tag[..|tag| - 1], t);
    }
  }

  /** The live records are exactly the owners. */
  ghost predicate Owners<L>(owner: seq<L>, live: set<L>) {
    && (forall k :: 0 <= k < |owner| ==> owner[k] in live)
    && (forall r :: r in live ==> r in owner)
  }

  lemma OwnersRedirected<L>(owner: seq<L>, live: set<L>, from: L, to: L)
    requires Owners(owner, live) && from in live && to in live && from != to
    ensures Owners(Redirected(owner, from, to), live - {from})
  {
    var after := Redirected(owner, from, to);
    forall r | r in live - {from} ensures r in after {
      var m :| 0 <= m < |owner| && owner[m] == r;
      assert after[m] == r;
    }
  }

  lemma OwnersAppended<L>(owner: seq<L>, live: set<L>, u: L)
    requires Owners(owner, live)
    ensures Owners(owner + [u], live + {u})
  {
    forall r | r in live + {u} ensures r in owner + [u] {
      if r != u {
        var m :| 0 <= m < |owner| && owner[m] == r;
        assert (owner + [u])[m] == r;
      } else {
        assert (owner + [u])[|owner|] == u;
      }
    }
  }

  lemma SumsAppended<L>(h: seq<Stripe>, s: Stripe, tag: seq<L>, u: L, all: set<L>)
    requires |tag| == |h|
    ensures forall t :: t in all ==>
      (Sum(h + [s], tag + [u], t) == if u == t then Plus(Sum(h, tag, t), Mass(s)) else Sum(h, tag, t))
  {
    forall t | t in all {
      SumAppend(h, s, tag, u, t);
    }
  }

  /** x is somewhere in s from index lo on. */
  ghost predicate Occurs<L>(s: seq<L>, lo: int, x: L)
    requires 0 <= lo <= |s|
  {
    exists m :: lo <= m < |s| && s[m] == x
  }

  lemma OccursAppended<L>(s: seq<L>, u: L, lo: nat)
    requires lo <= |s|
    ensures forall k :: 0 <= k < |s| ==> (Occurs(s + [u], lo, s[k]) <==> Occurs(s, lo, s[k]) || s[k] == u)
    ensures Occurs(s + [u], lo, u)
  {
    assert (s + [u])[|s|] == u;
    forall k | 0 <= k < |s| && Occurs(s, lo, s[k]) ensures Occurs(s + [u], lo, s[k]) {
      var m :| lo <= m < |s| && s[m] == s[k];
      assert (s + [u])[m] == s[k];
    }
  }

  /** Every stripe tagged t is connected to stripe n. */
  ghost predicate Joined<L>(h: seq<Stripe>, tag: seq<L>, t: L, n: int) {
    |tag| <= |h| && forall x :: 0 <= x < |tag| && tag[x] == t ==> Connected(h, x, n)
  }

  lemma JoinedByContact<L>(h: seq<Stripe>, tag: seq<L>, k: int, n: int)
    requires Sound(h, tag) && 0 <= k < |tag| && Above(h, k, n)
    ensures Joined(h, tag, tag[k], n)
  {
    LinkConnects(h, k, n);
    forall x | 0 <= x < |tag| && tag[x] == tag[k] ensures Connected(h, x, n) {
      ConnectedTrans(h, x, k, n);
    }
  }

  lemma SoundRedirected<L>(h: seq<Stripe>, tag: seq<L>, from: L, to: L, n: int)
    requires Sound(h, tag) && Joined(h, tag, from, n) && Joined(h, tag, to, n)
    ensures Sound(h, Redirected(tag, from, to)) && Joined(h, Redirected(tag, from, to), to, n)
  {
    var after := Redirected(tag, from, to);
    forall i, j | 0 <= i < |after| && 0 <= j < |after| && after[i] == after[j] ensures Connected(h, i, j) {
      if tag[i] != tag[j] {
        assert Connected(h, i, n) && Connected(h, j, n);
        ConnectedSym(h, j, n);
        ConnectedTrans(h, i, n, j);
      }
    }
  }

  lemma SoundAppended<L>(h: seq<Stripe>, tag: seq<L>, t: L)
    requires |h| == |tag| + 1 && Sound(h, tag) && Joined(h, tag, t, |tag|)
    ensures Sound(h, tag + [t])
  {
    var n := |tag|;
    var after := tag + [t];
    forall i, j | 0 <= i <= n && 0 <= j <= n && after[i] == after[j] ensures Connected(h, i, j) {
      if i == n && j == n {
        ConnectedRefl(h, n);
      } else if i == n {
        ConnectedSym(h, j, n);
      }
    }
  }

  lemma SoundPrefix<L>(h: seq<Stripe>, s: Stripe, tag: seq<L>)
    requires Sound(h, tag)
    ensures Sound(h + [s], tag)
  {
    forall i, j | 0 <= i < |tag| && 0 <= j < |tag| && tag[i] == tag[j] ensures Connected(h + [s], i, j) {
      ConnectedPrefix(h, s, i, j);
    }
  }

  lemma ClosedAppended<L>(h: seq<Stripe>, s: Stripe, tag: seq<L>, t: L)
    requires |tag| == |h| && Closed(h, tag)
    requires forall k :: 0 <= k < |h| && Above(h + [s], k, |h|) ==> tag[k] == t
    ensures Closed(h + [s], tag + [t])
  {
    forall i, j | 0 <= i < |h| + 1 && 0 <= j < |h| + 1 && Above(h + [s], i, j)
      ensures (tag + [t])[i] == (tag + [t])[j]
    {
      if j < |h| { AbovePrefix(h, s, i, j); }
    }
  }

  /** What the scan over the line above does to the tags: `rng` is the first range in contact with the
      newest stripe (n, at the end of h); every later one in contact is retagged with its tag. */
  ghost function ScanTags<L>(h: seq<Stripe>, tag: seq<L>, a: nat, i: nat): (r: (seq<L>, int))
    requires |h| == |tag| + 1 && a + i <= |tag|
    ensures |r.0| == |tag| && -1 <= r.1 < i
  {
    if i == 0 then (tag, -1)
    else
      var (t, rng) := ScanTags(h, tag, a, i - 1);
      ScanStep(h, t, a, i - 1, rng)
  }

  ghost function ScanStep<L>(h: seq<Stripe>, t: seq<L>, a: nat, i: nat, rng: int): (r: (seq<L>, int))
    requires |h| == |t| + 1 && a + i < |t| && -1 <= rng < i
    ensures |r.0| == |t| && -1 <= r.1 <= i
  {
    if !Above(h, a + i, |t|) then (t, rng)
    else if rng < 0 then (t, i)
    else if t[a + i] == t[a + rng] then (t, rng)
    else (Redirected(t, t[a + i], t[a + rng]), rng)
  }

  /** Every range a..a+i in contact with the newest stripe carries the tag of range rng. */
  ghost predicate Gathered<L>(h: seq<Stripe>, t: seq<L>, a: nat, i: nat, rng: int)
    requires |h| == |t| + 1 && a + i <= |t| && -1 <= rng < i
  {
    forall k :: a <= k < a + i && Above(h, k, |t|) ==> rng >= 0 && t[k] == t[a + rng]
  }

  /** to is at least as coarse as from. */
  ghost predicate Coarser<L>(from: seq<L>, to: seq<L>) {
    |from| == |to| && forall j, k :: 0 <= j < |from| && 0 <= k < |from| && from[j] == from[k] ==> to[j] == to[k]
  }

  lemma ScanStepGathers<L>(h: seq<Stripe>, t: seq<L>, a: nat, i: nat, rng: int)
    requires |h| == |t| + 1 && a + i < |t| && -1 <= rng < i && Gathered(h, t, a, i, rng)
    ensures var (t', rng') := ScanStep(h, t, a, i, rng);
      Gathered(h, t', a, i + 1, rng') && Coarser(t, t')
  {
  }

  lemma ScanStepSound<L>(h: seq<Stripe>, t: seq<L>, a: nat, i: nat, rng: int)
    requires |h| == |t| + 1 && a + i < |t| && -1 <= rng < i
    requires Sound(h, t) && (rng >= 0 ==> Joined(h, t, t[a + rng], |t|))
    ensures var (t', rng') := ScanStep(h, t, a, i, rng);
      Sound(h, t') && (rng' >= 0 ==> Joined(h, t', t'[a + rng'], |t|))
  {
    if Above(h, a + i, |t|) {
      JoinedByContact(h, t, a + i, |t|);
      if rng >= 0 && t[a + i] != t[a + rng] {
        SoundRedirected(h, t, t[a + i], t[a + rng], |t|);
      }
    }
  }

  lemma {:induction false} ScanGathers<L>(h: seq<Stripe>, tag: seq<L>, a: nat, i: nat)
    requires |h| == |tag| + 1 && a + i <= |tag| && Sound(h, tag)
    ensures var (t, rng) := ScanTags(h, tag, a, i);
      && Sound(h, t) && Coarser(tag, t)
      && Gathered(h, t, a, i, rng)
      && (rng >= 0 ==> Joined(h, t, t[a + rng], |tag|))
  {
    hide Sound, Joined, Gathered, Coarser, ScanStep, Redirected;
    if i == 0 {
      NothingGathered(h, tag, a);
    } else {
      ScanGathers(h, tag, a, i - 1);
      var (t, rng) := ScanTags(h, tag, a, i - 1);
      ScanStepGathers(h, t, a, i - 1, rng);
      ScanStepSound(h, t, a, i - 1, rng);
      CoarserTrans(tag, t, ScanTags(h, tag, a, i).0);
    }
  }

  lemma NothingGathered<L>(h: seq<Stripe>, tag: seq<L>, a: nat)
    requires |h| == |tag| + 1 && a <= |tag|
    ensures Gathered(h, tag, a, 0, -1) && Coarser(tag, tag)
  {
  }

  lemma CoarserTrans<L>(r: seq<L>, s: seq<L>, t: seq<L>)
    requires Coarser(r, s) && Coarser(s, t)
    ensures Coarser(r, t)
  {
  }

  // ---------- the window of stripes the two buffers hold ----------

  ghost function Window(h: seq<Stripe>): (w: (nat, nat))
    ensures w.0 <= w.1 <= |h|
  {
    if |h| == 0 then (0, 0)
    else
      var b := LineStart(h, |h| - 1);
      (PrevLineStart(h, b), b)
  }

  lemma LineOfNewest(h: seq<Stripe>, s: Stripe)
    ensures var n := |h|;
      LineStart(h + [s], n) == if n > 0 && h[n - 1].vline == s.vline then LineStart(h, n - 1) else n
  {
    if |h| > 0 {
      LineStartPrefix(h, s, |h| - 1);
    }
  }

  lemma LineBeforeOld(h: seq<Stripe>, s: Stripe, b: nat)
    requires b < |h|
    ensures PrevLineStart(h + [s], b) == PrevLineStart(h, b)
  {
    if b > 0 {
      LineStartPrefix(h, s, b - 1);
    }
  }

  lemma LineBeforeNewest(h: seq<Stripe>, s: Stripe)
    requires |h| > 0
    ensures var n := |h|;
      PrevLineStart(h + [s], n) == if s.vline == Inc(h[n - 1].vline) then LineStart(h, n - 1) else n
  {
    LineStartPrefix(h, s, |h| - 1);
  }

  lemma WindowStep(h: seq<Stripe>, s: Stripe)
    ensures Window(h + [s]) ==
            if |h| == 0 then (0, 0)
            else if s.vline == h[|h| - 1].vline then Window(h)
            else if s.vline == Inc(h[|h| - 1].vline) then (Window(h).1, |h|)
            else (|h|, |h|)
  {
    LineOfNewest(h, s);
    if |h| > 0 {
      LineBeforeNewest(h, s);
      LineBeforeOld(h, s, LineStart(h, |h| - 1));
      hide LineStart, PrevLineStart;
    }
  }

  /** The newest stripe's neighbours among earlier stripes are exactly those of the line above in contact. */
  lemma WindowContact(h: seq<Stripe>, k: nat)
    requires k < |h| - 1
    ensures Above(h, k, |h| - 1) <==>
      Window(h).0 <= k < Window(h).1 && StripeInRange(h[|h| - 1], h[k].hstart, h[k].hstop)
  {
  }

  /** After the scan over the whole line above, tagging the newest stripe with the gathered tag (or a new
      one when nothing was in contact) again names exactly the components. */
  lemma ScanThenTag<L>(h: seq<Stripe>, s: Stripe, tag: seq<L>, u: L)
    requires |tag| == |h| && Sound(h, tag) && Closed(h, tag) && Window(h + [s]).1 <= |h|
    requires var (a, b) := Window(h + [s]); var (t, rng) := ScanTags(h + [s], tag, a, b - a);
      if rng >= 0 then u == t[a + rng] else u !in t
    ensures var (a, b) := Window(h + [s]); var (t, rng) := ScanTags(h + [s], tag, a, b - a);
      Sound(h + [s], t + [u]) && Closed(h + [s], t + [u])
  {
    hide Sound, Closed, Connected, Window, Above, Coarser, ScanTags;
    var h' := h + [s];
    var (a, b) := Window(h');
    var (t, rng) := ScanTags(h', tag, a, b - a);
    SoundPrefix(h, s, tag);
    ScanGathers(h', tag, a, b - a);
    SoundAppended(h', t, u);
    forall k | 0 <= k < |h| && Above(h', k, |h|) ensures t[k] == u {
      WindowContact(h', k);
    }
    ClosedCoarser(h, tag, t);
    ClosedAppended(h, s, t, u);
  }

  lemma ClosedCoarser<L>(h: seq<Stripe>, tag: seq<L>, t: seq<L>)
    requires Closed(h, tag) && Coarser(tag, t)
    ensures Closed(h, t)
  {
  }

  // ---------- the order in which records are listed ----------

  /** The members of s that are not in skip, each once, in order of first appearance. */
  ghost function Once<L>(s: seq<L>, skip: seq<L>): (r: seq<L>)
    ensures forall x :: x in r ==> x in s && x !in skip
  {
    if |s| == 0 then []
    else
      var n := |s| - 1;
      var rest := Once(s[..n], skip);
      if s[n] in skip || s[n] in rest then rest else rest + [s[n]]
  }

  lemma OnceNone<L>(skip: seq<L>)
    ensures Once([], skip) == []
  {
  }

  lemma OnceNext<L>(s: seq<L>, i: nat, skip: seq<L>)
    requires i < |s|
    ensures var rest := Once(s[..i], skip);
      Once(s[..i + 1], skip) == if s[i] in skip || s[i] in rest then rest else rest + [s[i]]
  {
    assert s[..i + 1][..i] == s[..i];
  }

  /** What is listed when the line above is done with, and, with `all`, the line being read too. */
  ghost function Stored<L>(names: seq<L>, tag: seq<L>, a: nat, b: nat, all: bool): seq<L>
    requires a <= b <= |tag|
  {
    names + Once(tag[a..b], tag[b..]) + if all then Once(tag[b..], []) else []
  }

  /** Index of the first occurrence. */
  ghost function First<L>(s: seq<L>, x: L): (i: nat)
    requires x in s
    ensures i < |s| && s[i] == x && forall k :: 0 <= k < i ==> s[k] != x
  {
    var n := |s| - 1;
    if x in s[..n] then First(s[..n], x) else n
  }

  lemma {:induction false} OnceComplete<L>(s: seq<L>, skip: seq<L>, x: L)
    requires x in s && x !in skip
    ensures x in Once(s, skip)
  {
    var n := |s| - 1;
    if x in s[..n] {
      OnceComplete(s[..n], skip, x);
    }
  }

  /** The members are listed in the order of their first appearances. */
  lemma {:induction false} OnceInOrder<L>(s: seq<L>, skip: seq<L>, c: nat, d: nat)
    requires c < d < |Once(s, skip)|
    ensures First(s, Once(s, skip)[c]) < First(s, Once(s, skip)[d])
  {
    var n := |s| - 1;
    var rest := Once(s[..n], skip);
    assert rest[c] in s[..n];
    if d < |rest| {
      OnceInOrder(s[..n], skip, c, d);
      assert rest[d] in s[..n];
    } else if s[n] in s[..n] {
      OnceComplete(s[..n], skip, s[n]);
    }
  }

  /** The first stripe on the last line of what is tagged x. */
  ghost function EndIndex<L>(h: seq<Stripe>, tag: seq<L>, x: L): (e: int)
    requires |tag| <= |h|
    ensures -1 <= e < |tag| && (e >= 0 ==> tag[e] == x)
  {
    if |tag| == 0 then -1
    else
      var n := |tag| - 1;
      var e := EndIndex(h, tag[..n], x);
      if tag[n] == x && (e < 0 || h[e].vline < h[n].vline) then n else e
  }

  /** Stripe i lies on a lower line than stripe k, or before it on the same. */
  ghost predicate EndsAt(h: seq<Stripe>, i: int, k: int)
    requires 0 <= i < |h| && 0 <= k < |h|
  {
    h[k].vline < h[i].vline || (h[k].vline == h[i].vline && i <= k)
  }

  lemma {:induction false} EndIndexEnds<L>(h: seq<Stripe>, tag: seq<L>, x: L)
    requires |tag| <= |h|
    ensures EndIndex(h, tag, x) < 0 ==> x !in tag
    ensures forall k :: 0 <= k < |tag| && tag[k] == x ==> EndsAt(h, EndIndex(h, tag, x), k)
  {
    if |tag| > 0 {
      EndIndexEnds(h, tag[..|tag| - 1], x);
    }
  }

  lemma {:induction false} EndIndexIs<L>(h: seq<Stripe>, tag: seq<L>, x: L, i: int)
    requires |tag| <= |h| && 0 <= i < |tag| && tag[i] == x
    requires forall k :: 0 <= k < |tag| && tag[k] == x ==> EndsAt(h, i, k)
    ensures EndIndex(h, tag, x) == i
  {
    EndIndexEnds(h, tag, x);
    var e := EndIndex(h, tag, x);
    assert EndsAt(h, i, e) && EndsAt(h, e, i);
  }

  lemma {:induction false} EndIndexSame<L, M>(h: seq<Stripe>, tag: seq<L>, x: L, t: seq<M>, y: M)
    requires |tag| == |t| <= |h| && forall k :: 0 <= k < |tag| ==> (tag[k] == x <==> t[k] == y)
    ensures EndIndex(h, tag, x) == EndIndex(h, t, y)
  {
    if |tag| > 0 {
      EndIndexSame(h, tag[..|tag| - 1], x, t[..|t| - 1], y);
    }
  }

  lemma {:induction false} EndIndexPrefix<L>(h: seq<Stripe>, s: Stripe, tag: seq<L>, x: L)
    requires |tag| <= |h|
    ensures EndIndex(h + [s], tag, x) == EndIndex(h, tag, x)
  {
    if |tag| > 0 {
      EndIndexPrefix(h, s, tag[..|tag| - 1], x);
    }
  }

  /** No stripe from `lo` on is under a listed name. */
  ghost predicate Unlisted<L>(tag: seq<L>, lo: int, names: seq<L>) {
    forall k :: 0 <= lo <= k < |tag| ==> tag[k] !in names
  }

  /** Names are listed in the order of the first stripes on their last lines. */
  ghost predicate ListedByEnd<L>(h: seq<Stripe>, tag: seq<L>, names: seq<L>) {
    |tag| <= |h| && forall c, d :: 0 <= c < d < |names| ==> EndIndex(h, tag, names[c]) < EndIndex(h, tag, names[d])
  }

  /** What is listed of one line ends at its first appearance on that line. */
  lemma LineEnds<L>(h: seq<Stripe>, tag: seq<L>, a: nat, b: nat, y: L)
    requires a <= b <= |tag| <= |h| && InLineOrder(h) && y in tag[a..b] && y !in tag[b..]
    requires forall k :: a <= k < b ==> h[k].vline == h[a].vline
    requires forall k :: 0 <= k < a ==> h[k].vline < h[a].vline
    ensures EndIndex(h, tag, y) == a + First(tag[a..b], y)
  {
    var line, i := tag[a..b], First(tag[a..b], y);
    forall k | 0 <= k < |tag| && tag[k] == y ensures EndsAt(h, a + i, k) {
      NotLater(tag, b, y, k);
      if k >= a {
        assert line[k - a] == y;
      }
    }
    hide EndIndex, First;
    EndIndexIs(h, tag, y, a + i);
  }

  lemma NotLater<L>(tag: seq<L>, b: nat, y: L, k: nat)
    requires b <= |tag| && y !in tag[b..] && k < |tag| && tag[k] == y
    ensures k < b
  {
    assert forall m :: b <= m < |tag| ==> tag[m] == tag[b..][m - b];
  }

  lemma LineListed<L>(h: seq<Stripe>, tag: seq<L>, a: nat, b: nat)
    requires a <= b <= |tag| <= |h| && InLineOrder(h)
    requires forall k :: a <= k < b ==> h[k].vline == h[a].vline
    requires forall k :: 0 <= k < a && a < b ==> h[k].vline < h[a].vline
    ensures var done := Once(tag[a..b], tag[b..]);
      ListedByEnd(h, tag, done) && forall y :: y in done ==> a <= EndIndex(h, tag, y) < b
  {
    hide EndIndex, Once, First, InLineOrder;
    var line, later := tag[a..b], tag[b..];
    var done := Once(line, later);
    forall y | y in done ensures EndIndex(h, tag, y) == a + First(line, y) {
      LineEnds(h, tag, a, b, y);
    }
    forall c, d | 0 <= c < d < |done| ensures EndIndex(h, tag, done[c]) < EndIndex(h, tag, done[d]) {
      assert done[c] in done && done[d] in done;
      OnceInOrder(line, later, c, d);
    }
  }

  lemma ListedConcat<L>(h: seq<Stripe>, tag: seq<L>, names: seq<L>, more: seq<L>, a: int, b: int)
    requires ListedByEnd(h, tag, names) && ListedByEnd(h, tag, more)
    requires forall x :: x in names ==> EndIndex(h, tag, x) < a
    requires forall y :: y in more ==> a <= EndIndex(h, tag, y) < b
    ensures ListedByEnd(h, tag, names + more)
  {
    hide EndIndex;
    var all := names + more;
    assert forall c :: 0 <= c < |all| ==> all[c] == if c < |names| then names[c] else more[c - |names|];
    assert forall c :: 0 <= c < |names| ==> names[c] in names;
    assert forall d :: 0 <= d < |more| ==> more[d] in more;
  }

  /** Listing what ends on one line, after names that end above it, keeps the order. */
  lemma ListedLine<L>(h: seq<Stripe>, tag: seq<L>, names: seq<L>, a: nat, b: nat)
    requires a <= b <= |tag| <= |h| && InLineOrder(h) && ListedByEnd(h, tag, names)
    requires forall k :: a <= k < b ==> h[k].vline == h[a].vline
    requires forall k :: 0 <= k < a && a < b ==> h[k].vline < h[a].vline
    requires forall x :: x in names ==> EndIndex(h, tag, x) < a
    ensures ListedByEnd(h, tag, names + Once(tag[a..b], tag[b..]))
    ensures forall x :: x in names + Once(tag[a..b], tag[b..]) ==> EndIndex(h, tag, x) < b
  {
    hide EndIndex, Once, InLineOrder, ListedByEnd;
    LineListed(h, tag, a, b);
    ListedConcat(h, tag, names, Once(tag[a..b], tag[b..]), a, b);
  }

  lemma LinesOfWindow(h: seq<Stripe>)
    requires InLineOrder(h)
    ensures var (a, b) := Window(h);
      && (forall k :: a <= k < b ==> h[k].vline == h[a].vline)
      && (forall k :: 0 <= k < a && a < b ==> h[k].vline < h[a].vline)
      && (forall k :: b <= k < |h| ==> h[k].vline == h[b].vline)
      && (forall k :: 0 <= k < b && b < |h| ==> h[k].vline < h[b].vline)
  {
    var (a, b) := Window(h);
    if b > 0 { assert h[b - 1].vline < h[b].vline; }
    if 0 < a < b { assert h[a - 1].vline < h[a].vline; }
  }

  /** Storing keeps the list in order, for stripes in line order. */
  lemma StoredByEnd<L>(h: seq<Stripe>, tag: seq<L>, names: seq<L>, all: bool)
    requires |tag| == |h| && InLineOrder(h) && ListedByEnd(h, tag, names)
    requires Unlisted(tag, Window(h).0, names)
    ensures ListedByEnd(h, tag, Stored(names, tag, Window(h).0, Window(h).1, all))
  {
    var (a, b) := Window(h);
    LinesOfWindow(h);
    hide Window, ListedByEnd, Once, InLineOrder;
    forall x | x in names ensures EndIndex(h, tag, x) < a {
      var e := EndIndex(h, tag, x);
      assert e >= 0 ==> tag[e] in names;
    }
    hide EndIndex;
    ListedLine(h, tag, names, a, b);
    if all {
      assert tag[b..|tag|] == tag[b..] && tag[|tag|..] == [];
      ListedLine(h, tag, names + Once(tag[a..b], tag[b..]), b, |tag|);
    } else {
      assert names + Once(tag[a..b], tag[b..]) + [] == names + Once(tag[a..b], tag[b..]);
    }
  }

  /** The scan of the line above moves no stripe to or from a name that does not occur from there on. */
  lemma {:induction false} ScanSpares<L>(h: seq<Stripe>, tag: seq<L>, a: nat, i: nat, x: L)
    requires |h| == |tag| + 1 && a + i <= |tag| && forall k :: a <= k < |tag| ==> tag[k] != x
    ensures var t := ScanTags(h, tag, a, i).0; forall k :: 0 <= k < |tag| ==> (t[k] == x <==> tag[k] == x)
  {
    if i > 0 {
      hide Above;
      ScanSpares(h, tag, a, i - 1, x);
    }
  }

  /** The two taggings agree about x. */
  ghost predicate AgreeOn<L>(tag: seq<L>, t: seq<L>, x: L) {
    |tag| == |t| && forall k :: 0 <= k < |tag| ==> (t[k] == x <==> tag[k] == x)
  }

  lemma ScanAgrees<L>(h: seq<Stripe>, tag: seq<L>, a: nat, i: nat, names: seq<L>)
    requires |h| == |tag| + 1 && a + i <= |tag| && Unlisted(tag, a, names)
    ensures forall x :: x in names ==> AgreeOn(tag, ScanTags(h, tag, a, i).0, x)
  {
    hide ScanTags;
    forall x | x in names ensures AgreeOn(tag, ScanTags(h, tag, a, i).0, x) {
      ScanSpares(h, tag, a, i, x);
    }
  }

  lemma EndIndexKept<L>(h: seq<Stripe>, s: Stripe, tag: seq<L>, t: seq<L>, u: L, x: L)
    requires |tag| == |h| && AgreeOn(tag, t, x) && u != x
    ensures EndIndex(h + [s], t + [u], x) == EndIndex(h, tag, x)
  {
    assert (t + [u])[..|t|] == t;
    EndIndexPrefix(h, s, t, x);
    EndIndexSame(h, tag, x, t, x);
  }

  /** Adding a stripe under a name that is not listed leaves the order of the list as it is. */
  lemma AppendedByEnd<L>(h: seq<Stripe>, s: Stripe, tag: seq<L>, t: seq<L>, u: L, names: seq<L>)
    requires |tag| == |t| == |h| && ListedByEnd(h, tag, names) && u !in names
    requires forall x :: x in names ==> AgreeOn(tag, t, x)
    ensures ListedByEnd(h + [s], t + [u], names)
  {
    hide EndIndex, AgreeOn;
    forall c | 0 <= c < |names| ensures EndIndex(h + [s], t + [u], names[c]) == EndIndex(h, tag, names[c]) {
      assert names[c] in names;
      EndIndexKept(h, s, tag, t, u, names[c]);
    }
  }

  lemma OrderedPrefix(h: seq<Stripe>, s: Stripe)
    requires InLineOrder(h + [s])
    ensures InLineOrder(h)
  {
    assert forall i :: 0 <= i < |h| ==> (h + [s])[i] == h[i];
  }

  /** Moving the buffers to the line of a stripe keeps the list in order. */
  lemma AdvancedByEnd<L>(h: seq<Stripe>, s: Stripe, tag: seq<L>, before: seq<L>, all: bool, names: seq<L>)
    requires |tag| == |h| && InLineOrder(h + [s])
    requires (InLineOrder(h) ==> ListedByEnd(h, tag, before)) && Unlisted(tag, Window(h).0, before)
    requires names == before || names == Stored(before, tag, Window(h).0, Window(h).1, all)
    ensures ListedByEnd(h, tag, names)
  {
    hide ListedByEnd, Stored, Window, InLineOrder, Unlisted;
    OrderedPrefix(h, s);
    StoredByEnd(h, tag, before, all);
  }

  /** Scanning the line above and adding the stripe do too. */
  lemma JoinedByEnd<L>(h: seq<Stripe>, s: Stripe, tag: seq<L>, u: L, names: seq<L>, a: nat, i: nat)
    requires |tag| == |h| && a + i <= |tag| && ListedByEnd(h, tag, names) && Unlisted(tag, a, names) && u !in names
    ensures ListedByEnd(h + [s], ScanTags(h + [s], tag, a, i).0 + [u], names)
  {
    hide ListedByEnd, ScanTags, Unlisted, AgreeOn;
    ScanAgrees(h + [s], tag, a, i, names);
    AppendedByEnd(h, s, tag, ScanTags(h + [s], tag, a, i).0, u, names);
  }

  // ---------- the result of a frame ----------

  /** Components are numbered in the order of the first stripes on their last lines. */
  ghost predicate NumberedByEnd(h: seq<Stripe>, comp: seq<int>) {
    && |comp| == |h|
    && forall i, j :: 0 <= i < |h| && 0 <= j < |h| && comp[i] < comp[j] ==>
         EndIndex(h, comp, comp[i]) < EndIndex(h, comp, comp[j])
  }

  /** comp names the component of every stripe, flushed holds one entry per component: every entry belongs
      to some stripe, two stripes share an entry exactly when they are connected, and each entry is the
      exact total of its stripes. */
  ghost predicate OneEntryPerComponent(h: seq<Stripe>, flushed: seq<Totals>, comp: seq<int>) {
    && |comp| == |h|
    && (forall i :: 0 <= i < |h| ==> 0 <= comp[i] < |flushed|)
    && (forall c :: 0 <= c < |flushed| ==> c in comp)
    && (forall i, j :: 0 <= i < |h| && 0 <= j < |h| ==> (comp[i] == comp[j] <==> Connected(h, i, j)))
    && (forall c :: 0 <= c < |flushed| ==> flushed[c] == Sum(h, comp, c))
  }

  ghost function IndexIn<L>(s: seq<L>, x: L): (k: int)
    requires x in s
    ensures 0 <= k < |s| && s[k] == x
  {
    var k :| 0 <= k < |s| && s[k] == x;
    k
  }

  ghost function Renamed<L>(tag: seq<L>, names: seq<L>): (r: seq<int>)
    requires forall k :: 0 <= k < |tag| ==> tag[k] in names
    ensures |r| == |tag| && forall k :: 0 <= k < |tag| ==> 0 <= r[k] < |names| && names[r[k]] == tag[k]
  {
    seq(|tag|, k requires 0 <= k < |tag| => IndexIn(names, tag[k]))
  }

  lemma {:induction false} SumRenamed<L>(h: seq<Stripe>, tag: seq<L>, t: L, comp: seq<int>, c: int)
    requires |comp| == |tag| <= |h|
    requires forall k :: 0 <= k < |tag| ==> (tag[k] == t <==> comp[k] == c)
    ensures Sum(h, tag, t) == Sum(h, comp, c)
  {
    if |tag| > 0 {
      var n := |tag| - 1;
      SumRenamed(h, tag[..n], t, comp[..n], c);
    }
  }

  /** A list that names each tag once turns a component tagging into component numbers. */
  lemma NumberComponents<L>(h: seq<Stripe>, tag: seq<L>, names: seq<L>, flushed: seq<Totals>)
    requires |tag| == |h| && Sound(h, tag) && Closed(h, tag) && |flushed| == |names|
    requires forall k :: 0 <= k < |tag| ==> tag[k] in names
    requires forall c :: 0 <= c < |names| ==> names[c] in tag
    requires forall i, j :: 0 <= i < j < |names| ==> names[i] != names[j]
    requires forall c :: 0 <= c < |names| ==> flushed[c] == Sum(h, tag, names[c])
    ensures OneEntryPerComponent(h, flushed, Renamed(tag, names))
  {
    var comp := Renamed(tag, names);
    forall c | 0 <= c < |flushed| ensures c in comp && flushed[c] == Sum(h, comp, c) {
      var i :| 0 <= i < |tag| && tag[i] == names[c];
      assert comp[i] == c;
      SumRenamed(h, tag, names[c], comp, c);
    }
    forall i, j | 0 <= i < |h| && 0 <= j < |h| ensures comp[i] == comp[j] <==> Connected(h, i, j) {
      LabelsAreComponents(h, tag, i, j);
    }
  }

  /** Numbers follow the order of the list. */
  lemma NumberedAsListed<L>(h: seq<Stripe>, tag: seq<L>, names: seq<L>)
    requires |tag| == |h| && ListedByEnd(h, tag, names)
    requires forall k :: 0 <= k < |tag| ==> tag[k] in names
    requires forall i, j :: 0 <= i < j < |names| ==> names[i] != names[j]
    ensures NumberedByEnd(h, Renamed(tag, names))
  {
    hide EndIndex;
    var comp := Renamed(tag, names);
    forall i, j | 0 <= i < |h| && 0 <= j < |h| && comp[i] < comp[j]
      ensures EndIndex(h, comp, comp[i]) < EndIndex(h, comp, comp[j])
    {
      EndIndexSame(h, tag, names[comp[i]], comp, comp[i]);
      EndIndexSame(h, tag, names[comp[j]], comp, comp[j]);
    }
  }

  /** A float quotient: not a finite number when the divisor is zero. */
  datatype Coord = Finite(v: real) | NotFinite

  function Quotient(a: int, b: int): Coord {
    if b == 0 then NotFinite else Finite(a as real / b as real)
  }

  function Centred(extent: int, c: Coord, ratio: real): Coord
    requires ratio != 0.0
  {
    if c.Finite? then Finite((extent - 1) as real / 2.0 - c.v / ratio) else NotFinite
  }

  datatype Blob = Blob(x: Coord, y: Coord, score: int)

  /** The reported blob: centroid relative to the image centre, pixel count as score. */
  function BlobOf(t: Totals, w: int, h: int, ratio: real): Blob
    requires ratio != 0.0
  {
    Blob(Centred(w, Quotient(t.sumX, t.sum), ratio), Centred(h, Quotient(t.sumY, t.sum), 1.0), t.points)
  }

  /** The entries within the size limits, in list order. */
  ghost function Selected(ts: seq<Totals>, minPts: int, maxPts: int): (r: seq<Totals>)
    ensures |r| <= |ts|
  {
    if |ts| == 0 then []
    else
      var n := |ts| - 1;
      var rest := Selected(ts[..n], minPts, maxPts);
      if minPts <= ts[n].points <= maxPts then rest + [ts[n]] else rest
  }

  /** The list positions of the entries within the size limits, in increasing order. */
  ghost function Chosen(ts: seq<Totals>, minPts: int, maxPts: int): (r: seq<nat>)
    ensures forall k :: 0 <= k < |r| ==> r[k] < |ts|
    ensures forall j, k :: 0 <= j < k < |r| ==> r[j] < r[k]
    ensures forall c :: 0 <= c < |ts| ==> (c in r <==> minPts <= ts[c].points <= maxPts)
  {
    if |ts| == 0 then []
    else
      var n := |ts| - 1;
      var rest := Chosen(ts[..n], minPts, maxPts);
      if minPts <= ts[n].points <= maxPts then rest + [n] else rest
  }

  lemma {:induction false} SelectedAreChosen(ts: seq<Totals>, minPts: int, maxPts: int)
    ensures var r := Chosen(ts, minPts, maxPts); var sel := Selected(ts, minPts, maxPts);
      |r| == |sel| && forall k :: 0 <= k < |r| ==> sel[k] == ts[r[k]]
  {
    if |ts| > 0 {
      SelectedAreChosen(ts[..|ts| - 1], minPts, maxPts);
    }
  }

  // ---------- where a reported blob lies ----------

  lemma EntrySums(h: seq<Stripe>, flushed: seq<Totals>, comp: seq<int>)
    requires OneEntryPerComponent(h, flushed, comp)
    ensures |comp| == |h| && forall c :: 0 <= c < |flushed| ==> flushed[c] == Sum(h, comp, c)
  {
  }

  /** A value times the distance of its cell c from place a. */
  ghost function Lever(v: int, c: int, a: real): real {
    v as real * (a - c as real)
  }

  ghost function Scaled(a: real, n: int): real {
    a * n as real
  }

  lemma ScaledAdd(a: real, m: int, n: int)
    ensures Scaled(a, m + n) == Scaled(a, m) + Scaled(a, n)
  {
  }

  lemma LeverIs(v: int, c: int, a: real)
    ensures Lever(v, c, a) == Scaled(a, v) - (v * c) as real
  {
    assert v as real * c as real == (v * c) as real;
  }

  /** The values of the stripes with label l, each times its distance from column a. */
  ghost function LeverX<L>(h: seq<Stripe>, tag: seq<L>, l: L, a: real): real
    requires |tag| <= |h|
  {
    if |tag| == 0 then 0.0
    else
      var n := |tag| - 1;
      var rest := LeverX(h, tag[..n], l, a);
      if tag[n] == l then rest + Lever(h[n].sum, h[n].hstart, a) - h[n].sumX as real else rest
  }

  /** The values of the stripes with label l, each times its distance from line b. */
  ghost function LeverY<L>(h: seq<Stripe>, tag: seq<L>, l: L, b: real): real
    requires |tag| <= |h|
  {
    if |tag| == 0 then 0.0
    else
      var n := |tag| - 1;
      var rest := LeverY(h, tag[..n], l, b);
      if tag[n] == l then rest + Lever(h[n].sum, h[n].vline, b) else rest
  }

  lemma {:induction false} LeversAre<L>(h: seq<Stripe>, tag: seq<L>, l: L, a: real, b: real)
    requires |tag| <= |h|
    ensures var t := Sum(h, tag, l);
      && LeverX(h, tag, l, a) == Scaled(a, t.sum) - t.sumX as real
      && LeverY(h, tag, l, b) == Scaled(b, t.sum) - t.sumY as real
  {
    hide Lever, Scaled;
    if |tag| > 0 {
      var n := |tag| - 1;
      LeversAre(h, tag[..n], l, a, b);
      if tag[n] == l {
        var t, s := Sum(h, tag[..n], l), h[n];
        assert Sum(h, tag, l) == Plus(t, Mass(s));
        LeverIs(s.sum, s.hstart, a);
        LeverIs(s.sum, s.vline, b);
        ScaledAdd(a, t.sum, s.sum);
        ScaledAdd(b, t.sum, s.sum);
      }
    } else {
      ScaledAdd(a, 0, 0);
      ScaledAdd(b, 0, 0);
    }
  }

  /** The weight n placed at a has the moment m. */
  ghost predicate HasMoment(a: real, n: int, m: int) {
    Scaled(a, n) == m as real
  }

  lemma LeverOfMoment<L>(h: seq<Stripe>, tag: seq<L>, l: L, a: real, b: real)
    requires |tag| <= |h|
    ensures LeverX(h, tag, l, a) == 0.0 <==> HasMoment(a, Sum(h, tag, l).sum, Sum(h, tag, l).sumX)
    ensures LeverY(h, tag, l, b) == 0.0 <==> HasMoment(b, Sum(h, tag, l).sum, Sum(h, tag, l).sumY)
  {
    hide Sum, LeverX, LeverY, Scaled;
    LeversAre(h, tag, l, a, b);
  }

  /** Where on the camera a place lies: places are counted from the centre of the picture, and grow towards its first
      cell. */
  ghost function CellAt(extent: int, place: real, ratio: real): real {
    ratio * ((extent - 1) as real / 2.0 - place)
  }

  /** Blob b stands for an entry: its score is the number of points, and the values balance around its place, that is,
      their sum times the place is the weighted sum. It has no place exactly when the values sum to zero. */
  ghost predicate StandsFor(b: Blob, t: Totals, w: int, h: int, ratio: real) {
    && b.score == t.points
    && (b.x.Finite? <==> t.sum != 0) && (b.y.Finite? <==> t.sum != 0)
    && (t.sum != 0 ==>
          && HasMoment(CellAt(w, b.x.v, ratio), t.sum, t.sumX)
          && HasMoment(CellAt(h, b.y.v, 1.0), t.sum, t.sumY))
  }

  lemma CentredBack(extent: int, a: int, b: int, ratio: real)
    requires b != 0 && ratio != 0.0
    ensures var c := Centred(extent, Quotient(a, b), ratio);
      c.Finite? && HasMoment(CellAt(extent, c.v, ratio), b, a)
  {
    var q := a as real / b as real;
    assert ratio * (q / ratio) == q;
  }

  lemma BlobStandsFor(t: Totals, w: int, h: int, ratio: real)
    requires ratio != 0.0
    ensures StandsFor(BlobOf(t, w, h, ratio), t, w, h, ratio)
  {
    if t.sum != 0 {
      hide HasMoment, CellAt, Centred, Quotient;
      CentredBack(w, t.sumX, t.sum, ratio);
      CentredBack(h, t.sumY, t.sum, 1.0);
    }
  }

  /** Blob b lies where the stripes with label l balance, in columns and in lines; it has no place exactly when their
      values sum to zero. */
  ghost predicate Balances<L>(b: Blob, h: seq<Stripe>, tag: seq<L>, l: L, img: Image)
    requires |tag| <= |h|
    reads img
  {
    && b.score == Sum(h, tag, l).points
    && (b.x.Finite? <==> Sum(h, tag, l).sum != 0) && (b.y.Finite? <==> Sum(h, tag, l).sum != 0)
    && (b.x.Finite? ==> LeverX(h, tag, l, CellAt(img.w, b.x.v, img.ratio)) == 0.0)
    && (b.y.Finite? ==> LeverY(h, tag, l, CellAt(img.h, b.y.v, 1.0)) == 0.0)
  }

  lemma StandsForBalances<L>(b: Blob, h: seq<Stripe>, tag: seq<L>, l: L, img: Image)
    requires |tag| <= |h| && StandsFor(b, Sum(h, tag, l), img.w, img.h, img.ratio)
    ensures Balances(b, h, tag, l, img)
  {
    hide Sum, LeverX, LeverY, HasMoment, CellAt;
    if b.x.Finite? {
      LeverOfMoment(h, tag, l, CellAt(img.w, b.x.v, img.ratio), CellAt(img.h, b.y.v, 1.0));
    }
  }

  // ---------- heap objects ----------

  class Record {
    var sumX: int
    var sumY: int
    var sum: int
    var points: int
    var added: bool
    var matched: bool

    ghost function Value(): Totals
      reads this
    {
      Totals(sumX, sumY, sum, points)
    }

    constructor FromStripe(s: Stripe)
      ensures Value() == Mass(s) && !added && matched
    {
      sumX := s.sum * s.hstart + s.sumX;
      sumY := s.sum * s.vline;
      sum := s.sum;
      points := s.points;
      added := false;
      matched := true;
    }

    method AddStripe(s: Stripe)
      modifies this
      ensures Value() == Plus(old(Value()), Mass(s))
      ensures added == old(added) && matched == old(matched)
    {
      sumX := sumX + (s.sum * s.hstart + s.sumX);
      sumY := sumY + s.sum * s.vline;
      sum := sum + s.sum;
      points := points + s.points;
    }

    method Merge(other: Record)
      requires other != this
      modifies this
      ensures Value() == Plus(old(Value()), other.Value())
      ensures added == old(added) && matched == old(matched)
    {
      sumX := sumX + other.sumX;
      sumY := sumY + other.sumY;
      sum := sum + other.sum;
      points := points + other.points;
    }
  }

  /** One run on a buffered line and the record it belongs to. */
  datatype Range = Range(x1: uint32, x2: uint32, pb: Record?)

  method RedirectRanges(ranges: array<Range>, limit: nat, from: Record, to: Record)
    requires limit <= ranges.Length
    modifies ranges
    ensures forall j :: 0 <= j < limit ==>
      ranges[j] == if old(ranges[j]).pb == from then old(ranges[j]).(pb := to) else old(ranges[j])
  {
    for j := 0 to limit
      invariant forall k :: 0 <= k < j ==>
        ranges[k] == if old(ranges[k]).pb == from then old(ranges[k]).(pb := to) else old(ranges[k])
      invariant forall k :: j <= k < limit ==> ranges[k] == old(ranges[k])
    {
      if ranges[j].pb == from {
        ranges[j] := ranges[j].(pb := to);
      }
    }
  }

  /** The stripe ends in the bottom right cell, once scaled and clipped. */
  ghost predicate InCorner(s: Stripe, img: Image)
    requires img.Sized()
  {
    Clip(ToInt(s.vline), 0, img.h - 1) == img.h - 1 && img.Column(ToInt(s.hstop)) == img.w - 1
  }

  class Finder {
    var preblobs: seq<Record>
    var current: array<Range>
    var currentLimit: nat
    var next: array<Range>
    var nextLimit: nat
    var currentVline: uint32

    ghost var history: seq<Stripe>   // stripes added since the last flush
    ghost var owner: seq<Record>     // owner[k] is the record that holds stripe k
    ghost var live: set<Record>      // records allocated and not yet freed

    // ----- invariant -----

    ghost function RangeOf(k: int): Range
      reads this
      requires 0 <= k < |history| == |owner|
    {
      Range(history[k].hstart, history[k].hstop, owner[k])
    }

    /** The buffers hold exactly the stripes a..b (line above) and b.. (line being read). */
    ghost predicate Buffers(a: nat, b: nat)
      reads this, current, next
    {
      && a <= b <= |history| == |owner|
      && current != next && current.Length == next.Length
      && currentLimit == b - a <= current.Length
      && nextLimit == |history| - b <= next.Length
      && (forall i :: 0 <= i < currentLimit ==> current[i] == RangeOf(a + i))
      && (forall i :: 0 <= i < nextLimit ==> next[i] == RangeOf(b + i))
    }

    /** The live records are those that own a stripe; each holds the totals of its stripes; the list
        holds each `added` record once and nothing else. */
    ghost predicate Books()
      reads this, live
    {
      && |owner| == |history| && Owners(owner, live)
      && (forall r :: r in live ==> (r.added <==> r in preblobs))
      && (forall r :: r in preblobs ==> r in live)
      && (forall i, j :: 0 <= i < j < |preblobs| ==> preblobs[i] != preblobs[j])
      && (forall r :: r in live ==> r.Value() == Sum(history, owner, r))
    }

    /** Records still reachable from stripes lo.. are unfinished; all others are finished. */
    ghost predicate Pending(lo: nat)
      reads this, live
      requires lo <= |owner| == |history|
      requires Owners(owner, live)
    {
      && (forall k :: lo <= k < |owner| ==> !owner[k].added)
      && (forall k :: 0 <= k < lo ==> owner[k].added || Occurs(owner, lo, owner[k]))
    }

    /** A record of the line above is `matched` exactly when the line being read also refers to it. */
    ghost predicate MatchedFlags(a: nat, b: nat)
      reads this, live
      requires a <= b <= |owner| == |history|
      requires Owners(owner, live)
    {
      forall k :: a <= k < b ==> (owner[k].matched <==> Occurs(owner, b, owner[k]))
    }

    ghost predicate Valid()
      reads this, current, next, live
    {
      var (a, b) := Window(history);
      && Buffers(a, b) && Books() && Pending(a) && MatchedFlags(a, b)
      && Sound(history, owner) && Closed(history, owner)
      && (InLineOrder(history) ==> ListedByEnd(history, owner, preblobs))
      && currentVline == (if |history| == 0 then 0xFFFF_FFFE else history[|history| - 1].vline)
    }

    constructor (w: nat)
      ensures Valid() && history == [] && preblobs == [] && live == {}
      ensures fresh(current) && fresh(next) && current.Length == w / 2 + 1
    {
      preblobs := [];
      current := new Range[w / 2 + 1];
      next := new Range[w / 2 + 1];
      currentLimit, nextLimit := 0, 0;
      currentVline := 0xFFFF_FFFE;
      history, owner, live := [], [], {};
    }

    // ----- moving finished records to the list -----

    /** Marks a record finished and lists it. */
    method Finish(pb: Record)
      requires Books() && pb in live && !pb.added
      modifies this`preblobs, pb`added
      ensures Books() && pb.added && preblobs == old(preblobs) + [pb]
    {
      pb.added := true;
      preblobs := preblobs + [pb];
    }

    /** Lists the next record of s unless it is listed already. */
    method FinishOnce(pb: Record, ghost was: seq<Record>, ghost s: seq<Record>, ghost i: nat, ghost skip: seq<Record>)
      requires Books() && pb in live && i < |s| && pb == s[i] && pb !in was && pb !in skip
      requires preblobs == was + Once(s[..i], skip)
      modifies this`preblobs, pb`added
      ensures Books() && pb.added && preblobs == was + Once(s[..i + 1], skip)
    {
      hide Once, Sum;
      OnceNext(s, i, skip);
      if !pb.added {
        Finish(pb);
      }
    }

    method Unmatch(pb: Record)
      requires Books() && pb in live
      modifies pb`matched
      ensures Books() && !pb.matched
    {
      pb.matched := false;
    }

    lemma PendingAfterLine(a: nat, b: nat)
      requires a <= b <= |owner| == |history|
      requires Owners(owner, live)
      requires forall k :: b <= k < |owner| ==> !owner[k].added
      requires forall k :: 0 <= k < a ==> owner[k].added || Occurs(owner, a, owner[k])
      requires forall k :: a <= k < b ==> owner[k].added || Occurs(owner, b, owner[k])
      ensures Pending(b)
    {
      forall k | 0 <= k < a ensures owner[k].added || Occurs(owner, b, owner[k]) {
        if !owner[k].added {
          var m :| a <= m < |owner| && owner[m] == owner[k];
          if m < b { assert Occurs(owner, b, owner[m]); }
        }
      }
    }

    lemma OccursLater(b: nat, pb: Record)
      requires b <= |owner|
      ensures Occurs(owner, b, pb) <==> pb in owner[b..]
    {
      if pb in owner[b..] {
        var k :| 0 <= k < |owner| - b && owner[b..][k] == pb;
        assert owner[b + k] == pb;
      }
      if Occurs(owner, b, pb) {
        var m :| b <= m < |owner| && owner[m] == pb;
        assert owner[b..][m - b] == pb;
      }
    }

    method StoreUnmatched(ghost a: nat, ghost b: nat)
      requires Buffers(a, b) && Books() && Pending(a) && MatchedFlags(a, b)
      modifies this`preblobs, live`added
      ensures Buffers(a, b) && Books() && Pending(b)
      ensures preblobs == old(preblobs) + Once(owner[a..b], owner[b..])
    {
      hide Sum, Once, Occurs, Books;
      ghost var n, line, later, was := |owner|, owner[a..b], owner[b..], preblobs;
      OnceNone(later);
      OwnersOfBooks();
      NoneListed(a);
      for i := 0 to currentLimit
        invariant Books() && MatchedFlags(a, b)
        invariant preblobs == was + Once(line[..i], later)
        invariant forall k :: b <= k < n ==> !owner[k].added
        invariant forall k :: 0 <= k < n && old(owner[k].added) ==> owner[k].added
        invariant forall k :: a <= k < a + i ==> owner[k].added || owner[k].matched
      {
        var pb := current[i].pb;
        assert pb == owner[a + i] == line[i];
        OccursLater(b, pb);
        if !pb.matched {
          FinishOnce(pb, was, line, i, later);
        } else {
          OnceNext(line, i, later);
        }
      }
      assert line[..b - a] == line;
      PendingAfterLine(a, b);
    }

    method StoreNext(all: bool, ghost a: nat, ghost b: nat)
      requires Buffers(a, b) && Books() && Pending(b)
      modifies this`preblobs, live
      ensures Buffers(a, b) && Books()
      ensures forall k :: b <= k < |owner| ==> if all then owner[k].added else !owner[k].added && !owner[k].matched
      ensures forall k :: 0 <= k < |owner| && old(owner[k].added) ==> owner[k].added
      ensures preblobs == old(preblobs) + if all then Once(owner[b..], []) else []
    {
      hide Sum, Once, Occurs, Books;
      ghost var n, line, was := |owner|, owner[b..], preblobs;
      OwnersOfBooks();
      NoneListed(b);
      OnceNone<Record>([]);
      for i := 0 to nextLimit
        invariant Books()
        invariant preblobs == was + if all then Once(line[..i], []) else []
        invariant forall k :: 0 <= k < n && old(owner[k].added) ==> owner[k].added
        invariant !all ==> forall k :: b <= k < n ==> !owner[k].added
        invariant forall k :: b <= k < b + i ==> if all then owner[k].added else !owner[k].matched
      {
        var pb := next[i].pb;
        assert pb == owner[b + i] == line[i];
        Unmatch(pb);
        if all {
          FinishOnce(pb, was, line, i, []);
        }
      }
      assert line[..n - b] == line;
    }

    method StorePreblobs(all: bool, ghost a: nat, ghost b: nat)
      requires Buffers(a, b) && Books() && Pending(a) && MatchedFlags(a, b)
      modifies this`preblobs, live
      ensures Buffers(a, b) && Books()
      ensures all ==> Pending(|owner|)
      ensures !all ==> Pending(b) && forall k :: b <= k < |owner| ==> !owner[k].matched
      ensures preblobs == Stored(old(preblobs), owner, a, b, all)
    {
      StoreUnmatched(a, b);
      StoreNext(all, a, b);
    }

    // ----- merging -----

    /** Points every range that refers to `from` at `to`; then nothing refers to `from` any more. */
    method RedirectBuffers(from: Record, to: Record, ghost a: nat, ghost b: nat)
      requires Buffers(a, b) && Owners(owner, live) && from in live && to in live && from != to
      modifies current, next, `owner, `live
      ensures owner == Redirected(old(owner), from, to) && live == old(live) - {from}
      ensures Buffers(a, b) && Owners(owner, live)
    {
      hide Owners;
      RedirectRanges(current, currentLimit, from, to);
      RedirectRanges(next, nextLimit, from, to);
      OwnersRedirected(owner, live, from, to);
      owner := Redirected(owner, from, to);
      live := live - {from};
    }

    lemma PendingRedirected(before: seq<Record>, from: Record, to: Record, a: nat)
      requires |owner| == |history| && a <= |before| && owner == Redirected(before, from, to)
      requires Owners(owner, live)
      requires !to.added && !from.added
      requires forall k :: a <= k < |before| ==> !before[k].added
      requires forall k :: 0 <= k < a ==> before[k].added || Occurs(before, a, before[k])
      ensures Pending(a)
    {
      forall k | 0 <= k < a ensures owner[k].added || Occurs(owner, a, owner[k]) {
        if !before[k].added {
          var m :| a <= m < |before| && before[m] == before[k];
          assert owner[m] == owner[k];
        }
      }
    }

    /** Adds the totals of `merged` to `kept`. */
    method Fold(kept: Record, merged: Record, ghost a: nat, ghost b: nat)
      requires Buffers(a, b) && kept != merged
      modifies kept
      ensures Buffers(a, b)
      ensures kept.Value() == Plus(old(kept.Value()), merged.Value())
      ensures kept.added == old(kept.added) && kept.matched == old(kept.matched)
    {
      kept.Merge(merged);
    }

    /** Folds `merged` into `kept`, points every range at `kept`, and frees `merged`. */
    method MergeInto(kept: Record, merged: Record, ghost a: nat, ghost b: nat)
      requires Buffers(a, b) && Books() && Pending(a)
      requires kept in live && merged in live && kept != merged && !kept.added && !merged.added
      modifies current, next, kept, `owner, `live
      ensures owner == Redirected(old(owner), merged, kept) && live == old(live) - {merged}
      ensures Buffers(a, b) && Books() && Pending(a)
      ensures kept.matched == old(kept.matched)
    {
      hide Occurs, Buffers, Owners, Sum;
      ghost var before := owner;
      OwnersOfBooks();
      SumsRedirected(history, owner, merged, kept, live);
      Fold(kept, merged, a, b);
      RedirectBuffers(merged, kept, a, b);
      PendingRedirected(before, merged, kept, a);
    }

    // ----- adding a stripe -----

    /** The record that range rng of the line above refers to; none when rng is negative. */
    ghost function Kept(a: nat, rng: int): Record?
      reads this
      requires a + rng < |owner|
    {
      if rng < 0 then null else owner[a + rng]
    }

    ghost predicate MatchedOrKept(a: nat, b: nat, kept: Record?)
      reads this, live
      requires a <= b <= |owner| && Owners(owner, live)
    {
      forall k :: a <= k < b ==> (owner[k].matched <==> Occurs(owner, b, owner[k]) || owner[k] == kept)
    }

    lemma MatchedRedirected(before: seq<Record>, from: Record, to: Record, a: nat, b: nat)
      requires a <= b <= |before| && owner == Redirected(before, from, to) && Owners(owner, live)
      requires to.matched
      requires forall k :: a <= k < b && before[k] != from ==>
        (before[k].matched <==> Occurs(before, b, before[k]) || before[k] == to)
      ensures MatchedOrKept(a, b, to)
    {
      forall k | a <= k < b && owner[k] != to ensures owner[k].matched <==> Occurs(owner, b, owner[k]) {
        if Occurs(before, b, before[k]) {
          var m :| b <= m < |before| && before[m] == before[k];
          assert owner[m] == owner[k];
        }
        if Occurs(owner, b, owner[k]) {
          var m :| b <= m < |before| && owner[m] == owner[k];
          assert before[m] == before[k];
        }
      }
    }

    method MarkMatched(pb: Record, ghost a: nat)
      requires Books() && a <= |owner| && Pending(a) && pb in live
      modifies pb`matched
      ensures Books() && Pending(a) && pb.matched
    {
      pb.matched := true;
    }

    /** The records of two ranges in contact with the newest stripe become one. */
    method MergeRange(i: nat, rng: nat, ghost a: nat, ghost b: nat)
      requires Buffers(a, b) && Books() && Pending(a) && rng < i < currentLimit
      requires owner[a + i] != owner[a + rng] && owner[a + rng].matched
      requires forall k :: a <= k < b && owner[k] != owner[a + i] ==>
        (owner[k].matched <==> Occurs(owner, b, owner[k]) || owner[k] == owner[a + rng])
      modifies current, next, live, `owner, `live
      ensures live <= old(live) && Buffers(a, b) && Books() && Pending(a)
      ensures owner == Redirected(old(owner), old(owner)[a + i], old(owner)[a + rng])
      ensures MatchedOrKept(a, b, Kept(a, rng))
    {
      hide Occurs, Redirected, Sum, Books;
      OwnersOfBooks();
      ghost var before := owner;
      var pb, kept := current[i].pb, current[rng].pb;
      MergeInto(kept, pb, a, b);
      OwnersOfBooks();
      MatchedRedirected(before, pb, kept, a, b);
    }

    method TouchRange(s: Stripe, i: nat, rng: int, ghost a: nat, ghost b: nat) returns (rng': int)
      requires Buffers(a, b) && Books() && Pending(a) && Window(history + [s]) == (a, b)
      requires -1 <= rng < i < currentLimit && MatchedOrKept(a, b, Kept(a, rng))
      modifies current, next, live, `owner, `live
      ensures live <= old(live)
      ensures Buffers(a, b) && Books() && Pending(a)
      ensures (owner, rng') == ScanStep(history + [s], old(owner), a, i, rng)
      ensures MatchedOrKept(a, b, Kept(a, rng'))
    {
      hide Occurs, Window, LineStart, PrevLineStart, Above, StripeInRange, Redirected, Sum, Books;
      rng' := rng;
      ghost var h' := history + [s];
      WindowContact(h', a + i);
      OwnersOfBooks();
      if StripeInRange(s, current[i].x1, current[i].x2) {
        var pb := current[i].pb;
        MarkMatched(pb, a);
        if rng < 0 {
          rng' := i;
        } else {
          if current[rng].pb != pb {
            MergeRange(i, rng, a, b);
          }
        }
      }
    }

    /** Ranges left on the line that stripe s goes to. */
    predicate Room(s: Stripe)
      reads this, next
    {
      if s.vline == currentVline then nextLimit < next.Length else 0 < next.Length
    }

    /** The line is not the next one: everything is finished and both buffers are emptied. */
    method StartOver(ghost a: nat, ghost b: nat)
      requires Buffers(a, b) && Books() && Pending(a) && MatchedFlags(a, b)
      modifies this`currentLimit, this`nextLimit, this`preblobs, live
      ensures preblobs == Stored(old(preblobs), owner, a, b, true) && nextLimit == 0
      ensures Buffers(|history|, |history|) && Books() && Pending(|history|)
      ensures MatchedOrKept(|history|, |history|, null)
    {
      hide Occurs, Sum, Stored;
      StorePreblobs(true, a, b);
      currentLimit := 0;
      nextLimit := 0;
    }

    /** The line is the next one: the line just read becomes the line above. */
    method NextLine(ghost a: nat, ghost b: nat)
      requires Buffers(a, b) && Books() && Pending(a) && MatchedFlags(a, b)
      modifies this`current, this`next, this`currentLimit, this`nextLimit, this`preblobs, live
      ensures (current, next) == old((next, current)) && nextLimit == 0
      ensures preblobs == Stored(old(preblobs), owner, a, b, false)
      ensures Buffers(b, |history|) && Books() && Pending(b) && MatchedOrKept(b, |history|, null)
    {
      hide Sum, Stored;
      StorePreblobs(false, a, b);
      current, currentLimit, next, nextLimit := next, nextLimit, current, 0;
    }

    method EnterLine(line: uint32, ghost a: nat, ghost b: nat)
      requires Buffers(a, b) && Books() && Pending(a) && MatchedOrKept(a, b, null)
      modifies `currentVline
      ensures currentVline == line
      ensures Buffers(a, b) && Books() && Pending(a) && MatchedOrKept(a, b, null)
    {
      currentVline := line;
    }

    /** Where nothing is kept, matching is as flagged. */
    lemma FlagsAreMatches(a: nat, b: nat)
      requires a <= b <= |owner| == |history| && Owners(owner, live) && MatchedFlags(a, b)
      ensures MatchedOrKept(a, b, null)
    {
    }

    /** When s starts a new line: finished records are listed and the buffers move up one line, or are
        emptied when the line is not the next one. */
    method AdvanceLine(s: Stripe, ghost a: nat, ghost b: nat)
      requires Buffers(a, b) && Books() && Pending(a) && MatchedFlags(a, b) && Window(history) == (a, b) && Room(s)
      requires currentVline == (if |history| == 0 then 0xFFFF_FFFE else history[|history| - 1].vline)
      modifies this`current, this`next, this`currentLimit, this`nextLimit, this`currentVline, this`preblobs, live
      ensures (current, next) == old((current, next)) || (current, next) == old((next, current))
      ensures preblobs == if s.vline == old(currentVline) then old(preblobs)
                          else Stored(old(preblobs), owner, a, b, s.vline != Inc(old(currentVline)))
      ensures currentVline == s.vline && nextLimit < next.Length
      ensures nextLimit == if s.vline == old(currentVline) then old(nextLimit) else 0
      ensures var (a', b') := Window(history + [s]);
        b' <= |history| && Buffers(a', b') && Books() && Pending(a') && MatchedOrKept(a', b', null)
    {
      hide LineStart, PrevLineStart, Sum, Occurs, Stored, MatchedFlags, MatchedOrKept, Books, Pending;
      WindowStep(history, s);
      OwnersOfBooks();
      if currentVline != s.vline {
        if Inc(currentVline) != s.vline {
          StartOver(a, b);
          EnterLine(s.vline, |history|, |history|);
        } else {
          NextLine(a, b);
          EnterLine(s.vline, b, |history|);
        }
      } else {
        FlagsAreMatches(a, b);
      }
    }

    /** Compares s with every range of the line above. */
    method ScanLine(s: Stripe, ghost a: nat, ghost b: nat) returns (rng: int)
      requires Buffers(a, b) && Books() && Pending(a) && Window(history + [s]) == (a, b)
      requires MatchedOrKept(a, b, null)
      modifies current, next, live, `owner, `live
      ensures live <= old(live)
      ensures Buffers(a, b) && Books() && Pending(a)
      ensures (owner, rng) == ScanTags(history + [s], old(owner), a, b - a)
      ensures MatchedOrKept(a, b, Kept(a, rng))
    {
      hide Occurs, Sum, Window, Above, Redirected, ScanStep;
      rng := -1;
      for i := 0 to currentLimit
        invariant live <= old(live)
        invariant Buffers(a, b) && Books() && Pending(a)
        invariant (owner, rng) == ScanTags(history + [s], old(owner), a, i)
        invariant MatchedOrKept(a, b, Kept(a, rng))
      {
        rng := TouchRange(s, i, rng, a, b);
      }
    }

    /** The totals are right once stripe s has been credited to pb but not yet recorded. */
    ghost predicate Credited(s: Stripe, pb: Record)
      reads this, live
    {
      && |owner| == |history| && Owners(owner, live)
      && (forall r :: r in live ==> (r.added <==> r in preblobs))
      && (forall r :: r in preblobs ==> r in live)
      && (forall i, j :: 0 <= i < j < |preblobs| ==> preblobs[i] != preblobs[j])
      && (forall r :: r in live && r != pb ==> r.Value() == Sum(history, owner, r))
    }

    /** The line being read gets a range for s that refers to pb. */
    method BufferRange(s: Stripe, pb: Record, ghost a: nat, ghost b: nat)
      requires Buffers(a, b) && nextLimit < next.Length
      modifies next, `nextLimit, `history, `owner, `live
      ensures history == old(history) + [s] && owner == old(owner) + [pb] && live == old(live) + {pb}
      ensures Buffers(a, b) && nextLimit == old(nextLimit) + 1
    {
      next[nextLimit] := Range(s.hstart, s.hstop, pb);
      nextLimit := nextLimit + 1;
      history := history + [s];
      owner := owner + [pb];
      live := live + {pb};
    }

    method RecordStripe(s: Stripe, pb: Record, ghost a: nat, ghost b: nat)
      requires Buffers(a, b) && nextLimit < next.Length && Credited(s, pb) && Pending(a) && MatchedOrKept(a, b, pb)
      requires !pb.added && pb !in preblobs && pb.Value() == Plus(Sum(history, owner, pb), Mass(s))
      modifies next, `nextLimit, `history, `owner, `live
      ensures history == old(history) + [s] && owner == old(owner) + [pb] && live == old(live) + {pb}
      ensures Buffers(a, b) && Books() && Pending(a) && MatchedFlags(a, b)
      ensures nextLimit == old(nextLimit) + 1
    {
      hide Occurs, Sum, Buffers, Owners;
      BufferBounds(a, b);
      OwnersAppended(owner, live, pb);
      SumsAppended(history, s, owner, pb, live + {pb});
      OccursAppended(owner, pb, a);
      OccursAppended(owner, pb, b);
      BufferRange(s, pb, a, b);
    }

    lemma BufferBounds(a: nat, b: nat)
      requires Buffers(a, b)
      ensures a <= b <= |history| == |owner|
    {
    }

    /** Adds s to the record of range rng, or to a new one, and buffers it on the line being read. */
    method Append(s: Stripe, rng: int, ghost a: nat, ghost b: nat)
      requires Buffers(a, b) && Books() && Pending(a) && nextLimit < next.Length
      requires -1 <= rng < b - a && MatchedOrKept(a, b, Kept(a, rng))
      modifies next, live, `nextLimit, `history, `owner, `live
      ensures history == old(history) + [s] && |owner| == |history| && owner == old(owner) + [owner[|owner| - 1]]
      ensures if rng >= 0 then owner[|owner| - 1] == old(owner)[a + rng] && live == old(live)
              else fresh(owner[|owner| - 1]) && live == old(live) + {owner[|owner| - 1]}
      ensures Buffers(a, b) && Books() && Pending(a) && MatchedFlags(a, b)
      ensures nextLimit == old(nextLimit) + 1
    {
      hide Occurs, Sum;
      var pb: Record;
      if rng < 0 {
        pb := new Record.FromStripe(s);
        SumAbsent(history, owner, pb);
      } else {
        pb := current[rng].pb;
        pb.AddStripe(s);
      }
      RecordStripe(s, pb, a, b);
    }

    // ----- the operations of the finder -----

    /** The image, if there is one, has the stripe marked; a cell past its end is only noted. */
    twostate predicate Drawn(s: Stripe, img: Image)
      requires img.Sized()
      reads img, img.bits
    {
      if img.bits == null then img.overran == old(img.overran)
      else
        var first := img.FirstCell(ToInt(s.hstart), ToInt(s.vline));
        var last := img.LastCell(ToInt(s.vline), ToInt(s.hstop));
        && Painted(old(img.bits[..]), img.bits[..], first, last, 0x80)
        && (img.overran <==> old(img.overran) || (first <= last && last >= img.bits.Length))
    }

    /** Marks the stripe in the image, if there is one. */
    method MarkStripe(s: Stripe, img: Image)
      requires img.Sized()
      modifies img.bits, img`overran
      ensures Drawn(s, img)
      ensures img.bits != null && img.bits.Length == Base(img.h, img.w) ==>
        (img.overran <==> old(img.overran) || InCorner(s, img))
    {
      img.LeavesFromCorner(ToInt(s.vline), ToInt(s.hstop));
      if img.bits != null {
        img.DrawStripe(ToInt(s.hstart), ToInt(s.vline), ToInt(s.hstop), 0x80);
      }
    }

    /** Gathers the records that s touches and adds it to them. */
    method JoinLine(s: Stripe, ghost a: nat, ghost b: nat)
      requires Buffers(a, b) && Books() && Pending(a) && Window(history + [s]) == (a, b) && nextLimit < next.Length
      requires MatchedOrKept(a, b, null)
      modifies current, next, live, `nextLimit, `history, `owner, `live
      ensures history == old(history) + [s] && |owner| == |history| && nextLimit == old(nextLimit) + 1
      ensures Buffers(a, b) && Books() && Pending(a) && MatchedFlags(a, b) && fresh(live - old(live))
      ensures var u := owner[|owner| - 1]; var (t, rng) := ScanTags(history, old(owner), a, b - a);
        owner == t + [u] && u !in preblobs && if rng >= 0 then u == t[a + rng] else u !in t
    {
      hide Sound, Closed, Occurs, Sum, Window, ScanTags, Buffers, Pending, MatchedOrKept, Books;
      OwnersOfBooks();
      var rng := ScanLine(s, a, b);
      ghost var t, mid := owner, live;
      Append(s, rng, a, b);
      assert live <= mid + {owner[|t|]};
      NoneListed(a);
    }

    /** Files the stripe: moves the buffers to its line, gathers the records it touches, adds it. */
    method FileStripe(s: Stripe)
      requires Valid() && Room(s)
      modifies this, current, next, live
      ensures Valid() && history == old(history) + [s] && currentVline == s.vline
      ensures (current, next) == old((current, next)) || (current, next) == old((next, current))
      ensures fresh(live - old(live))
      ensures nextLimit == if s.vline == old(currentVline) then old(nextLimit) + 1 else 1
    {
      hide Sound, Closed, Occurs, Sum, Window, ScanTags, Buffers, Books, Pending, MatchedOrKept, MatchedFlags;
      hide ListedByEnd, Stored, InLineOrder, Owners, Once, Above, Unlisted;
      ghost var (a, b) := Window(history);
      ghost var h, tag, before := history, owner, preblobs;
      OwnersOfBooks();
      NoneListed(a);
      AdvanceLine(s, a, b);
      ghost var (a', b') := Window(history + [s]);
      NoneListed(a');
      JoinLine(s, a', b');
      ghost var t, u := owner[..|h|], owner[|h|];
      ScanThenTag(h, s, tag, u);
      if InLineOrder(h + [s]) {
        AdvancedByEnd(h, s, tag, before, s.vline != Inc(old(currentVline)), preblobs);
        JoinedByEnd(h, s, tag, u, preblobs, a', b' - a');
      }
    }

    /** No stripe from `lo` on belongs to a listed record. */
    lemma NoneListed(lo: nat)
      requires Books() && lo <= |owner| && Pending(lo)
      ensures Unlisted(owner, lo, preblobs)
    {
    }

    method AddStripe(s: Stripe, img: Image) returns (ok: bool)
      requires Valid() && Room(s) && img.Sized()
      modifies this, current, next, live, img.bits, img`overran
      ensures ok && Valid() && history == old(history) + [s] && currentVline == s.vline
      ensures (current, next) == old((current, next)) || (current, next) == old((next, current))
      ensures fresh(live - old(live))
      ensures nextLimit == if s.vline == old(currentVline) then old(nextLimit) + 1 else 1
      ensures Drawn(s, img)
      ensures img.bits != null && img.bits.Length == Base(img.h, img.w) ==>
        (img.overran <==> old(img.overran) || InCorner(s, img))
    {
      hide Window, Sound, Closed, Occurs, Sum, Buffers, Books, Pending, MatchedOrKept, Painted;
      MarkStripe(s, img);
      FileStripe(s);
      return true;
    }

    lemma OwnersOfBooks()
      requires Books()
      ensures |owner| == |history| && Owners(owner, live)
    {
    }

    /** Everything still pending is finished. */
    method FinishAll()
      requires Valid()
      modifies this`preblobs, this`currentLimit, this`nextLimit, this`currentVline, live
      ensures Books() && Pending(|owner|) && currentLimit == nextLimit == 0 && currentVline == 0xFFFF_FFFE
      ensures Sound(history, owner) && Closed(history, owner)
      ensures InLineOrder(history) ==> ListedByEnd(history, owner, preblobs)
    {
      hide Occurs, Window, Sound, Closed, Sum, Stored, ListedByEnd, InLineOrder, MatchedFlags;
      ghost var (a, b) := Window(history);
      NoneListed(a);
      if InLineOrder(history) {
        StoredByEnd(history, owner, preblobs, true);
      }
      StorePreblobs(true, a, b);
      currentLimit := 0;
      nextLimit := 0;
      currentVline := 0xFFFF_FFFE;
    }

    /** The list now names each component once, in the order in which they ended. */
    method Flush() returns (ghost flushed: seq<Totals>, ghost comp: seq<int>)
      requires Valid()
      modifies this`preblobs, this`currentLimit, this`nextLimit, this`currentVline, live
      ensures Books() && currentLimit == nextLimit == 0 && currentVline == 0xFFFF_FFFE
      ensures OneEntryPerComponent(history, flushed, comp)
      ensures InLineOrder(history) ==> NumberedByEnd(history, comp)
      ensures |flushed| == |preblobs| && forall c :: 0 <= c < |preblobs| ==> preblobs[c].Value() == flushed[c]
    {
      hide Occurs, Sound, Closed, OneEntryPerComponent, Sum, ListedByEnd, NumberedByEnd, InLineOrder, Valid;
      FinishAll();
      ghost var h, tag, names := history, owner, preblobs;
      flushed := seq(|names|, c requires 0 <= c < |names| && |tag| == |h| => Sum(h, tag, names[c]));
      FlushedNames();
      NumberComponents(history, owner, preblobs, flushed);
      comp := Renamed(owner, preblobs);
      if InLineOrder(history) {
        NumberedAsListed(history, owner, preblobs);
      }
    }

    lemma FlushedNames()
      requires Books() && Pending(|owner|)
      ensures forall k :: 0 <= k < |owner| ==> owner[k] in preblobs
      ensures forall c :: 0 <= c < |preblobs| ==> preblobs[c] in owner
    {
      NoneOccurs();
    }

    lemma NoneOccurs()
      ensures forall k :: 0 <= k < |owner| ==> !Occurs(owner, |owner|, owner[k])
    {
    }

    /** Writes the blobs within the size limits, in list order, as many as fit. */
    method ReportBlobs(numBlobs: nat, blobs: array<Blob>, minPts: int, maxPts: int, img: Image,
                       ghost flushed: seq<Totals>) returns (count: nat)
      requires numBlobs <= blobs.Length && img.ratio > 0.0
      requires |flushed| == |preblobs| && forall c :: 0 <= c < |preblobs| ==> preblobs[c].Value() == flushed[c]
      modifies blobs
      ensures var sel := Selected(flushed, minPts, maxPts);
        && count == (if |sel| > numBlobs then numBlobs else |sel|)
        && forall k :: 0 <= k < blobs.Length ==>
             blobs[k] == if k < count then BlobOf(sel[k], img.w, img.h, img.ratio) else old(blobs[k])
      ensures var which := Chosen(flushed, minPts, maxPts);
        && count <= |which|
        && forall k :: 0 <= k < count ==> StandsFor(blobs[k], flushed[which[k]], img.w, img.h, img.ratio)
    {
      var counter := 0;
      for i := 0 to |preblobs|
        invariant counter == |Selected(flushed[..i], minPts, maxPts)|
        invariant forall k :: 0 <= k < blobs.Length ==>
          blobs[k] == if k < counter && k < numBlobs
                      then BlobOf(Selected(flushed[..i], minPts, maxPts)[k], img.w, img.h, img.ratio)
                      else old(blobs[k])
      {
        hide Centred, Quotient;
        var pb := preblobs[i];
        assert pb.Value() == flushed[i];
        assert flushed[..i + 1][..i] == flushed[..i];
        if pb.points < minPts || pb.points > maxPts {
          continue;
        }
        if counter < numBlobs {
          var x := Quotient(pb.sumX, pb.sum);
          var y := Quotient(pb.sumY, pb.sum);
          blobs[counter] := Blob(Centred(img.w, x, img.ratio), Centred(img.h, y, 1.0), pb.points);
        }
        counter := counter + 1;
      }
      assert flushed[..|preblobs|] == flushed;
      count := if counter > numBlobs then numBlobs else counter;
      hide BlobOf, StandsFor, Selected, Chosen;
      SelectedAreChosen(flushed, minPts, maxPts);
      forall k | 0 <= k < count
        ensures StandsFor(blobs[k], flushed[Chosen(flushed, minPts, maxPts)[k]], img.w, img.h, img.ratio)
      {
        BlobStandsFor(flushed[Chosen(flushed, minPts, maxPts)[k]], img.w, img.h, img.ratio);
      }
    }

    /** Ends the frame: reports its components and frees every record. */
    method StripesToBlobs(numBlobs: nat, blobs: array<Blob>, minPts: int, maxPts: int, img: Image)
      returns (result: int, count: nat, ghost flushed: seq<Totals>, ghost comp: seq<int>)
      requires Valid() && numBlobs <= blobs.Length && img.ratio > 0.0
      modifies this`preblobs, this`currentLimit, this`nextLimit, this`currentVline
      modifies `history, `owner, `live, live, blobs
      ensures result == 0 && Valid() && history == [] && preblobs == [] && live == {}
      ensures OneEntryPerComponent(old(history), flushed, comp)
      ensures InLineOrder(old(history)) ==> NumberedByEnd(old(history), comp)
      ensures var sel := Selected(flushed, minPts, maxPts);
        && count == (if |sel| > numBlobs then numBlobs else |sel|)
        && forall k :: 0 <= k < blobs.Length ==>
             blobs[k] == if k < count then BlobOf(sel[k], img.w, img.h, img.ratio) else old(blobs[k])
      ensures |comp| == |old(history)|
      ensures var which := Chosen(flushed, minPts, maxPts);
        && count <= |which|
        && forall k :: 0 <= k < count ==> Balances(blobs[k], old(history), comp, which[k], img)
    {
      hide OneEntryPerComponent, Selected, BlobOf, Sound, Closed, Sum, Occurs, Window, NumberedByEnd;
      hide Chosen, StandsFor, Balances;
      flushed, comp := Flush();
      EntrySums(history, flushed, comp);
      count := ReportBlobs(numBlobs, blobs, minPts, maxPts, img, flushed);
      forall k | 0 <= k < count
        ensures Balances(blobs[k], old(history), comp, Chosen(flushed, minPts, maxPts)[k], img)
      {
        StandsForBalances(blobs[k], old(history), comp, Chosen(flushed, minPts, maxPts)[k], img);
      }
      FreeRecords();
      result := 0;
    }

    method FreeRecords()
      requires current != next && current.Length == next.Length
      requires currentLimit == nextLimit == 0 && currentVline == 0xFFFF_FFFE
      modifies `preblobs, `history, `owner, `live
      ensures Valid() && history == [] && preblobs == [] && live == {}
    {
      preblobs := [];
      history, owner, live := [], [], {};
    }
  }
}

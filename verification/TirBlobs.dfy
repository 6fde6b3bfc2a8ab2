/** From the TrackIR 4 byte stream to blobs: each frame that is read goes through the blob finder. */
module TirBlobs {
  import opened Words
  import opened StripeGraph
  import opened Bitmap
  import opened BlobFinder
  import opened TirPackets

  lemma LinesFitPrefix(h: seq<Stripe>, k: nat, n: nat)
    requires LinesFit(h, n) && k <= |h|
    ensures LinesFit(h[..k], n)
  {
    forall i | 0 <= i < k ensures i - LineStart(h[..k], i) < n {
      LineStartTake(h, k, i);
    }
  }

  lemma {:induction false} LineStartTake(h: seq<Stripe>, k: nat, i: nat)
    requires i < k <= |h|
    ensures LineStart(h[..k], i) == LineStart(h, i)
  {
    if i > 0 && h[i - 1].vline == h[i].vline {
      LineStartTake(h, k, i - 1);
    }
  }

  /** The next stripe has room exactly as long as its line holds no more stripes than a buffer has ranges. */
  lemma RoomForNext(f: Finder, s: Stripe)
    requires f.Valid() && LinesFit(f.history, f.next.Length)
    ensures f.Room(s) <==> LinesFit(f.history + [s], f.next.Length)
  {
    var h := f.history;
    var n := |h|;
    LineOfNewest(h, s);
    forall k | 0 <= k < n ensures LineStart(h + [s], k) == LineStart(h, k) {
      LineStartPrefix(h, s, k);
    }
    assert (h + [s])[n] == s;
    hide LineStart, PrevLineStart;
  }

  ghost predicate AnyInCorner(h: seq<Stripe>, img: Image)
    requires img.Sized()
  {
    exists k :: 0 <= k < |h| && InCorner(h[k], img)
  }

  lemma AnyInCornerStep(h: seq<Stripe>, k: nat, img: Image)
    requires img.Sized() && k < |h|
    ensures AnyInCorner(h[..k + 1], img) <==> AnyInCorner(h[..k], img) || InCorner(h[k], img)
  {
    if AnyInCorner(h[..k], img) {
      var i :| 0 <= i < k && InCorner(h[..k][i], img);
      assert h[..k + 1][i] == h[..k][i];
    }
    if AnyInCorner(h[..k + 1], img) {
      var i :| 0 <= i < k + 1 && InCorner(h[..k + 1][i], img);
      assert i < k ==> h[..k][i] == h[..k + 1][i];
    }
    assert h[..k + 1][k] == h[k];
  }

  /** Files the stripes of a frame in order, up to the first one that the code would write past its buffer. All of
      them are filed exactly when no line holds more stripes than a buffer has ranges. Only a stripe in the bottom right
      corner is marked past the end of the image. */
  method FileFrame(f: Finder, img: Image, stripes: seq<Stripe>) returns (filed: nat)
    requires f.Valid() && f.history == [] && img.Sized()
    modifies f, f.current, f.next, f.live, img.bits, img`overran
    ensures filed <= |stripes| && f.Valid() && f.history == stripes[..filed] && fresh(f.live - old(f.live))
    ensures {f.current, f.next} == old({f.current, f.next})
    ensures LinesFit(stripes[..filed], f.next.Length) && (filed == |stripes| <==> LinesFit(stripes, f.next.Length))
    ensures filed < |stripes| ==> !f.Room(stripes[filed]) && !LinesFit(stripes[..filed + 1], f.next.Length)
    ensures img.bits != null && img.bits.Length == Base(img.h, img.w) ==>
      (img.overran <==> old(img.overran) || AnyInCorner(stripes[..filed], img))
  {
    hide Finder.Valid, Finder.Room, LinesFit, LineStart, InCorner, AnyInCorner;
    SameSizes(f);
    NoneInCorner(img);
    NoneFit(f.next.Length);
    filed := 0;
    while filed < |stripes|
      invariant filed <= |stripes| && f.Valid() && f.history == stripes[..filed] && fresh(f.live - old(f.live))
      invariant {f.current, f.next} == old({f.current, f.next}) && f.next.Length == old(f.next.Length)
      invariant LinesFit(stripes[..filed], f.next.Length)
      invariant img.bits != null && img.bits.Length == Base(img.h, img.w) ==>
        (img.overran <==> old(img.overran) || AnyInCorner(stripes[..filed], img))
    {
      SameSizes(f);
      assert stripes[..filed + 1] == stripes[..filed] + [stripes[filed]];
      RoomForNext(f, stripes[filed]);
      if !f.Room(stripes[filed]) {
        if LinesFit(stripes, f.next.Length) {
          LinesFitPrefix(stripes, filed + 1, f.next.Length);
        }
        return;
      }
      AnyInCornerStep(stripes, filed, img);
      var _ := f.AddStripe(stripes[filed], img);
      SameSizes(f);
      filed := filed + 1;
    }
    assert stripes[..filed] == stripes;
  }

  lemma NoneFit(n: nat)
    ensures LinesFit([], n)
  {
  }

  lemma SameSizes(f: Finder)
    requires f.Valid()
    ensures f.current.Length == f.next.Length
  {
  }

  lemma NoneInCorner(img: Image)
    requires img.Sized()
    ensures !AnyInCorner([], img)
  {
  }

  /** Every frame that a new reader will deliver is in line order. */
  lemma FramesToComeInOrder(transfers: seq<seq<byte>>)
    requires WholeTransfers(transfers)
    ensures forall frame :: frame in Frames(Events(MarksOf(transfers), 0), []) ==> InLineOrder(frame)
  {
    FramesInLineOrder(MarksOf(transfers), 0, []);
  }

  /** Reads a frame and reports its blobs: the entries are the connected components of the stripes of exactly this
      frame, in the order in which they end. Without a frame nothing is lost and nothing reported. A frame with more
      stripes on a line than a buffer has ranges is not completed: filing stops at the stripe that the code would write
      past the buffer. */
  method ReadBlobs(r: Reader, f: Finder, img: Image, numBlobs: nat, blobs: array<Blob>, minPts: int, maxPts: int)
    returns (answer: Answer, complete: bool, count: nat, ghost flushed: seq<Totals>, ghost comp: seq<int>)
    requires r.Valid() && f.Valid() && f.history == [] && img.Sized() && numBlobs <= blobs.Length
    modifies r, r.segmenter, f, f.current, f.next, f.live, img.bits, img`overran, blobs
    ensures r.Valid() && f.Valid()
    ensures if answer.Blobs? then old(r.ToCome()) == [answer.stripes] + r.ToCome() else r.ToCome() == old(r.ToCome())
    ensures complete <==> answer.Blobs? ==> LinesFit(answer.stripes, old(f.next.Length))
    ensures complete ==> f.history == []
    ensures !complete ==> f.history < answer.stripes && !f.Room(answer.stripes[|f.history|])
    ensures complete && answer.Blobs? ==> OneEntryPerComponent(answer.stripes, flushed, comp)
    ensures complete && answer.Blobs? && InLineOrder(answer.stripes) ==> NumberedByEnd(answer.stripes, comp)
    ensures complete && answer.Blobs? ==>
      var sel := Selected(flushed, minPts, maxPts);
      && count == (if |sel| > numBlobs then numBlobs else |sel|)
      && forall k :: 0 <= k < count ==> blobs[k] == BlobOf(sel[k], img.w, img.h, img.ratio)
    ensures complete && answer.Blobs? ==>
      var which := Chosen(flushed, minPts, maxPts);
      && |comp| == |answer.stripes| && count <= |which|
      && forall k :: 0 <= k < count ==> Balances(blobs[k], answer.stripes, comp, which[k], img)
    ensures !answer.Blobs? || !complete ==> count == 0 && blobs[..] == old(blobs[..])
  {
    hide Finder.Valid, Finder.Room, Reader.Valid, Reader.ToCome, LinesFit, OneEntryPerComponent, NumberedByEnd;
    hide Selected, BlobOf, Chosen, Balances;
    flushed, comp, count, complete := [], [], 0, true;
    SameSizes(f);
    answer := r.ReadFrame();
    if answer.Blobs? {
      var filed := FileFrame(f, img, answer.stripes);
      SameSizes(f);
      complete := filed == |answer.stripes|;
      if complete {
        assert answer.stripes[..filed] == answer.stripes;
        var _, n, fl, cm := f.StripesToBlobs(numBlobs, blobs, minPts, maxPts, img);
        count, flushed, comp := n, fl, cm;
      }
    }
  }

  // ---------- a frame that does not fit ----------

  /** The four bytes of a stripe one pixel wide, on line 1 in column 2 * i. */
  function CrowdedWord(i: nat): (w: seq<byte>)
    requires i < 512
    ensures |w| == 4 && w[0] == 1
  {
    var c := 2 * i;
    var high := c / 256;
    [1, c % 256, c % 256, (if high % 2 == 1 then 0xC0 else 0) + if high / 2 == 1 then 0x18 else 0]
  }

  function CrowdedStripe(i: nat): Stripe
    requires i < 512
  {
    Stripe(1, 2 * i, 2 * i, 0, 1, 1)
  }

  lemma CrowdedDecodes(i: nat)
    requires i < 512
    ensures var w := CrowdedWord(i); DecodeStripe(w[0], w[1], w[2], w[3]) == CrowdedStripe(i)
  {
    var high := 2 * i / 256;
    assert high == 0 || high == 1 || high == 2 || high == 3;
  }

  /** A transfer of one packet with one word. */
  function WordPacket(w: seq<byte>): (d: seq<byte>)
    requires |w| == 4
    ensures |d| == 6
  {
    [6, 0x1C] + w
  }

  lemma WordPacketMarks(w: seq<byte>)
    requires |w| == 4
    ensures Whole(WordPacket(w), 0) && AllMarks(WordPacket(w), 0) == [MarkAt(w, 0)]
  {
    var d := WordPacket(w);
    assert d[2] == w[0] && d[3] == w[1] && d[4] == w[2] && d[5] == w[3];
    assert PacketEnd(d, 0) == 6 && Whole(d, 6);
    assert MarksIn(d, 2, 6) == [MarkAt(d, 2)] + MarksIn(d, 6, 6);
    assert AllMarks(d, 6) == [];
  }

  /** Stripes i..n-1 in packets of their own, and then the end of the frame. */
  function CrowdedTransfers(i: nat, n: nat): seq<seq<byte>>
    requires i <= n <= 512
    decreases n - i
  {
    if i == n then [WordPacket([0, 0, 0, 0])] else [WordPacket(CrowdedWord(i))] + CrowdedTransfers(i + 1, n)
  }

  function CrowdedFrame(i: nat, n: nat): (h: seq<Stripe>)
    requires i <= n <= 512
    ensures |h| == n - i && forall k :: 0 <= k < n - i ==> h[k] == CrowdedStripe(i + k)
    decreases n - i
  {
    if i == n then [] else [CrowdedStripe(i)] + CrowdedFrame(i + 1, n)
  }

  lemma {:induction false} CrowdedWhole(i: nat, n: nat)
    requires i <= n <= 512
    ensures WholeTransfers(CrowdedTransfers(i, n))
    decreases n - i
  {
    if i == n {
      WordPacketMarks([0, 0, 0, 0]);
    } else {
      WordPacketMarks(CrowdedWord(i));
      CrowdedWhole(i + 1, n);
    }
  }

  /** These transfers are read as this one frame. */
  lemma {:induction false} CrowdedRead(i: nat, n: nat, line: uint32, open: seq<Stripe>)
    requires i <= n <= 512 && line <= 1 && WholeTransfers(CrowdedTransfers(i, n))
    ensures Frames(Events(MarksOf(CrowdedTransfers(i, n)), line), open) == [open + CrowdedFrame(i, n), []]
    decreases n - i
  {
    hide Events, Frames, DecodeStripe, AllMarks, MarksIn;
    var t := CrowdedTransfers(i, n);
    if i == n {
      WordPacketMarks([0, 0, 0, 0]);
      assert MarksOf(t) == [End] + MarksOf(t[1..]) && MarksOf(t[1..]) == [];
      FramesAfterEnd(MarksOf(t), line, open);
      assert MarksOf(t)[1..] == [];
      NothingToCome();
      assert open + CrowdedFrame(i, n) == open;
    } else {
      var w := CrowdedWord(i);
      WordPacketMarks(w);
      CrowdedDecodes(i);
      CrowdedWhole(i + 1, n);
      assert t[1..] == CrowdedTransfers(i + 1, n);
      var m := MarksOf(t);
      assert m == [Run(CrowdedStripe(i))] + MarksOf(t[1..]) && m[1..] == MarksOf(t[1..]);
      FramesAfterRun(m, line, open);
      CrowdedRead(i + 1, n, 1, open + [CrowdedStripe(i)]);
      assert open + [CrowdedStripe(i)] + CrowdedFrame(i + 1, n) == open + CrowdedFrame(i, n);
    }
  }

  lemma NothingToCome()
    ensures Frames(Events([], 0), []) == [[]]
  {
  }

  lemma {:induction false} OneLine(h: seq<Stripe>, k: nat)
    requires k < |h| && forall i, j :: 0 <= i < j < |h| ==> h[i].vline == h[j].vline
    ensures LineStart(h, k) == 0
  {
    if k > 0 {
      OneLine(h, k - 1);
    }
  }

  /** Ordered, decodable, its runs apart and below column 2 * n - 1, and still it fits only buffers of n ranges. */
  lemma CrowdedFits(n: nat, k: nat)
    requires n <= 512
    ensures InLineOrder(CrowdedFrame(0, n)) && Separate(CrowdedFrame(0, n), 2 * n - 1)
    ensures LinesFit(CrowdedFrame(0, n), k) <==> n <= k
  {
    var h := CrowdedFrame(0, n);
    forall i | 0 <= i < n ensures LineStart(h, i) == 0 {
      OneLine(h, i);
    }
    if n > k {
      assert k - LineStart(h, k) >= k;
    }
  }

  /** Whatever the size of the buffers, up to 511 ranges, there are whole transfers whose first frame overflows them. */
  lemma SomeFrameOverflows(n: nat)
    requires n < 512
    ensures var t := CrowdedTransfers(0, n + 1);
      && WholeTransfers(t)
      && var frame := Frames(Events(MarksOf(t), 0), [])[0];
      InLineOrder(frame) && Separate(frame, 2 * n + 1) && !LinesFit(frame, n)
  {
    hide CrowdedTransfers, CrowdedFrame, Events, Frames, MarksOf, WholeTransfers, InLineOrder, Separate, LinesFit;
    CrowdedWhole(0, n + 1);
    CrowdedRead(0, n + 1, 0, []);
    CrowdedFits(n + 1, n);
    assert [] + CrowdedFrame(0, n + 1) == CrowdedFrame(0, n + 1);
  }

  const TIR4_WIDTH := 400

  /** The buffers of a TrackIR 4 have 201 ranges: 202 runs in every other column do not fit. */
  lemma TrackIr4Overflows()
    ensures var n := TIR4_WIDTH / 2 + 1; var t := CrowdedTransfers(0, n + 1);
      && n == 201 && WholeTransfers(t)
      && !LinesFit(Frames(Events(MarksOf(t), 0), [])[0], n)
  {
    SomeFrameOverflows(201);
  }
}

/** Cutting the TrackIR 4 byte stream into frames of stripes. */
module TirPackets {
  import opened Words
  import opened StripeGraph
  import opened TirDevice
  import Scan

  // ---------- words, stripes and frames ----------

  /** A four-byte word: the end-of-frame marker, or a stripe. */
  datatype Mark = End | Run(stripe: Stripe)

  function Wrap32(x: int): uint32 {
    x % 0x1_0000_0000
  }

  /** The high bits of the coordinates are packed into the fourth byte. */
  function LineOf(b0: byte, b3: byte): uint32 {
    b0 as int + if Flag(b3, 0x20) then 0x100 else 0
  }

  /** Sum of the offsets 0..sum-1, as far as 32 bits go. */
  function OffsetSum(sum: uint32): uint32 {
    var s: int := sum;
    Wrap32(s * (s - 1)) / 2
  }

  function DecodeStripe(b0: byte, b1: byte, b2: byte, b3: byte): Stripe {
    var hstart: uint32 := b1 as int + (if Flag(b3, 0x80) then 0x100 else 0) + if Flag(b3, 0x10) then 0x200 else 0;
    var hstop: uint32 := b2 as int + (if Flag(b3, 0x40) then 0x100 else 0) + if Flag(b3, 0x08) then 0x200 else 0;
    var sum := Wrap32(hstop - hstart + 1);
    Stripe(LineOf(b0, b3), hstart, hstop, OffsetSum(sum), sum, sum)
  }

  /** The four bytes of a stripe: the low bytes of line, first and last column, and their high bits in the fourth. */
  function EncodeStripe(line: nat, first: nat, last: nat): (w: seq<byte>)
    requires line < 512 && first < 1024 && last < 1024
    ensures |w| == 4
  {
    [line % 256, first % 256, last % 256,
     first / 256 % 2 * 0x80 + last / 256 % 2 * 0x40 + line / 256 * 0x20 + first / 512 * 0x10 + last / 512 * 0x08]
  }

  /** Every line below 512 and every column below 1024 comes back. */
  lemma DecodeEncoded(line: nat, first: nat, last: nat)
    requires line < 512 && first < 1024 && last < 1024
    ensures var w := EncodeStripe(line, first, last); var s := DecodeStripe(w[0], w[1], w[2], w[3]);
      s.vline == line && s.hstart == first && s.hstop == last
  {
    var w := EncodeStripe(line, first, last);
    assert w[0] == line % 256 && w[1] == first % 256 && w[2] == last % 256;
    assert line == w[0] + line / 256 * 256;
    HighBits(line / 256, first / 256 % 2, first / 512, last / 256 % 2, last / 512);
    ColumnParts(first);
    ColumnParts(last);
    hide OffsetSum, Flag, Wrap32, EncodeStripe;
  }

  lemma ColumnParts(x: nat)
    requires x < 1024
    ensures 0 <= x / 256 % 2 < 2 && 0 <= x / 512 < 2 && x == x % 256 + x / 256 % 2 * 256 + x / 512 * 512
  {
  }

  lemma HighBits(a: nat, b: nat, c: nat, d: nat, e: nat)
    requires a < 2 && b < 2 && c < 2 && d < 2 && e < 2
    ensures var w: byte := b * 0x80 + d * 0x40 + a * 0x20 + c * 0x10 + e * 0x08;
      && (Flag(w, 0x80) <==> b == 1) && (Flag(w, 0x40) <==> d == 1) && (Flag(w, 0x20) <==> a == 1)
      && (Flag(w, 0x10) <==> c == 1) && (Flag(w, 0x08) <==> e == 1)
  {
  }

  function Triangle(n: nat): nat {
    if n == 0 then 0 else Triangle(n - 1) + (n - 1)
  }

  lemma {:induction false} UnitRun(row: seq<byte>, s: nat, e: nat)
    requires s <= e < |row| && forall k :: s <= k <= e ==> row[k] == 1
    ensures Scan.Weight(row, s, e) == e - s + 1
    ensures Scan.Moment(row, s, e) == Triangle(e - s + 1)
    decreases e
  {
    if s < e {
      UnitRun(row, s, e - 1);
    }
  }

  lemma {:induction false} TriangleIs(n: nat)
    requires n <= 1024
    ensures 2 * Triangle(n) == n * (n - 1) && Triangle(n) <= 1024 * n
  {
    if n > 0 {
      TriangleIs(n - 1);
      assert n * (n - 1) == (n - 1) * (n - 2) + 2 * (n - 1);
    }
  }

  lemma SmallOffsets(n: uint32)
    requires n <= 1024
    ensures OffsetSum(n) == Triangle(n)
  {
    TriangleIs(n);
    hide Triangle;
  }

  lemma DecodedRange(b0: byte, b1: byte, b2: byte, b3: byte)
    ensures var s := DecodeStripe(b0, b1, b2, b3);
      && s.vline < 512 && s.hstart < 1024 && s.hstop < 1024
      && s.sum == s.points && s.sumX == OffsetSum(s.sum)
      && (s.hstart <= s.hstop ==> s.points == s.hstop - s.hstart + 1)
  {
    hide OffsetSum;
  }

  /** A decoded stripe has the sums of a run of pixels of weight one. */
  lemma DecodedRun(b0: byte, b1: byte, b2: byte, b3: byte, row: seq<byte>)
    requires var s := DecodeStripe(b0, b1, b2, b3);
      s.hstart <= s.hstop < |row| && forall k :: s.hstart <= k <= s.hstop ==> row[k] == 1
    ensures var s := DecodeStripe(b0, b1, b2, b3);
      && s.points == s.hstop - s.hstart + 1
      && s.sum == Scan.Weight(row, s.hstart, s.hstop) && s.sumX == Scan.Moment(row, s.hstart, s.hstop)
  {
    hide DecodeStripe, OffsetSum;
    var s := DecodeStripe(b0, b1, b2, b3);
    DecodedRange(b0, b1, b2, b3);
    UnitRun(row, s.hstart, s.hstop);
    SmallOffsets(s.sum);
  }

  function MarkAt(d: seq<byte>, at: nat): Mark
    requires at + 4 <= |d|
  {
    if d[at] == d[at + 1] == d[at + 2] == d[at + 3] == 0 then End
    else Run(DecodeStripe(d[at], d[at + 1], d[at + 2], d[at + 3]))
  }

  /** The words between two offsets. */
  function MarksIn(d: seq<byte>, from: nat, limit: nat): seq<Mark>
    requires from < limit ==> (limit - from) % 4 == 0 && limit <= |d|
    decreases limit - from
  {
    if from >= limit then [] else [MarkAt(d, from)] + MarksIn(d, from + 4, limit)
  }

  datatype Event = Cut | Add(stripe: Stripe)

  function NextLine(m: Mark): uint32 {
    if m.End? then 0 else m.stripe.vline
  }

  /** A marker ends the frame; so does a line number below the current one, and then the stripe belongs to the
      next frame. */
  function Emit(m: Mark, line: uint32): seq<Event> {
    if m.End? then [Cut] else if m.stripe.vline < line then [Cut, Add(m.stripe)] else [Add(m.stripe)]
  }

  /** What the word stream means. */
  function Events(m: seq<Mark>, line: uint32): seq<Event> {
    if |m| == 0 then [] else Emit(m[0], line) + Events(m[1..], NextLine(m[0]))
  }

  function Adds(stripes: seq<Stripe>): seq<Event> {
    seq(|stripes|, i requires 0 <= i < |stripes| => Add(stripes[i]))
  }

  function Stripes(m: seq<Mark>): seq<Stripe> {
    if |m| == 0 then [] else (if m[0].Run? then [m[0].stripe] else []) + Stripes(m[1..])
  }

  /** Frames: the stripes between cuts; the last one is still open. */
  function Frames(events: seq<Event>, open: seq<Stripe>): (f: seq<seq<Stripe>>)
    ensures |f| > 0
  {
    if |events| == 0 then [open]
    else if events[0].Cut? then [open] + Frames(events[1..], [])
    else Frames(events[1..], open + [events[0].stripe])
  }

  function Concat(f: seq<seq<Stripe>>): seq<Stripe> {
    if |f| == 0 then [] else f[0] + Concat(f[1..])
  }

  ghost predicate OrderedFrom(s: seq<Stripe>, line: uint32) {
    InLineOrder(s) && forall k :: 0 <= k < |s| ==> s[k].vline <= line
  }

  /** Every frame is nondecreasing in line number. */
  lemma {:induction false} FramesInLineOrder(m: seq<Mark>, line: uint32, open: seq<Stripe>)
    requires OrderedFrom(open, line)
    ensures forall f :: f in Frames(Events(m, line), open) ==> InLineOrder(f)
  {
    if |m| > 0 {
      if m[0].End? {
        FramesInLineOrder(m[1..], 0, []);
      } else {
        var s := m[0].stripe;
        var kept := if s.vline < line then [] else open;
        FramesInLineOrder(m[1..], s.vline, kept + [s]);
        FramesAfterRun(m, line, open);
      }
    }
  }

  lemma FramesAfterRun(m: seq<Mark>, line: uint32, open: seq<Stripe>)
    requires |m| > 0 && m[0].Run?
    ensures var s := m[0].stripe; var rest := Events(m[1..], s.vline);
      Frames(Events(m, line), open) ==
        if s.vline < line then [open] + Frames(rest, [s]) else Frames(rest, open + [s])
  {
    var s := m[0].stripe;
    var rest := Events(m[1..], s.vline);
    assert Events(m, line) == Emit(m[0], line) + rest;
    FramesOfAdd(s, rest, if s.vline < line then [] else open);
    hide Events;
    if s.vline < line {
      assert (Emit(m[0], line) + rest)[1..] == [Add(s)] + rest;
      assert [] + [s] == [s];
    } else {
      assert Emit(m[0], line) + rest == [Add(s)] + rest;
    }
  }

  lemma FramesOfAdd(s: Stripe, rest: seq<Event>, open: seq<Stripe>)
    ensures Frames([Add(s)] + rest, open) == Frames(rest, open + [s])
  {
    assert ([Add(s)] + rest)[1..] == rest;
  }

  lemma FramesAfterEnd(m: seq<Mark>, line: uint32, open: seq<Stripe>)
    requires |m| > 0 && m[0].End?
    ensures Frames(Events(m, line), open) == [open] + Frames(Events(m[1..], 0), [])
  {
    assert Events(m, line)[1..] == Events(m[1..], 0);
  }

  lemma ConcatCons(s: seq<Stripe>, f: seq<seq<Stripe>>)
    ensures Concat([s] + f) == s + Concat(f)
  {
    assert ([s] + f)[1..] == f;
  }

  /** No stripe is lost, repeated or moved. */
  lemma {:induction false} FramesKeepStripes(m: seq<Mark>, line: uint32, open: seq<Stripe>)
    ensures Concat(Frames(Events(m, line), open)) == open + Stripes(m)
  {
    hide Events;
    hide Concat;
    if |m| == 0 {
      FramesOfNone(line, open);
    } else if m[0].End? {
      hide Frames;
      FramesKeepStripes(m[1..], 0, []);
      FramesAfterEnd(m, line, open);
      ConcatCons(open, Frames(Events(m[1..], 0), []));
    } else {
      hide Frames;
      var s := m[0].stripe;
      var kept := if s.vline < line then [] else open;
      FramesKeepStripes(m[1..], s.vline, kept + [s]);
      FramesAfterRun(m, line, open);
      ConcatCons(open, Frames(Events(m[1..], s.vline), kept + [s]));
      assert [] + [s] == [s];
      assert open + ([s] + Stripes(m[1..])) == (open + [s]) + Stripes(m[1..]);
    }
  }

  lemma FramesOfNone(line: uint32, open: seq<Stripe>)
    ensures Concat(Frames(Events([], line), open)) == open
  {
    assert [open][1..] == [];
  }

  ghost function Runs(stripes: seq<Stripe>): (m: seq<Mark>)
    ensures |m| == |stripes| && forall i :: 0 <= i < |m| ==> m[i] == Run(stripes[i])
  {
    seq(|stripes|, i requires 0 <= i < |stripes| => Run(stripes[i]))
  }

  /** The frames one after the other, with an end marker after each one that is marked. */
  ghost function Sequel(frames: seq<seq<Stripe>>, marked: seq<bool>): seq<Mark>
    requires |frames| == |marked| + 1
  {
    Runs(frames[0]) +
    if |marked| == 0 then [] else (if marked[0] then [End] else []) + Sequel(frames[1..], marked[1..])
  }

  /** The next frame starts on a line above the last one of this frame. */
  ghost predicate StepsBack(frame: seq<Stripe>, next: seq<Stripe>) {
    |frame| > 0 && |next| > 0 && next[0].vline < frame[|frame| - 1].vline
  }

  /** The words are those frames, each in line order, cut exactly at the end markers and where the line steps back. */
  ghost predicate CutAs(m: seq<Mark>, frames: seq<seq<Stripe>>, marked: seq<bool>) {
    && |frames| == |marked| + 1 && m == Sequel(frames, marked)
    && (forall i :: 0 <= i < |frames| ==> InLineOrder(frames[i]))
    && (forall i :: 0 <= i < |marked| && !marked[i] ==> StepsBack(frames[i], frames[i + 1]))
  }

  ghost function LineOfOpen(open: seq<Stripe>): uint32 {
    if |open| == 0 then 0 else open[|open| - 1].vline
  }

  lemma {:induction false} OpenComesFirst(events: seq<Event>, open: seq<Stripe>)
    ensures open <= Frames(events, open)[0]
  {
    if |events| > 0 && events[0].Add? {
      OpenComesFirst(events[1..], open + [events[0].stripe]);
    }
  }

  lemma CutBefore(open: seq<Stripe>, m: seq<Mark>, frames: seq<seq<Stripe>>, marked: seq<bool>, mark: bool)
    requires InLineOrder(open) && CutAs(m, frames, marked) && (!mark ==> StepsBack(open, frames[0]))
    ensures CutAs(Runs(open) + ((if mark then [End] else []) + m), [open] + frames, [mark] + marked)
  {
    var f, k := [open] + frames, [mark] + marked;
    assert f[1..] == frames && k[1..] == marked;
    forall i | 0 <= i < |k| && !k[i] ensures StepsBack(f[i], f[i + 1]) {
      if i > 0 {
        assert !marked[i - 1];
      }
    }
  }

  /** The frames of a word stream are exactly its parts between the cuts. */
  lemma {:induction false} FramesAreCut(m: seq<Mark>, open: seq<Stripe>) returns (marked: seq<bool>)
    requires InLineOrder(open)
    ensures CutAs(Runs(open) + m, Frames(Events(m, LineOfOpen(open)), open), marked)
    decreases |m|
  {
    hide CutAs, InLineOrder, StepsBack, Runs;
    if |m| == 0 {
      marked := [];
      NoCut(open);
      assert Runs(open) + m == Runs(open);
    } else if m[0].End? {
      OpenRuns([]);
      var rest := FramesAreCut(m[1..], []);
      FramesAfterEnd(m, LineOfOpen(open), open);
      assert Runs([]) + m[1..] == m[1..];
      assert m == [End] + m[1..];
      CutBefore(open, m[1..], Frames(Events(m[1..], 0), []), rest, true);
      marked := [true] + rest;
    } else {
      var s := m[0].stripe;
      FramesAfterRun(m, LineOfOpen(open), open);
      if s.vline < LineOfOpen(open) {
        OpenRuns([s]);
        var rest := FramesAreCut(m[1..], [s]);
        var later := Frames(Events(m[1..], s.vline), [s]);
        OpenComesFirst(Events(m[1..], s.vline), [s]);
        Back(open, later[0], s);
        assert Runs([s]) + m[1..] == m == [] + m;
        CutBefore(open, m, later, rest, false);
        marked := [false] + rest;
      } else {
        OpenGrows(open, s);
        marked := FramesAreCut(m[1..], open + [s]);
        assert Runs(open + [s]) == Runs(open) + [m[0]];
        assert Runs(open) + [m[0]] + m[1..] == Runs(open) + m;
      }
    }
  }

  lemma NoCut(open: seq<Stripe>)
    requires InLineOrder(open)
    ensures CutAs(Runs(open), Frames(Events([], LineOfOpen(open)), open), [])
  {
    assert Events([], LineOfOpen(open)) == [];
  }

  lemma OpenRuns(open: seq<Stripe>)
    requires |open| <= 1
    ensures InLineOrder(open)
  {
  }

  lemma OpenGrows(open: seq<Stripe>, s: Stripe)
    requires InLineOrder(open) && s.vline >= LineOfOpen(open)
    ensures InLineOrder(open + [s])
  {
  }

  lemma Back(open: seq<Stripe>, next: seq<Stripe>, s: Stripe)
    requires s.vline < LineOfOpen(open) && [s] <= next
    ensures StepsBack(open, next)
  {
  }

  /** The current line after a word stream. */
  function LineAfter(m: seq<Mark>, line: uint32): uint32 {
    if |m| == 0 then line else NextLine(m[|m| - 1])
  }

  lemma EventsCons(m: seq<Mark>, line: uint32)
    requires |m| > 0
    ensures Events(m, line) == Emit(m[0], line) + Events(m[1..], NextLine(m[0]))
  {
  }

  lemma EventsStep(d: seq<byte>, at: nat, limit: nat, line: uint32)
    requires at < limit <= |d| && (limit - at) % 4 == 0
    ensures Events(MarksIn(d, at, limit), line) ==
      Emit(MarkAt(d, at), line) + Events(MarksIn(d, at + 4, limit), NextLine(MarkAt(d, at)))
  {
    EventsCons(MarksIn(d, at, limit), line);
    hide Events;
  }

  lemma CutFirst(d: seq<byte>, at: nat, limit: nat, line: uint32)
    requires at < limit <= |d| && (limit - at) % 4 == 0
    requires MarkAt(d, at).Run? && MarkAt(d, at).stripe.vline < line
    ensures Events(MarksIn(d, at, limit), line) == [Cut] + Events(MarksIn(d, at, limit), MarkAt(d, at).stripe.vline)
  {
    EventsStep(d, at, limit, line);
    EventsStep(d, at, limit, MarkAt(d, at).stripe.vline);
    hide Events;
  }

  lemma NoMarks(d: seq<byte>, at: nat, limit: nat)
    requires at >= limit
    ensures MarksIn(d, at, limit) == []
  {
  }

  lemma LineAfterStep(d: seq<byte>, at: nat, limit: nat, line: uint32)
    requires at < limit <= |d| && (limit - at) % 4 == 0
    ensures LineAfter(MarksIn(d, at, limit), line) == LineAfter(MarksIn(d, at + 4, limit), NextLine(MarkAt(d, at)))
    ensures forall other: uint32 {:trigger LineAfter(MarksIn(d, at, limit), other)} ::
      LineAfter(MarksIn(d, at, limit), other) == LineAfter(MarksIn(d, at, limit), line)
  {
    var m := MarksIn(d, at, limit);
    assert m == [MarkAt(d, at)] + MarksIn(d, at + 4, limit);
    hide MarksIn;
  }

  lemma AddsAppend(a: seq<Stripe>, b: seq<Stripe>)
    ensures Adds(a + b) == Adds(a) + Adds(b)
  {
  }

  lemma AddsNone()
    ensures Adds([]) == []
  {
  }

  lemma DecodedLine(d: seq<byte>, at: nat)
    requires at + 4 <= |d| && MarkAt(d, at).Run?
    ensures MarkAt(d, at).stripe.vline == LineOf(d[at], d[at + 3])
  {
  }

  lemma LineAfterAppend(a: seq<Mark>, b: seq<Mark>, line: uint32)
    ensures LineAfter(a + b, line) == LineAfter(b, LineAfter(a, line))
  {
    if |b| == 0 {
      assert a + b == a;
    }
  }

  /** Where a cut falls depends only on the word before it. */
  lemma {:induction false} EventsAppend(a: seq<Mark>, b: seq<Mark>, line: uint32)
    ensures Events(a + b, line) == Events(a, line) + Events(b, LineAfter(a, line))
  {
    hide Events, Emit;
    if |a| == 0 {
      assert a + b == b;
      EventsNone(line);
    } else {
      var next := NextLine(a[0]);
      EventsAppend(a[1..], b, next);
      assert (a + b)[1..] == a[1..] + b;
      EventsCons(a + b, line);
      EventsCons(a, line);
      assert LineAfter(a[1..], next) == LineAfter(a, line);
    }
  }

  lemma EventsNone(line: uint32)
    ensures Events([], line) == []
  {
  }

  // ---------- packets ----------

  /** Offset just past the packet at `at`: its length byte, and two pad bytes after a full stripe packet. */
  function PacketEnd(d: seq<byte>, at: nat): nat
    requires at + 2 <= |d|
  {
    at + d[at] + if d[at + 1] == 0x1C && d[at] == 0x3E then 2 else 0
  }

  /** A packet type that none of the devices sends; the rest of such a transfer is dropped. */
  predicate Unknown(packetType: int) {
    packetType !in {0x20, 0x40, 0x1C, 0x10, 0x00, 0x04}
  }

  /** From `at` on, the transfer consists of whole packets: status, device information, or stripes, the last
      with at least one word; up to its end or to a packet of unknown type. */
  ghost predicate Whole(d: seq<byte>, at: nat)
    requires at <= |d|
    decreases |d| - at
  {
    at < |d| ==>
      && at + 2 <= |d|
      && (!Unknown(d[at + 1]) ==>
            && d[at] >= 2 && d[at + 1] in {0x20, 0x40, 0x1C}
            && (d[at + 1] == 0x1C ==> d[at] >= 6 && d[at] % 4 == 2)
            && PacketEnd(d, at) <= |d|
            && Whole(d, PacketEnd(d, at)))
  }

  /** All words of the stripe packets from `at` on. */
  ghost function AllMarks(d: seq<byte>, at: nat): seq<Mark>
    requires at <= |d| && Whole(d, at)
    decreases |d| - at
  {
    if at == |d| || Unknown(d[at + 1]) then []
    else (if d[at + 1] == 0x1C then MarksIn(d, at + 2, at + d[at]) else []) + AllMarks(d, PacketEnd(d, at))
  }

  // ---------- transfers made of packets ----------

  type DeviceWord = w: seq<byte> | |w| == 4 witness [0, 0, 0, 0]

  /** A packet of stripe words, with the two bytes that follow a full one, or one of another known kind. */
  datatype Parcel = StripeWords(words: seq<DeviceWord>, pad: (byte, byte)) | Info(kind: byte, body: seq<byte>) {
    predicate Sendable() {
      if Info? then kind in {0x20, 0x40} && |body| <= 253 else 1 <= |words| <= 15
    }

    function Bytes(): seq<byte>
      requires Sendable()
    {
      match this
      case StripeWords(words, pad) =>
        [2 + 4 * |words|, 0x1C] + LaidOut(words) + if |words| == 15 then [pad.0, pad.1] else []
      case Info(kind, body) => [2 + |body|, kind] + body
    }

    ghost function Marks(): seq<Mark> {
      if Info? then [] else Meanings(words)
    }
  }

  function LaidOut(words: seq<DeviceWord>): (b: seq<byte>)
    ensures |b| == 4 * |words|
  {
    if |words| == 0 then [] else words[0] + LaidOut(words[1..])
  }

  ghost function Meanings(words: seq<DeviceWord>): seq<Mark> {
    if |words| == 0 then []
    else
      var w := words[0];
      [if w == [0, 0, 0, 0] then End else Run(DecodeStripe(w[0], w[1], w[2], w[3]))] + Meanings(words[1..])
  }

  predicate AllSendable(parcels: seq<Parcel>) {
    forall i :: 0 <= i < |parcels| ==> parcels[i].Sendable()
  }

  function TransferOf(parcels: seq<Parcel>): seq<byte>
    requires AllSendable(parcels)
  {
    if |parcels| == 0 then [] else parcels[0].Bytes() + TransferOf(parcels[1..])
  }

  ghost function MarksOfParcels(parcels: seq<Parcel>): seq<Mark> {
    if |parcels| == 0 then [] else parcels[0].Marks() + MarksOfParcels(parcels[1..])
  }

  lemma {:induction false} WordsReadBack(d: seq<byte>, at: nat, words: seq<DeviceWord>)
    requires at + 4 * |words| <= |d| && d[at..at + 4 * |words|] == LaidOut(words)
    ensures MarksIn(d, at, at + 4 * |words|) == Meanings(words)
    decreases |words|
  {
    hide DecodeStripe;
    if |words| > 0 {
      var w := words[0];
      var bytes := d[at..at + 4 * |words|];
      assert bytes[..4] == w && bytes[4..] == LaidOut(words[1..]);
      assert d[at] == bytes[0] && d[at + 1] == bytes[1] && d[at + 2] == bytes[2] && d[at + 3] == bytes[3];
      assert d[at + 4..at + 4 + 4 * |words[1..]|] == bytes[4..];
      WordsReadBack(d, at + 4, words[1..]);
    }
  }

  lemma SliceOfSlice(d: seq<byte>, at: nat, end: nat, i: nat, j: nat)
    requires i <= j && at + j <= end <= |d|
    ensures d[at..end][i..j] == d[at + i..at + j]
  {
    assert forall k :: 0 <= k < j - i ==> d[at..end][i..j][k] == d[at + i + k] == d[at + i..at + j][k];
  }

  lemma StripesReadBack(d: seq<byte>, at: nat, p: Parcel, end: nat)
    requires p.StripeWords? && p.Sendable() && end == at + |p.Bytes()| <= |d| && d[at..end] == p.Bytes()
    requires Whole(d, end)
    ensures Whole(d, at) && AllMarks(d, at) == p.Marks() + AllMarks(d, end)
  {
    hide MarksIn, Meanings, DecodeStripe, LaidOut;
    var bytes, n := p.Bytes(), 4 * |p.words|;
    assert d[at] == bytes[0] == 2 + n && d[at + 1] == bytes[1] == 0x1C;
    assert PacketEnd(d, at) == end;
    assert bytes[2..2 + n] == LaidOut(p.words);
    SliceOfSlice(d, at, end, 2, 2 + n);
    WordsReadBack(d, at + 2, p.words);
  }

  lemma InfoReadsBack(d: seq<byte>, at: nat, p: Parcel, end: nat)
    requires p.Info? && p.Sendable() && end == at + |p.Bytes()| <= |d| && d[at..end] == p.Bytes()
    requires Whole(d, end)
    ensures Whole(d, at) && AllMarks(d, at) == p.Marks() + AllMarks(d, end)
  {
    hide MarksIn;
    assert d[at] == p.Bytes()[0] && d[at + 1] == p.Bytes()[1];
  }

  /** A transfer of such packets is whole, and its words are those of its packets in order. */
  lemma {:induction false} PacketsReadBack(before: seq<byte>, parcels: seq<Parcel>)
    requires AllSendable(parcels)
    ensures var d := before + TransferOf(parcels);
      Whole(d, |before|) && AllMarks(d, |before|) == MarksOfParcels(parcels)
    decreases |parcels|
  {
    if |parcels| > 0 {
      hide Whole, AllMarks, Parcel.Bytes, Parcel.Marks;
      var d, p := before + TransferOf(parcels), parcels[0];
      var rest := before + p.Bytes();
      assert d == rest + TransferOf(parcels[1..]);
      PacketsReadBack(rest, parcels[1..]);
      assert d[|before|..|rest|] == p.Bytes();
      if p.Info? {
        InfoReadsBack(d, |before|, p, |rest|);
      } else {
        StripesReadBack(d, |before|, p, |rest|);
      }
    }
  }

  class Segmenter {
    var packetType: int      // -1 between packets
    var limit: nat
    var packetSize: int
    var currentLine: uint32
    var frame: seq<Stripe>   // the stripes handed on since the last frame was taken

    constructor ()
      ensures packetType == -1 && currentLine == 0 && frame == []
    {
      packetType, limit, packetSize, currentLine, frame := -1, 0, 0, 0, [];
    }

    /** Between packets, or inside a stripe packet with words still to come. */
    ghost predicate At(d: seq<byte>, ptr: nat)
      reads `packetType, `limit, `packetSize
    {
      if packetType == -1 then ptr <= |d| && Whole(d, ptr)
      else
        && packetType == 0x1C && ptr < limit && (limit - ptr) % 4 == 0
        && Skip() <= |d| && Whole(d, Skip())
    }

    ghost function Skip(): nat
      reads `packetType, `limit, `packetSize
    {
      limit + if packetSize == 0x3E then 2 else 0
    }

    /** The words still to be read in this transfer. */
    ghost function Pending(d: seq<byte>, ptr: nat): seq<Mark>
      requires At(d, ptr)
      reads `packetType, `limit, `packetSize
    {
      if packetType == -1 then AllMarks(d, ptr) else MarksIn(d, ptr, limit) + AllMarks(d, Skip())
    }

    /** The blob finder takes the frame and starts afresh. */
    method TakeFrame()
      modifies `frame
      ensures frame == []
    {
      frame := [];
    }

    method IsNextFrame(b0: byte, b3: byte) returns (res: bool)
      modifies `currentLine
      ensures currentLine == LineOf(b0, b3)
      ensures res == (LineOf(b0, b3) < old(currentLine))
    {
      var vline: uint32 := b0 as int + if Flag(b3, 0x20) then 0x100 else 0;
      res := vline < currentLine;
      currentLine := vline;
    }

    method ProcessStripe(b0: byte, b1: byte, b2: byte, b3: byte)
      modifies `frame
      ensures frame == old(frame) + [DecodeStripe(b0, b1, b2, b3)]
    {
      var vline: uint32, hstart: uint32, hstop: uint32 := b0, b1, b2;
      if Flag(b3, 0x20) { vline := vline + 0x100; }
      if Flag(b3, 0x80) { hstart := hstart + 0x100; }
      if Flag(b3, 0x40) { hstop := hstop + 0x100; }
      if Flag(b3, 0x10) { hstart := hstart + 0x200; }
      if Flag(b3, 0x08) { hstop := hstop + 0x200; }
      var sum := Wrap32(hstop - hstart + 1);
      frame := frame + [Stripe(vline, hstart, hstop, OffsetSum(sum), sum, sum)];
    }

    /** One word: a cut, or a stripe handed on. A stripe that opens the next frame cuts but stays unread. */
    method ProcessWord(d: seq<byte>, at: nat) returns (cut: bool, ptr: nat, ghost step: seq<Stripe>)
      requires at < limit <= |d| && (limit - at) % 4 == 0
      modifies `currentLine, `frame
      ensures frame == old(frame) + step && (ptr == at + 4 || (cut && ptr == at))
      ensures ptr < limit ==> (limit - ptr) % 4 == 0
      ensures Events(MarksIn(d, at, limit), old(currentLine)) ==
        Adds(step) + (if cut then [Cut] else []) + Events(MarksIn(d, ptr, limit), currentLine)
      ensures LineAfter(MarksIn(d, at, limit), old(currentLine)) == LineAfter(MarksIn(d, ptr, limit), currentLine)
    {
      hide LineAfter, Events, MarksIn, DecodeStripe;
      ghost var mark := MarkAt(d, at);
      EventsStep(d, at, limit, currentLine);
      LineAfterStep(d, at, limit, currentLine);
      step := [];
      if d[at] == 0 && d[at + 1] == 0 && d[at + 2] == 0 && d[at + 3] == 0 {
        currentLine := 0;
        return true, at + 4, [];
      }
      DecodedLine(d, at);
      if mark.stripe.vline < currentLine {
        CutFirst(d, at, limit, currentLine);
      }
      cut := IsNextFrame(d[at], d[at + 3]);
      if cut {
        return true, at, [];
      }
      ProcessStripe(d[at], d[at + 1], d[at + 2], d[at + 3]);
      return false, at + 4, [mark.stripe];
    }

    /** Reads words up to a cut or the packet's end. */
    method ProcessWords(d: seq<byte>, from: nat) returns (haveFrame: bool, ptr: nat, ghost added: seq<Stripe>)
      requires from < limit <= |d| && (limit - from) % 4 == 0
      modifies `currentLine, `frame
      ensures frame == old(frame) + added
      ensures from <= ptr && if ptr < limit then haveFrame && (limit - ptr) % 4 == 0 else ptr == Skip()
      ensures Events(MarksIn(d, from, limit), old(currentLine)) ==
        Adds(added) + (if haveFrame then [Cut] else []) + Events(MarksIn(d, ptr, limit), currentLine)
      ensures LineAfter(MarksIn(d, from, limit), old(currentLine)) == LineAfter(MarksIn(d, ptr, limit), currentLine)
    {
      hide LineAfter, Events, MarksIn, Adds;
      AddsNone();
      ptr := from;
      var goOn := true;
      haveFrame := false;
      added := [];
      while goOn
        invariant frame == old(frame) + added
        invariant from <= ptr && (goOn ==> !haveFrame && ptr < limit)
        invariant !goOn ==> if ptr < limit then haveFrame else ptr == Skip()
        invariant ptr < limit ==> (limit - ptr) % 4 == 0
        invariant Events(MarksIn(d, from, limit), old(currentLine)) ==
          Adds(added) + (if haveFrame then [Cut] else []) + Events(MarksIn(d, ptr, limit), currentLine)
        invariant LineAfter(MarksIn(d, from, limit), old(currentLine)) == LineAfter(MarksIn(d, ptr, limit), currentLine)
        decreases goOn, limit - ptr
      {
        ghost var step: seq<Stripe>;
        haveFrame, ptr, step := ProcessWord(d, ptr);
        AddsAppend(added, step);
        added := added + step;
        if haveFrame {
          goOn := false;
        }
        if ptr >= limit {
          goOn := false;
          NoMarks(d, ptr, limit);
          if packetSize == 0x3E {
            ptr := ptr + 2;
          }
          NoMarks(d, ptr, limit);
        }
      }
    }

    method OpenPacket(d: seq<byte>, at: nat) returns (known: bool, ptr: nat)
      requires packetType == -1 && at < |d| && Whole(d, at)
      modifies `packetType, `packetSize, `limit
      ensures !known ==> packetType == -1 && ptr == |d| && AllMarks(d, at) == AllMarks(d, |d|) == []
      ensures known ==> packetType in {0x20, 0x40, 0x1C} && ptr == at + 2 <= |d|
      ensures known && packetType == 0x1C ==> At(d, ptr) && Pending(d, ptr) == AllMarks(d, at)
      ensures known && packetType != 0x1C ==> ptr <= limit <= |d| && Whole(d, limit)
      ensures known && packetType != 0x1C ==> AllMarks(d, limit) == AllMarks(d, at)
    {
      hide MarksIn;
      packetType := d[at + 1];
      if Unknown(packetType) {
        packetType := -1;
        return false, |d|;
      }
      packetSize := d[at];
      limit := at + packetSize;
      return true, at + 2;
    }

    method StripePacket(d: seq<byte>, from: nat) returns (haveFrame: bool, ptr: nat, ghost added: seq<Stripe>)
      requires packetType == 0x1C && At(d, from)
      modifies this
      ensures At(d, ptr) && from <= ptr <= |d| && frame == old(frame) + added
      ensures !haveFrame ==> ptr > from && packetType == -1
      ensures Events(old(Pending(d, from)), old(currentLine)) ==
        Adds(added) + (if haveFrame then [Cut] else []) + Events(Pending(d, ptr), currentLine)
      ensures LineAfter(old(Pending(d, from)), old(currentLine)) == LineAfter(Pending(d, ptr), currentLine)
    {
      hide Events, MarksIn, Adds, AllMarks, LineAfter, Whole;
      ghost var rest := AllMarks(d, Skip());
      EventsAppend(MarksIn(d, from, limit), rest, currentLine);
      LineAfterAppend(MarksIn(d, from, limit), rest, currentLine);
      haveFrame, ptr, added := ProcessWords(d, from);
      EventsAppend(MarksIn(d, ptr, limit), rest, currentLine);
      LineAfterAppend(MarksIn(d, ptr, limit), rest, currentLine);
      if ptr >= limit {
        NoMarks(d, ptr, limit);
        packetType := -1;
        assert Pending(d, ptr) == MarksIn(d, ptr, limit) + rest;
      } else {
        assert haveFrame;
        assert Pending(d, ptr) == MarksIn(d, ptr, limit) + rest;
      }
    }

    lemma AtEnd(d: seq<byte>)
      requires packetType == -1
      ensures At(d, |d|) && Pending(d, |d|) == AllMarks(d, |d|)
    {
    }

    /** The rest of the packet being read, or one more packet, up to a cut. */
    method OnePacket(d: seq<byte>, from: nat) returns (haveFrame: bool, ptr: nat, ghost added: seq<Stripe>)
      requires from < |d| && At(d, from)
      modifies this
      ensures ptr <= |d| && At(d, ptr) && frame == old(frame) + added
      ensures !haveFrame ==> ptr > from
      ensures Events(old(Pending(d, from)), old(currentLine)) ==
        Adds(added) + (if haveFrame then [Cut] else []) + Events(Pending(d, ptr), currentLine)
      ensures LineAfter(old(Pending(d, from)), old(currentLine)) == LineAfter(Pending(d, ptr), currentLine)
    {
      hide Events, MarksIn, Adds, AllMarks, LineAfter, Whole;
      ptr := from;
      if packetType == -1 {
        var known;
        known, ptr := OpenPacket(d, from);
        if !known {
          AddsNone();
          AtEnd(d);
          return false, ptr, [];
        }
      }
      if packetType == 0x1C {
        haveFrame, ptr, added := StripePacket(d, ptr);
        return;
      }
      AddsNone();
      packetType := -1;
      return false, limit, [];
    }

    /** Reads on to the next cut or the end of the transfer, resuming inside a packet where the last call
        stopped. */
    method ProcessPacket(d: seq<byte>, from: nat) returns (haveFrame: bool, ptr: nat, ghost added: seq<Stripe>)
      requires from <= |d| && At(d, from)
      modifies this
      ensures ptr <= |d| && At(d, ptr) && frame == old(frame) + added
      ensures !haveFrame ==> ptr == |d|
      ensures Events(old(Pending(d, from)), old(currentLine)) ==
        Adds(added) + (if haveFrame then [Cut] else []) + Events(Pending(d, ptr), currentLine)
      ensures LineAfter(old(Pending(d, from)), old(currentLine)) == LineAfter(Pending(d, ptr), currentLine)
    {
      hide Events, Adds, LineAfter, At, Pending;
      AddsNone();
      ptr, haveFrame, added := from, false, [];
      while ptr < |d|
        invariant ptr <= |d| && At(d, ptr) && frame == old(frame) + added
        invariant Events(old(Pending(d, from)), old(currentLine)) == Adds(added) + Events(Pending(d, ptr), currentLine)
        invariant LineAfter(old(Pending(d, from)), old(currentLine)) == LineAfter(Pending(d, ptr), currentLine)
        decreases |d| - ptr
      {
        ghost var more: seq<Stripe>;
        haveFrame, ptr, more := OnePacket(d, ptr);
        AddsAppend(added, more);
        added := added + more;
        if haveFrame {
          return;
        }
      }
      haveFrame := false;
    }
  }

  // ---------- reading frame after frame ----------

  lemma FramesAfterCut(added: seq<Stripe>, rest: seq<Event>, open: seq<Stripe>)
    ensures Frames(Adds(added) + [Cut] + rest, open) == [open + added] + Frames(rest, [])
  {
    FramesAfterAdds(added, [Cut] + rest, open);
    assert Adds(added) + [Cut] + rest == Adds(added) + ([Cut] + rest);
    assert ([Cut] + rest)[1..] == rest;
  }

  lemma {:induction false} FramesAfterAdds(added: seq<Stripe>, rest: seq<Event>, open: seq<Stripe>)
    ensures Frames(Adds(added) + rest, open) == Frames(rest, open + added)
  {
    if |added| == 0 {
      assert Adds(added) + rest == rest && open + added == open;
    } else {
      var s := added[0];
      assert Adds(added) + rest == [Add(s)] + (Adds(added[1..]) + rest);
      FramesOfAdd(s, Adds(added[1..]) + rest, open);
      FramesAfterAdds(added[1..], rest, open + [s]);
      assert open + [s] + added[1..] == open + added;
    }
  }

  ghost predicate WholeTransfers(transfers: seq<seq<byte>>) {
    forall t :: t in transfers ==> Whole(t, 0)
  }

  ghost function MarksOf(transfers: seq<seq<byte>>): seq<Mark>
    requires WholeTransfers(transfers)
  {
    if |transfers| == 0 then [] else AllMarks(transfers[0], 0) + MarksOf(transfers[1..])
  }

  predicate AllListsSendable(lists: seq<seq<Parcel>>) {
    forall i :: 0 <= i < |lists| ==> AllSendable(lists[i])
  }

  function TransfersOf(lists: seq<seq<Parcel>>): seq<seq<byte>>
    requires AllListsSendable(lists)
  {
    if |lists| == 0 then [] else [TransferOf(lists[0])] + TransfersOf(lists[1..])
  }

  ghost function MarksOfLists(lists: seq<seq<Parcel>>): seq<Mark> {
    if |lists| == 0 then [] else MarksOfParcels(lists[0]) + MarksOfLists(lists[1..])
  }

  lemma {:induction false} TransfersReadBack(lists: seq<seq<Parcel>>)
    requires AllListsSendable(lists)
    ensures WholeTransfers(TransfersOf(lists)) && MarksOf(TransfersOf(lists)) == MarksOfLists(lists)
  {
    if |lists| > 0 {
      hide Whole, AllMarks;
      TransfersReadBack(lists[1..]);
      PacketsReadBack([], lists[0]);
      assert [] + TransferOf(lists[0]) == TransferOf(lists[0]);
      assert TransfersOf(lists)[1..] == TransfersOf(lists[1..]);
    }
  }

  /** What a new reader delivers of any transfers made of such packets: their words, cut exactly at the end markers and
      where the line steps back. */
  lemma FramesOfTransfers(lists: seq<seq<Parcel>>) returns (marked: seq<bool>)
    requires AllListsSendable(lists)
    ensures var t := TransfersOf(lists);
      WholeTransfers(t) && CutAs(MarksOfLists(lists), Frames(Events(MarksOf(t), 0), []), marked)
  {
    hide CutAs, Frames, Events, WholeTransfers, MarksOf, TransfersOf;
    TransfersReadBack(lists);
    OpenRuns([]);
    marked := FramesAreCut(MarksOfLists(lists), []);
    assert Runs([]) + MarksOfLists(lists) == MarksOfLists(lists);
  }

  datatype Answer = Blobs(stripes: seq<Stripe>) | NoBlobs | Trouble

  /** The frame reader: the transfer being read, and those the device will still deliver. */
  class Reader {
    const segmenter: Segmenter
    var data: seq<byte>
    var ptr: nat
    var incoming: seq<seq<byte>>

    constructor (transfers: seq<seq<byte>>)
      requires WholeTransfers(transfers)
      ensures Valid() && fresh(segmenter)
      ensures ToCome() == Frames(Events(MarksOf(transfers), 0), [])
    {
      segmenter := new Segmenter();
      data, ptr, incoming := [], 0, transfers;
      new;
      assert MarksOf(transfers) == [] + MarksOf(transfers);
    }

    ghost predicate Valid()
      reads this, segmenter
    {
      ptr <= |data| && segmenter.At(data, ptr) && WholeTransfers(incoming)
    }

    ghost function PendingHere(): seq<Mark>
      requires Valid()
      reads this, segmenter
    {
      segmenter.Pending(data, ptr)
    }

    /** The frames still to be delivered, the last one cut off by the end of the stream. */
    ghost function ToCome(): seq<seq<Stripe>>
      requires Valid()
      reads this, segmenter
    {
      Frames(Events(PendingHere() + MarksOf(incoming), segmenter.currentLine), segmenter.frame)
    }

    /** The next transfer, once the last one is used up. */
    method Receive()
      requires Valid() && ptr >= |data| && |incoming| > 0
      modifies this
      ensures Valid() && ToCome() == old(ToCome()) && incoming == old(incoming)[1..]
    {
      hide Frames, Events;
      assert segmenter.Pending(data, ptr) == [];
      assert [] + MarksOf(incoming) == segmenter.Pending(incoming[0], 0) + MarksOf(incoming[1..]);
      ptr := 0;
      data, incoming := incoming[0], incoming[1..];
    }

    /** One pass over the transfer. */
    method Step() returns (haveFrame: bool)
      requires Valid()
      modifies this`ptr, segmenter
      ensures Valid() && (!haveFrame ==> ptr == |data| && ToCome() == old(ToCome()))
      ensures haveFrame ==>
        var later := Events(PendingHere() + MarksOf(incoming), segmenter.currentLine);
        old(ToCome()) == [segmenter.frame] + Frames(later, [])
    {
      hide Frames, Events, LineAfter, MarksOf, Adds, Segmenter.At, Segmenter.Pending;
      ghost var open := segmenter.frame;
      ghost var added: seq<Stripe>;
      ghost var later := MarksOf(incoming);
      EventsAppend(segmenter.Pending(data, ptr), later, segmenter.currentLine);
      haveFrame, ptr, added := segmenter.ProcessPacket(data, ptr);
      ghost var left := segmenter.Pending(data, ptr);
      EventsAppend(left, later, segmenter.currentLine);
      ghost var rest := Events(left + later, segmenter.currentLine);
      ghost var mine := Events(left, segmenter.currentLine);
      ghost var after := Events(later, LineAfter(left, segmenter.currentLine));
      ghost var cut: seq<Event> := if haveFrame then [Cut] else [];
      assert Adds(added) + cut + mine + after == Adds(added) + cut + (mine + after);
      assert !haveFrame ==> Adds(added) + cut == Adds(added);
      if haveFrame {
        FramesAfterCut(added, rest, open);
      } else {
        FramesAfterAdds(added, rest, open);
      }
    }

    /** Reads until a frame is complete; stops early, losing nothing, for a request or when the device fails. */
    method ReadFrame() returns (answer: Answer)
      requires Valid()
      modifies this, segmenter
      ensures Valid()
      ensures if answer.Blobs? then old(ToCome()) == [answer.stripes] + ToCome() else ToCome() == old(ToCome())
    {
      hide Frames, Events, MarksOf, Segmenter.At, Segmenter.Pending;
      while true
        invariant Valid() && ToCome() == old(ToCome())
        decreases |incoming|, |data| - ptr
      {
        if ptr >= |data| {
          if |incoming| == 0 {
            return Trouble;
          }
          Receive();
        }
        var haveFrame := Step();
        if haveFrame {
          answer := Blobs(segmenter.frame);
          segmenter.TakeFrame();
          return;
        }
        var newRequest: bool := *;
        if newRequest {
          return NoBlobs;
        }
      }
    }
  }
}

/** Publishing camera pictures to other processes through three buffers in a shared file, and a reader that copies
    one of them without any lock. */
module FramePublisher {
  import opened Words
  import Bitmap
  import BlobFinder
  import Scan
  import StripeGraph
  import TirBlobs

  const FRAME_BUFFERS := 3
  const EXTRA_DATA := 12

  function IncFrameIndex(current: int): (next: int)
    ensures 0 <= current < FRAME_BUFFERS - 1 ==> next == current + 1
    ensures current == FRAME_BUFFERS - 1 ==> next == 0
  {
    (current + 1) % FRAME_BUFFERS
  }

  // ---------- the writer ----------

  /** Where the driver keeps the picture: in a buffer of the map, nowhere yet, or in memory of its own. */
  datatype Canvas = InMap(slot: nat) | Null | Elsewhere(data: seq<byte>)

  function Blank(size: nat): seq<byte> {
    seq(size, _ => 0)
  }

  /** Pictures, flag and canvas after a publication. */
  function AfterPublish(slots: seq<seq<byte>>, flag: nat, canvas: Canvas, size: nat): (seq<seq<byte>>, nat, Canvas)
    requires |slots| == FRAME_BUFFERS && (canvas.InMap? ==> canvas.slot < FRAME_BUFFERS)
  {
    var current := IncFrameIndex(flag);
    match canvas
    case InMap(slot) =>
      if slot == current then
        (slots[IncFrameIndex(current) := Blank(size)], current, InMap(IncFrameIndex(current)))
      else
        (slots[current := slots[slot]], current, canvas)
    case Null => (slots[0 := Blank(size)][1 := Blank(size)], 0, InMap(1))
    case Elsewhere(picture) => (slots[current := picture], current, canvas)
  }

  /** The picture of the canvas becomes current, in the buffer after the one that was. That one keeps its picture, and
      the driver goes on in a third buffer, which is blank, or where it was. Without a canvas, the first buffer is
      current and the driver gets the second one, both blank. */
  lemma PublishShows(slots: seq<seq<byte>>, flag: nat, canvas: Canvas, size: nat)
    requires |slots| == FRAME_BUFFERS && flag < FRAME_BUFFERS && (canvas.InMap? ==> canvas.slot < FRAME_BUFFERS)
    ensures var (after, current, next) := AfterPublish(slots, flag, canvas, size);
      && |after| == FRAME_BUFFERS && current == (if canvas.Null? || flag == FRAME_BUFFERS - 1 then 0 else flag + 1)
      && (!canvas.Null? ==>
            && after[current] == (if canvas.InMap? then slots[canvas.slot] else canvas.data)
            && after[flag] == slots[flag])
      && (canvas.InMap? && canvas.slot == current ==>
            next.InMap? && next.slot != current && next.slot != flag && after[next.slot] == Blank(size))
      && (canvas.Elsewhere? || (canvas.InMap? && canvas.slot != current) ==> next == canvas)
      && (canvas.Null? ==> next == InMap(1) && after[0] == after[1] == Blank(size) && after[2] == slots[2])
  {
  }

  class FrameMap {
    const size: nat            // bytes per picture, fixed for the session
    const data: array<byte>    // the whole mapped file
    var flag: nat              // what its first word holds

    ghost predicate Valid()
      reads this
    {
      data.Length == FRAME_BUFFERS * size + EXTRA_DATA && flag < FRAME_BUFFERS
    }

    /** The header, then `slot` pictures. */
    function Offset(slot: nat): nat
      requires slot < FRAME_BUFFERS
    {
      EXTRA_DATA + match slot case 0 => 0 case 1 => size case _ => 2 * size
    }

    ghost function Picture(slot: nat): seq<byte>
      requires Valid() && slot < FRAME_BUFFERS
      reads this, data
    {
      data[Offset(slot)..Offset(slot) + size]
    }

    ghost function Pictures(): (p: seq<seq<byte>>)
      requires Valid()
      reads this, data
      ensures |p| == FRAME_BUFFERS && forall s :: 0 <= s < FRAME_BUFFERS ==> p[s] == Picture(s)
    {
      [Picture(0), Picture(1), Picture(2)]
    }

    /** One byte past a buffer is the first of the next one, or the end of the file. */
    lemma PastTheSlot(slot: nat)
      requires Valid() && slot < FRAME_BUFFERS
      ensures Offset(slot) + size == if slot + 1 < FRAME_BUFFERS then Offset(slot + 1) else data.Length
    {
    }

    /** The buffers lie one after the other behind the header words, inside the file. */
    lemma SlotsDisjoint(i: nat, j: nat)
      requires Valid() && i < j < FRAME_BUFFERS
      ensures EXTRA_DATA <= Offset(i) && Offset(i) + size <= Offset(j) && Offset(j) + size <= data.Length
    {
    }

    constructor (size: nat)
      ensures Valid() && flag == 0 && fresh(data) && this.size == size
    {
      this.size := size;
      data := new byte[FRAME_BUFFERS * size + EXTRA_DATA];
      flag := 0;
    }

    method Store(slot: nat, picture: seq<byte>)
      requires Valid() && slot < FRAME_BUFFERS && |picture| == size
      modifies data
      ensures Valid() && Pictures() == old(Pictures())[slot := picture]
    {
      hide Offset;
      SlotInside(slot);
      Fill(Offset(slot), picture);
      forall s | 0 <= s < FRAME_BUFFERS && s != slot ensures Picture(s) == old(Picture(s)) {
        SlotInside(s);
        if s < slot {
          SlotsDisjoint(s, slot);
        } else {
          SlotsDisjoint(slot, s);
        }
      }
    }

    method Fill(base: nat, picture: seq<byte>)
      requires base + |picture| <= data.Length
      modifies data
      ensures data[base..base + |picture|] == picture
      ensures forall i :: 0 <= i < data.Length && !(base <= i < base + |picture|) ==> data[i] == old(data[i])
    {
      forall i | 0 <= i < |picture| {
        data[base + i] := picture[i];
      }
    }

    lemma SlotInside(slot: nat)
      requires Valid() && slot < FRAME_BUFFERS
      ensures EXTRA_DATA <= Offset(slot) <= Offset(slot) + size <= data.Length
    {
    }

    /** Makes the next buffer current. A driver that draws straight into the map gets the one after it to draw in. */
    method PublishFrame(canvas: Canvas) returns (next: Canvas)
      requires Valid()
      requires canvas.InMap? ==> canvas.slot < FRAME_BUFFERS
      requires canvas.Elsewhere? ==> |canvas.data| == size
      modifies `flag, data
      ensures Valid() && (Pictures(), flag, next) == AfterPublish(old(Pictures()), old(flag), canvas, size)
      ensures canvas.InMap? ==> Pictures()[flag] == old(Pictures())[canvas.slot]
      ensures canvas.Elsewhere? ==> Pictures()[flag] == canvas.data
      ensures !canvas.Null? ==> Pictures()[old(flag)] == old(Pictures()[flag])
    {
      hide Offset;
      PublishShows(Pictures(), flag, canvas, size);
      var current := IncFrameIndex(flag);
      match canvas
      case InMap(slot) =>
        if slot == current {
          next := InMap(IncFrameIndex(current));
          SetFlag(current);
          Store(IncFrameIndex(current), Blank(size));
        } else {
          next := canvas;
          SlotInside(slot);
          Store(current, data[Offset(slot)..Offset(slot) + size]);
          SetFlag(current);
        }
      case Null =>
        SetFlag(0);
        Store(0, Blank(size));
        next := InMap(1);
        Store(1, Blank(size));
      case Elsewhere(picture) =>
        next := canvas;
        Store(current, picture);
        SetFlag(current);
    }

    method SetFlag(index: nat)
      requires Valid() && index < FRAME_BUFFERS
      modifies `flag
      ensures Valid() && flag == index && Pictures() == old(Pictures())
    {
      flag := index;
    }
  }

  // ---------- a reader beside the writer ----------

  /** The thread that draws and publishes: drawing, marking the blobs of a picture cell by cell, or filling a buffer
      byte by byte, after which it may become current. */
  datatype Writer =
    | Drawing
    | Scanning(picture: seq<byte>, next: nat)
    | Filling(slot: nat, source: seq<byte>, k: nat, publish: bool)

  /** The reader has noted which frame it is copying, and how much of it it has. */
  datatype Reader = Idle | Copying(slot: nat, index: nat, copied: seq<byte>)

  datatype State = State(
    w: nat, h: nat, size: nat, flag: nat, slots: seq<seq<byte>>, canvas: Canvas, writer: Writer, reader: Reader,
    published: seq<seq<byte>>,   // every picture made current so far, the current one last
    received: seq<(nat, seq<byte>, nat)>)   // index noted, bytes copied, pictures published by the end

  datatype Step =
    | Draw(k: nat, b: byte)    // the driver draws, or marks a stripe; at most one cell past its picture
    | Scan                     // the driver starts to look for blobs
    | MarkCell                 // and marks what it finds
    | Publish
    | FillByte
    | EndFill
    | Snapshot                 // the reader notes the flag
    | CopyByte
    | Finish

  predicate Shaped(s: State) {
    && s.w >= 1 && s.h >= 1 && s.size >= 1
    && s.flag < FRAME_BUFFERS && |s.slots| == FRAME_BUFFERS
    && (forall i :: 0 <= i < FRAME_BUFFERS ==> |s.slots[i]| == s.size)
    && (s.canvas.InMap? ==> s.canvas.slot < FRAME_BUFFERS)
    && (s.canvas.Elsewhere? ==> |s.canvas.data| == s.size)
    && (s.writer.Scanning? ==> |s.writer.picture| == s.size && 1 <= s.writer.next <= s.size)
    && (s.writer.Filling? ==> s.writer.slot < FRAME_BUFFERS && s.writer.k <= |s.writer.source| == s.size)
    && (s.reader.Copying? ==> s.reader.slot < FRAME_BUFFERS && |s.reader.copied| <= s.size)
  }

  /** The size of the picture is its width times its height. */
  ghost predicate Sized(s: State) {
    s.size == Bitmap.Base(s.h, s.w)
  }

  predicate Enabled(s: State, step: Step) {
    match step
    case Draw(k, _) => s.writer.Drawing? && !s.canvas.Null? && k <= s.size
    case Scan => s.writer.Drawing? && !s.canvas.Null?
    case MarkCell => s.writer.Scanning?
    case Publish => s.writer.Drawing?
    case FillByte => s.writer.Filling? && s.writer.k < s.size
    case EndFill => s.writer.Filling? && s.writer.k == s.size
    case Snapshot => s.reader.Idle? && |s.published| > 0
    case CopyByte => s.reader.Copying? && |s.reader.copied| < s.size
    case Finish => s.reader.Copying? && |s.reader.copied| == s.size
  }

  function SetByte(s: State, slot: nat, k: nat, b: byte): State
    requires Shaped(s) && slot < FRAME_BUFFERS && k < s.size
  {
    var picture: seq<byte> := s.slots[slot];
    s.(slots := s.slots[slot := picture[k := b]])
  }

  /** Writes cell k of the canvas. The cell after a buffer is the first of the next buffer; what lies after the last
      one, or after memory of the driver's own, is nobody's picture. */
  function Put(s: State, k: nat, b: byte): State
    requires Shaped(s) && k <= s.size
  {
    match s.canvas
    case InMap(slot) =>
      if k < s.size then SetByte(s, slot, k, b)
      else if slot + 1 < FRAME_BUFFERS then SetByte(s, slot + 1, 0, b)
      else s
    case Null => s
    case Elsewhere(data) => if k < s.size then s.(canvas := Elsewhere(data[k := b])) else s
  }

  function Content(s: State): (p: seq<byte>)
    requires Shaped(s) && !s.canvas.Null?
    ensures |p| == s.size
  {
    if s.canvas.InMap? then s.slots[s.canvas.slot] else s.canvas.data
  }

  ghost function Apply(s: State, step: Step): State
    requires Shaped(s) && Enabled(s, step)
  {
    match step
    case Draw(k, b) => Put(s, k, b)
    case Scan => s.(writer := Scanning(Content(s), 1))
    case MarkCell =>
      var picture, next := s.writer.picture, s.writer.next;
      var t := if Scan.SeenLit(picture, s.w, next - 1) then Put(s, next, 0x80) else s;
      t.(writer := if next == s.size then Drawing else Scanning(picture, next + 1))
    case Publish => Published(s)
    case FillByte =>
      var f := s.writer;
      SetByte(s, f.slot, f.k, f.source[f.k]).(writer := f.(k := f.k + 1))
    case EndFill =>
      var slot := s.writer.slot;
      if s.writer.publish then s.(writer := Drawing, flag := slot, published := s.published + [s.slots[slot]])
      else s.(writer := Drawing)
    case Snapshot => s.(reader := Copying(s.flag, |s.published| - 1, []))
    case CopyByte =>
      var r := s.reader;
      s.(reader := r.(copied := r.copied + [s.slots[r.slot][|r.copied|]]))
    case Finish =>
      s.(reader := Idle, received := s.received + [(s.reader.index, s.reader.copied, |s.published|)])
  }

  /** The branches of a publication, up to the filling of a buffer. The very first one, which nobody reads yet, is
      taken as one step. */
  function Published(s: State): State
    requires Shaped(s)
  {
    var current := IncFrameIndex(s.flag);
    match s.canvas
    case InMap(slot) =>
      if slot == current then
        var next := IncFrameIndex(current);
        s.(canvas := InMap(next), flag := current, published := s.published + [s.slots[current]],
           writer := Filling(next, Blank(s.size), 0, false))
      else s.(writer := Filling(current, s.slots[slot], 0, true))
    case Null =>
      s.(flag := 0, slots := s.slots[0 := Blank(s.size)][1 := Blank(s.size)], canvas := InMap(1),
         published := s.published + [Blank(s.size)])
    case Elsewhere(data) => s.(writer := Filling(current, data, 0, true))
  }

  /** Before the first publication; the driver has no canvas yet, or memory of its own. */
  ghost predicate Starts(s: State) {
    && Shaped(s) && Sized(s) && s.flag == 0 && !s.canvas.InMap? && s.writer.Drawing? && s.reader.Idle?
    && s.published == [] && s.received == []
  }

  /** The step does not lead to a mark past the picture: the driver stays inside, and a picture that is scanned is
      dark in its bottom right corner, or everywhere if it has only one column. */
  ghost predicate Inside(s: State, step: Step)
    requires Shaped(s) && Sized(s) && Enabled(s, step)
  {
    (step.Draw? ==> step.k < s.size) && (step.Scan? ==> Scan.MarksInside(Content(s), s.w, s.h))
  }

  /** One of the steps with which the driver marks a stripe that its device has found. */
  ghost predicate MarksStripe(img: Bitmap.Image, s: StripeGraph.Stripe, step: Step)
    requires img.Sized()
  {
    var x, y, xEnd := StripeGraph.ToInt(s.hstart), StripeGraph.ToInt(s.vline), StripeGraph.ToInt(s.hstop);
    step.Draw? && step.b == 0x80 && img.FirstCell(x, y) <= step.k <= img.LastCell(y, xEnd)
  }

  /** For a driver that draws the stripes of its device, the marks of a frame stay inside exactly when none of its
      stripes lies in the bottom right corner. */
  lemma DeviceMarksInside(t: State, img: Bitmap.Image, frame: seq<StripeGraph.Stripe>)
    requires Shaped(t) && Sized(t) && t.writer.Drawing? && !t.canvas.Null?
    requires img.Sized() && img.w == t.w && img.h == t.h
    ensures forall s, step :: s in frame && MarksStripe(img, s, step) ==> Enabled(t, step)
    ensures (forall s, step :: s in frame && MarksStripe(img, s, step) ==> Inside(t, step)) <==>
      !TirBlobs.AnyInCorner(frame, img)
  {
    hide Bitmap.Base;
    forall s | s in frame
      ensures forall step :: MarksStripe(img, s, step) ==> Enabled(t, step)
      ensures (forall step :: MarksStripe(img, s, step) ==> Inside(t, step)) <==> !BlobFinder.InCorner(s, img)
    {
      StripeMarksInside(t, img, s);
    }
    hide MarksStripe, Inside, BlobFinder.InCorner;
    if !TirBlobs.AnyInCorner(frame, img) {
      forall s | s in frame ensures !BlobFinder.InCorner(s, img) {
        var k :| 0 <= k < |frame| && frame[k] == s;
      }
    }
  }

  lemma StripeMarksInside(t: State, img: Bitmap.Image, s: StripeGraph.Stripe)
    requires Shaped(t) && Sized(t) && t.writer.Drawing? && !t.canvas.Null?
    requires img.Sized() && img.w == t.w && img.h == t.h
    ensures forall step :: MarksStripe(img, s, step) ==> Enabled(t, step)
    ensures (forall step :: MarksStripe(img, s, step) ==> Inside(t, step)) <==> !BlobFinder.InCorner(s, img)
  {
    var x, y, xEnd := StripeGraph.ToInt(s.hstart), StripeGraph.ToInt(s.vline), StripeGraph.ToInt(s.hstop);
    img.LeavesFromCorner(y, xEnd);
    hide Bitmap.Base;
    if BlobFinder.InCorner(s, img) {
      assert MarksStripe(img, s, Draw(img.LastCell(y, xEnd), 0x80));
    }
  }

  // ---------- what every step keeps ----------

  /** The driver only ever draws in the buffer after the current one, and fills no other. */
  ghost predicate Apart(s: State) {
    && (s.canvas.InMap? ==> s.canvas.slot == IncFrameIndex(s.flag))
    && (s.canvas.Null? ==> s.published == [] && s.writer.Drawing?)
    && (s.writer.Filling? ==> s.writer.slot == IncFrameIndex(s.flag) && (s.writer.publish ==> s.canvas.Elsewhere?))
  }

  /** A copy that ended before n more publications is one whole published picture. */
  ghost predicate Whole(published: seq<seq<byte>>, r: (nat, seq<byte>, nat), n: nat) {
    r.0 < r.2 <= |published| && (r.2 <= r.0 + n + 1 ==> r.1 == published[r.0])
  }

  /** The current picture stays in place; so does the one before it, unless a mark may leave its picture. A reader
      that saw no publication, or at most one in the second case, has so far exactly the bytes of its frame. */
  ghost predicate Good(s: State, inside: bool)
    requires Shaped(s)
  {
    var n := |s.published|;
    && (n >= 1 ==> s.slots[s.flag] == s.published[n - 1])
    && (n >= 2 && inside ==> s.slots[IncFrameIndex(IncFrameIndex(s.flag))] == s.published[n - 2])
    && (s.reader.Copying? ==>
          && s.reader.index < n
          && (s.reader.index == n - 1 ==> s.reader.slot == s.flag && s.reader.copied <= s.published[n - 1])
          && (s.reader.index == n - 2 ==> s.reader.slot == IncFrameIndex(IncFrameIndex(s.flag)))
          && (s.reader.index == n - 2 && inside ==> s.reader.copied <= s.published[n - 2]))
    && (forall p :: p in s.published ==> |p| == s.size)
    && (forall r :: r in s.received ==> Whole(s.published, r, if inside then 1 else 0))
  }

  ghost predicate Invariant(s: State, inside: bool) {
    && Shaped(s) && Sized(s) && Apart(s) && Good(s, inside)
    && (inside && s.writer.Scanning? ==> Scan.MarksInside(s.writer.picture, s.w, s.h))
  }

  /** Writing a byte of the buffer after the current one, or the first one after that if marks may leave it. */
  lemma PutKeeps(s: State, k: nat, b: byte, inside: bool)
    requires Invariant(s, inside) && k <= s.size && (inside ==> k < s.size)
    ensures Invariant(Put(s, k, b), inside)
  {
    hide Bitmap.Base, Scan.MarksInside, Whole;
  }

  lemma MarkKeeps(s: State, inside: bool)
    requires Invariant(s, inside) && s.writer.Scanning?
    ensures Invariant(Apply(s, MarkCell), inside)
  {
    hide Scan.SeenLit, Scan.MarksInside, Whole, Bitmap.Base, Put, Good, Apart;
    var picture, next := s.writer.picture, s.writer.next;
    if Scan.SeenLit(picture, s.w, next - 1) {
      Scan.CornerSeen(picture, s.w, s.h);
      PutKeeps(s, next, 0x80, inside);
      PutWriter(s, next, 0x80);
      WriterMoves(Put(s, next, 0x80), inside);
    } else {
      WriterMoves(s, inside);
    }
  }

  lemma PutWriter(s: State, k: nat, b: byte)
    requires Shaped(s) && k <= s.size
    ensures Put(s, k, b).writer == s.writer && Put(s, k, b).size == s.size
  {
  }

  lemma WriterMoves(s: State, inside: bool)
    requires Invariant(s, inside) && s.writer.Scanning?
    ensures var next := s.writer.next;
      Invariant(s.(writer := if next == s.size then Drawing else Scanning(s.writer.picture, next + 1)), inside)
  {
    hide Scan.MarksInside, Whole, Bitmap.Base;
  }

  lemma FillKeeps(s: State, inside: bool)
    requires Invariant(s, inside) && Enabled(s, FillByte)
    ensures Invariant(Apply(s, FillByte), inside)
  {
    hide Bitmap.Base, Scan.MarksInside, Whole;
  }

  lemma WholeLater(published: seq<seq<byte>>, p: seq<byte>, r: (nat, seq<byte>, nat), n: nat)
    requires Whole(published, r, n)
    ensures Whole(published + [p], r, n)
  {
  }

  /** One more picture is current: the one in the buffer after the current one. */
  lemma CurrentMoves(s: State, t: State, inside: bool)
    requires Invariant(s, inside) && t.published == s.published + [s.slots[IncFrameIndex(s.flag)]]
    requires t.flag == IncFrameIndex(s.flag) && t.slots == s.slots && t.reader == s.reader && t.received == s.received
    requires Shaped(t) && t.size == s.size && |s.published| > 0
    ensures Good(t, inside)
  {
    hide Whole, Apart, Sized, Scan.MarksInside;
    var p := s.slots[IncFrameIndex(s.flag)];
    forall r | r in t.received ensures Whole(t.published, r, if inside then 1 else 0) {
      WholeLater(s.published, p, r, if inside then 1 else 0);
    }
  }

  lemma FirstMoves(s: State, t: State, inside: bool)
    requires Invariant(s, inside) && s.published == [] && Shaped(t) && t.size == s.size
    requires t.published == [t.slots[t.flag]] && t.reader == s.reader && t.received == s.received
    ensures Good(t, inside)
  {
  }

  lemma PublishKeeps(s: State, inside: bool)
    requires Invariant(s, inside) && s.writer.Drawing?
    ensures Invariant(Apply(s, Publish), inside)
  {
    hide Scan.MarksInside, Bitmap.Base, Good;
    var t := Apply(s, Publish);
    match s.canvas
    case InMap(_) =>
      if s.published == [] {
        FirstMoves(s, t, inside);
      } else {
        CurrentMoves(s, t, inside);
      }
    case Null => FirstMoves(s, t, inside);
    case Elsewhere(_) => SamePictures(s, t, inside);
  }

  lemma SamePictures(s: State, t: State, inside: bool)
    requires Invariant(s, inside) && t.published == s.published && t.flag == s.flag && t.slots == s.slots
    requires t.reader == s.reader && t.received == s.received && t.size == s.size && Shaped(t)
    ensures Good(t, inside)
  {
  }

  lemma EndFillKeeps(s: State, inside: bool)
    requires Invariant(s, inside) && Enabled(s, EndFill)
    ensures Invariant(Apply(s, EndFill), inside)
  {
    hide Scan.MarksInside, Bitmap.Base, Good;
    var t := Apply(s, EndFill);
    if !s.writer.publish {
      SamePictures(s, t, inside);
    } else if s.published == [] {
      FirstMoves(s, t, inside);
    } else {
      CurrentMoves(s, t, inside);
    }
  }

  lemma ReaderKeeps(s: State, step: Step, inside: bool)
    requires Invariant(s, inside) && Enabled(s, step) && (step.Snapshot? || step.CopyByte? || step.Finish?)
    ensures Invariant(Apply(s, step), inside)
  {
    hide Bitmap.Base, Scan.MarksInside;
  }

  /** Every step keeps the invariant: the stronger one if it stays inside, the weaker one in any case. */
  lemma StepKeeps(s: State, step: Step, inside: bool)
    requires Invariant(s, inside) && Enabled(s, step) && (inside ==> Inside(s, step))
    ensures Invariant(Apply(s, step), inside)
  {
    match step
    case Draw(k, b) => PutKeeps(s, k, b, inside);
    case Scan =>
    case MarkCell => MarkKeeps(s, inside);
    case Publish => PublishKeeps(s, inside);
    case FillByte => FillKeeps(s, inside);
    case EndFill => EndFillKeeps(s, inside);
    case _ => ReaderKeeps(s, step, inside);
  }

  /** Once a picture is out, only the buffer after the current one is written to. */
  lemma OnlyNextTouched(s: State, step: Step, i: nat)
    requires Invariant(s, true) && Enabled(s, step) && Inside(s, step) && |s.published| > 0
    requires i < FRAME_BUFFERS && i != IncFrameIndex(s.flag)
    ensures Apply(s, step).slots[i] == s.slots[i]
  {
    hide Bitmap.Base, Scan.MarksInside, Scan.SeenLit, Good;
    if step.MarkCell? {
      Scan.CornerSeen(s.writer.picture, s.w, s.h);
    }
  }

  // ---------- whole sessions ----------

  /** The steps lead from s to t, all staying inside if so asked. */
  ghost predicate Leads(s: State, steps: seq<Step>, t: State, inside: bool)
    decreases |steps|
  {
    if |steps| == 0 then s == t
    else
      && Shaped(s) && Sized(s) && Enabled(s, steps[0]) && (inside ==> Inside(s, steps[0]))
      && Leads(Apply(s, steps[0]), steps[1..], t, inside)
  }

  lemma {:induction false} RunKeeps(s: State, steps: seq<Step>, t: State, inside: bool)
    requires Invariant(s, inside) && Leads(s, steps, t, inside)
    ensures Invariant(t, inside)
    decreases |steps|
  {
    if |steps| > 0 {
      StepKeeps(s, steps[0], inside);
      hide Invariant, Apply;
      RunKeeps(Apply(s, steps[0]), steps[1..], t, inside);
    }
  }

  /** However reading and writing interleave, a copy during which nothing was published is the picture that was
      current when it began; if no mark leaves its picture, so is one during which one picture was published. */
  lemma CopiesAreWhole(s: State, steps: seq<Step>, t: State, inside: bool)
    requires Starts(s) && Leads(s, steps, t, inside)
    ensures forall r :: r in t.received ==> Whole(t.published, r, if inside then 1 else 0)
  {
    RunKeeps(s, steps, t, inside);
  }

  // ---------- publishing step by step is publishing at once ----------

  ghost predicate Can(s: State, t: State, inside: bool) {
    exists steps :: Leads(s, steps, t, inside)
  }

  lemma CanStay(s: State, inside: bool)
    ensures Can(s, s, inside)
  {
    assert Leads(s, [], s, inside);
  }

  lemma CanStep(s: State, step: Step, t: State, inside: bool)
    requires Shaped(s) && Sized(s) && Enabled(s, step) && (inside ==> Inside(s, step)) && Can(Apply(s, step), t, inside)
    ensures Can(s, t, inside)
  {
    hide Apply, Inside, Sized;
    var rest :| Leads(Apply(s, step), rest, t, inside);
    assert ([step] + rest)[1..] == rest;
    assert Leads(s, [step] + rest, t, inside);
  }

  lemma {:induction false} CanThen(s: State, steps: seq<Step>, t: State, u: State, inside: bool)
    requires Leads(s, steps, t, inside) && Can(t, u, inside)
    ensures Can(s, u, inside)
    decreases |steps|
  {
    if |steps| > 0 {
      hide Apply, Inside, Sized;
      CanThen(Apply(s, steps[0]), steps[1..], t, u, inside);
      CanStep(s, steps[0], u, inside);
    }
  }

  lemma CanTrans(s: State, t: State, u: State, inside: bool)
    requires Can(s, t, inside) && Can(t, u, inside)
    ensures Can(s, u, inside)
  {
    hide Leads;
    var steps :| Leads(s, steps, t, inside);
    CanThen(s, steps, t, u, inside);
  }

  /** The bytes that are still missing are filled in. */
  lemma {:induction false} CanFill(s: State, inside: bool)
    requires Shaped(s) && Sized(s) && s.writer.Filling?
    requires s.slots[s.writer.slot][..s.writer.k] == s.writer.source[..s.writer.k]
    ensures var f := s.writer;
      Can(s, s.(slots := s.slots[f.slot := f.source], writer := f.(k := s.size)), inside)
    decreases s.size - s.writer.k
  {
    hide Bitmap.Base, Can;
    var f := s.writer;
    if f.k == s.size {
      assert s.slots[f.slot] == f.source;
      assert s.slots[f.slot := f.source] == s.slots;
      CanStay(s, inside);
    } else {
      var t := Apply(s, FillByte);
      assert t.slots[f.slot][..f.k + 1] == f.source[..f.k + 1];
      CanFill(t, inside);
      assert t.slots[f.slot := f.source] == s.slots[f.slot := f.source];
      CanStep(s, FillByte, s.(slots := s.slots[f.slot := f.source], writer := f.(k := s.size)), inside);
    }
  }

  /** The state once a publication is complete. */
  function Done(s: State): State
    requires Shaped(s)
  {
    var (slots, flag, canvas) := AfterPublish(s.slots, s.flag, s.canvas, s.size);
    s.(slots := slots, flag := flag, canvas := canvas, published := s.published + [slots[flag]])
  }

  /** Undisturbed, the steps of a publication come to what the whole publication does. */
  lemma PublishCompletes(s: State, inside: bool)
    requires Shaped(s) && Sized(s) && s.writer.Drawing?
    ensures Can(s, Done(s), inside)
  {
    hide Bitmap.Base, Can;
    var t := Apply(s, Publish);
    if t.writer.Filling? {
      var f := t.writer;
      CanFill(t, inside);
      var u := t.(slots := t.slots[f.slot := f.source], writer := f.(k := s.size));
      CanStay(Apply(u, EndFill), inside);
      CanStep(u, EndFill, Apply(u, EndFill), inside);
      CanTrans(t, u, Apply(u, EndFill), inside);
      assert Apply(u, EndFill) == Done(s);
    } else {
      CanStay(t, inside);
      assert t == Done(s);
    }
    CanStep(s, Publish, Done(s), inside);
  }

  /** Undisturbed, marking cell by cell leaves the picture as a whole scan of it does. */
  lemma {:induction false} ScanCompletes(s: State, inside: bool) returns (t: State)
    requires Shaped(s) && Sized(s) && s.writer.Scanning? && s.canvas.InMap?
    requires Scan.MarkedCells(s.writer.picture, s.slots[s.canvas.slot], s.w, s.writer.next - 1)
    ensures Can(s, t, inside) && Shaped(t) && t.writer.Drawing? && t.canvas == s.canvas
    ensures Scan.MarkedCells(s.writer.picture, t.slots[s.canvas.slot], s.w, s.size)
    decreases s.size - s.writer.next
  {
    hide Bitmap.Base, Can;
    var u := Apply(s, MarkCell);
    if s.writer.next == s.size {
      t := u;
      CanStay(t, inside);
    } else {
      t := ScanCompletes(u, inside);
    }
    CanStep(s, MarkCell, t, inside);
  }

  // ---------- how much a copy may see ----------

  lemma {:induction false} CanCopy(s: State, inside: bool)
    requires Shaped(s) && Sized(s) && s.reader.Copying? && s.reader.copied <= s.slots[s.reader.slot]
    ensures var r := s.reader; Can(s, s.(reader := r.(copied := s.slots[r.slot])), inside)
    decreases s.size - |s.reader.copied|
  {
    hide Bitmap.Base, Can;
    var r := s.reader;
    if |r.copied| == s.size {
      assert r.copied == s.slots[r.slot];
      CanStay(s, inside);
    } else {
      CanCopy(Apply(s, CopyByte), inside);
      CanStep(s, CopyByte, s.(reader := r.(copied := s.slots[r.slot])), inside);
    }
  }

  lemma {:induction false} DarkSeen(cells: seq<byte>, w: nat, c: nat)
    requires w > 0 && c < |cells| && forall k :: 0 <= k <= c ==> cells[k] == 0
    ensures !Scan.SeenLit(cells, w, c)
  {
    if c > 0 {
      DarkSeen(cells, w, c - 1);
    }
  }

  /** The marks of a picture that is lit in its corner only: one, past its end. */
  lemma {:induction false} CanMark(s: State, inside: bool)
    requires Shaped(s) && Sized(s) && s.writer.Scanning?
    requires var p := s.writer.picture; p[s.size - 1] != 0 && forall k :: 0 <= k < s.size - 1 ==> p[k] == 0
    ensures Can(s, Put(s, s.size, 0x80).(writer := Drawing), inside)
    decreases s.size - s.writer.next
  {
    hide Bitmap.Base, Can;
    var picture, next := s.writer.picture, s.writer.next;
    var t := Apply(s, MarkCell);
    if next == s.size {
      CanStay(t, inside);
    } else {
      DarkSeen(picture, s.w, next - 1);
      CanMark(t, inside);
    }
    CanStep(s, MarkCell, Put(s, s.size, 0x80).(writer := Drawing), inside);
  }

  /** A session of blank pictures in which nothing has been published yet. */
  ghost function BlankSession(w: nat, h: nat): (s: State)
    requires w >= 1 && h >= 1
    ensures Starts(s) && s.w == w && s.h == h
  {
    assert Bitmap.Base(h, w) == Bitmap.Base(h - 1, w) + w;
    var size := Bitmap.Base(h, w);
    State(w, h, size, 0, [Blank(size), Blank(size), Blank(size)], Null, Drawing, Idle, [], [])
  }

  /** Without any reader: three publications of blank pictures. */
  lemma CanPublishBlanks(w: nat, h: nat, inside: bool)
    requires w >= 1 && h >= 1
    ensures var s := BlankSession(w, h); var b := Blank(s.size);
      Can(s, s.(flag := 2, canvas := InMap(0), published := [b, b, b]), inside)
  {
    hide Can, Bitmap.Base;
    var s := BlankSession(w, h);
    var b := Blank(s.size);
    PublishCompletes(s, inside);
    var s1 := s.(canvas := InMap(1), published := [b]);
    assert Done(s).slots == s.slots;
    assert Done(s) == s1;
    PublishCompletes(s1, inside);
    var s2 := s.(flag := 1, canvas := InMap(2), published := [b, b]);
    assert Done(s1).slots == s.slots;
    assert Done(s1) == s2;
    PublishCompletes(s2, inside);
    var s3 := s.(flag := 2, canvas := InMap(0), published := [b, b, b]);
    assert Done(s2).slots == s.slots;
    assert Done(s2) == s3;
    CanTrans(s, s1, s2, inside);
    CanTrans(s, s2, s3, inside);
  }

  /** Where marks may leave their picture, one publication is enough to spoil a copy: buffer 2 is noted, buffer 0
      becomes current, and in buffer 1 the driver scans a picture that is lit in its bottom right corner. The mark past
      its end is the first byte of buffer 2. */
  lemma SpilledMarkSpoils(w: nat, h: nat) returns (t: State)
    requires w >= 1 && h >= 1
    ensures Can(BlankSession(w, h), t, false)
    ensures exists r :: r in t.received && r.0 < r.2 == r.0 + 2 <= |t.published| && r.1 != t.published[r.0]
  {
    hide Can, Bitmap.Base;
    var s := BlankSession(w, h);
    var size, b := s.size, Blank(s.size);
    CanPublishBlanks(w, h, false);
    var s3 := s.(flag := 2, canvas := InMap(0), published := [b, b, b]);
    var s4 := s3.(reader := Copying(2, 2, []));
    assert Apply(s3, Snapshot) == s4;
    var s5 := s4.(flag := 0, canvas := InMap(1), published := [b, b, b, b]);
    assert Done(s4).slots == s.slots;
    assert Done(s4) == s5;
    var lit := b[size - 1 := 1];
    var s6 := s5.(slots := [b, lit, b]);
    assert Apply(s5, Draw(size - 1, 1)).slots == s6.slots;
    var s7 := s6.(writer := Scanning(lit, 1));
    assert Apply(s6, Scan) == s7;
    var spoilt := b[0 := 0x80];
    var s8 := s6.(slots := [b, lit, spoilt]);
    assert Put(s7, size, 0x80).slots == s8.slots;
    var s9 := s8.(reader := Copying(2, 2, spoilt));
    t := s9.(reader := Idle, received := [(2, spoilt, 4)]);
    assert Apply(s9, Finish) == t;
    assert t.received[0] in t.received && spoilt[0] != b[0];
    hide Apply, Done, Put;
    CanStay(t, false);
    CanStep(s9, Finish, t, false);
    CanCopy(s8, false);
    CanTrans(s8, s9, t, false);
    CanMark(s7, false);
    CanTrans(s7, s8, t, false);
    CanStep(s6, Scan, t, false);
    CanStep(s5, Draw(size - 1, 1), t, false);
    PublishCompletes(s4, false);
    CanTrans(s4, s5, t, false);
    CanStep(s3, Snapshot, t, false);
    CanTrans(s, s3, t, false);
  }

  /** Two publications are enough in any case: then the driver clears the very buffer that was noted. */
  lemma SecondPublicationSpoils(w: nat, h: nat) returns (t: State)
    requires w >= 1 && h >= 1
    ensures Can(BlankSession(w, h), t, true)
    ensures exists r :: r in t.received && r.0 < r.2 == r.0 + 3 <= |t.published| && r.1 != t.published[r.0]
  {
    hide Can, Bitmap.Base;
    var s := BlankSession(w, h);
    var b := Blank(s.size);
    var s1 := s.(canvas := InMap(1), published := [b]);
    assert Done(s).slots == s.slots;
    assert Done(s) == s1;
    var lit := b[0 := 1];
    var s2 := s1.(slots := [b, lit, b]);
    assert Apply(s1, Draw(0, 1)).slots == s2.slots;
    var s3 := s2.(flag := 1, canvas := InMap(2), published := [b, lit]);
    assert Done(s2).slots == s2.slots;
    assert Done(s2) == s3;
    var s4 := s3.(reader := Copying(1, 1, []));
    assert Apply(s3, Snapshot) == s4;
    var s5 := s4.(flag := 2, canvas := InMap(0), published := [b, lit, b]);
    assert Done(s4).slots == s2.slots;
    assert Done(s4) == s5;
    var s6 := s5.(flag := 0, canvas := InMap(1), slots := [b, b, b], published := [b, lit, b, b]);
    assert Done(s5).slots == s6.slots;
    assert Done(s5) == s6;
    var s7 := s6.(reader := Copying(1, 1, b));
    t := s7.(reader := Idle, received := [(1, b, 4)]);
    assert Apply(s7, Finish) == t;
    assert t.received[0] in t.received && lit[0] != b[0];
    hide Apply, Done;
    CanStay(t, true);
    CanStep(s7, Finish, t, true);
    CanCopy(s6, true);
    CanTrans(s6, s7, t, true);
    PublishCompletes(s5, true);
    CanTrans(s5, s6, t, true);
    PublishCompletes(s4, true);
    CanTrans(s4, s5, t, true);
    CanStep(s3, Snapshot, t, true);
    PublishCompletes(s2, true);
    CanTrans(s2, s3, t, true);
    CanStep(s1, Draw(0, 1), t, true);
    PublishCompletes(s, true);
    CanTrans(s, s1, t, true);
  }

  /** Every copy that saw at most k publications is whole, in every session with pictures of this size; with
      `inside`, in every session in which no mark leaves its picture. */
  ghost predicate WholeUpTo(w: nat, h: nat, k: nat, inside: bool) {
    forall s, t, r :: Starts(s) && s.w == w && s.h == h && Can(s, t, inside) && r in t.received ==>
      Whole(t.published, r, k)
  }

  /** The exact threshold: copies that saw no publication are always whole, copies that saw one are whole if and only
      if no mark leaves its picture, and beyond that nothing is certain. */
  lemma Threshold(w: nat, h: nat, k: nat, inside: bool)
    requires w >= 1 && h >= 1
    ensures WholeUpTo(w, h, k, inside) <==> k == 0 || (k == 1 && inside)
  {
    hide Starts, Leads;
    if k == 0 || (k == 1 && inside) {
      forall s, t, r | Starts(s) && s.w == w && s.h == h && Can(s, t, inside) && r in t.received
        ensures Whole(t.published, r, k)
      {
        var steps :| Leads(s, steps, t, inside);
        CopiesAreWhole(s, steps, t, inside);
      }
    } else {
      var s := BlankSession(w, h);
      hide Can, BlankSession;
      var t;
      if inside {
        t := SecondPublicationSpoils(w, h);
      } else {
        t := SpilledMarkSpoils(w, h);
      }
      var r :| r in t.received && r.0 < r.2 <= r.0 + k + 1 && r.2 <= |t.published| && r.1 != t.published[r.0];
      assert !Whole(t.published, r, k);
    }
  }
}

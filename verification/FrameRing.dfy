/** The ring of frame buffers between the camera thread and the processing thread, at the grain of single bytes
    and flags. */
module FrameRing {
  import opened Words

  // ---------- slots ----------

  /** The slot after slot `i` of `n`. */
  function NextSlot(n: nat, i: int): int {
    if i + 1 > n - 1 then 0 else i + 1
  }

  /** The slot of the k-th frame of the session. */
  function SlotOf(n: nat, k: nat): (i: int)
    requires n > 0
    ensures 0 <= i < n
  {
    if k == 0 then 0 else NextSlot(n, SlotOf(n, k - 1))
  }

  lemma {:induction false} SlotAhead(n: nat, k: nat, m: nat)
    requires n > 0 && m <= n
    ensures SlotOf(n, k + m) == var i := SlotOf(n, k) + m; if i >= n then i - n else i
    decreases m
  {
    if m > 0 {
      SlotAhead(n, k, m - 1);
    }
  }

  /** Fewer than n frames apart means different slots; n apart means the same. */
  lemma SlotsDiffer(n: nat, j: nat, k: nat)
    requires n > 0 && j <= k <= j + n
    ensures SlotOf(n, j) == SlotOf(n, k) <==> k == j || k == j + n
  {
    SlotAhead(n, j, k - j);
  }

  // ---------- the two threads ----------

  /** The luminance bytes of a UYVY picture, dark ones blanked. */
  function Luma(raw: seq<byte>, thr: byte, size: nat): seq<byte>
    requires |raw| == 2 * size
  {
    seq(size, i requires 0 <= i < size => if raw[2 * i + 1] >= thr then raw[2 * i + 1] else 0)
  }

  /** The bytes of a UYVY picture: a chrominance byte before each luminance byte. */
  ghost function Interleaved(chroma: seq<byte>, luma: seq<byte>): (raw: seq<byte>)
    requires |chroma| == |luma|
    ensures |raw| == 2 * |luma|
  {
    if |luma| == 0 then []
    else
      var n := |luma| - 1;
      Interleaved(chroma[..n], luma[..n]) + [chroma[n], luma[n]]
  }

  lemma {:induction false} InterleavedAt(chroma: seq<byte>, luma: seq<byte>, i: nat)
    requires |chroma| == |luma| && i < |luma|
    ensures Interleaved(chroma, luma)[2 * i + 1] == luma[i]
  {
    var n := |luma| - 1;
    if i < n {
      InterleavedAt(chroma[..n], luma[..n], i);
    }
  }

  /** Whatever the colours, each kept byte is the luminance of its pixel, or zero below the threshold; without a
      threshold, the whole luminance picture comes back. */
  lemma LumaOfPicture(chroma: seq<byte>, luma: seq<byte>, thr: byte)
    requires |chroma| == |luma|
    ensures var kept := Luma(Interleaved(chroma, luma), thr, |luma|);
      && |kept| == |luma|
      && (forall i :: 0 <= i < |luma| ==> (luma[i] >= thr ==> kept[i] == luma[i]) && (luma[i] < thr ==> kept[i] == 0))
      && (thr == 0 ==> kept == luma)
  {
    forall i | 0 <= i < |luma| ensures Interleaved(chroma, luma)[2 * i + 1] == luma[i] {
      InterleavedAt(chroma, luma, i);
    }
  }

  datatype Slot = Slot(filled: bool, data: seq<byte>)

  datatype Producer = Ready | Filling(raw: seq<byte>, thr: byte, k: nat) | Marked | Signalling

  datatype Consumer = Waiting | Idle | Processing | Released

  datatype State = State(
    n: nat, size: nat, slots: seq<Slot>, writer: int, reader: int, producer: Producer, consumer: Consumer,
    newFrame: bool,             // set for each frame written, cleared by the processing thread when it wakes up
    accepted: seq<seq<byte>>,   // frames written and marked filled
    seen: seq<seq<byte>>,       // pictures as processing began on them
    released: nat)              // frames marked empty again

  datatype Step =
    | NewFrame(raw: seq<byte>, thr: byte)
    | FillByte
    | MarkFilled
    | AdvanceWriter
    | Signal
    | Wake
    | Look
    | Draw(k: nat, b: byte)     // processing marks the picture in place; at most one cell past it
    | MarkEmpty
    | AdvanceReader

  predicate Shaped(s: State) {
    s.n > 0 && |s.slots| == s.n && 0 <= s.writer < s.n && 0 <= s.reader < s.n
    && (forall i :: 0 <= i < s.n ==> |s.slots[i].data| == s.size)
    && (s.producer.Filling? ==> |s.producer.raw| == 2 * s.size && s.producer.k <= s.size)
  }

  predicate Enabled(s: State, step: Step) {
    match step
    case NewFrame(raw, _) => s.producer.Ready? && |raw| == 2 * s.size
    case FillByte => s.producer.Filling? && s.producer.k < s.size
    case MarkFilled => s.producer.Filling? && s.producer.k == s.size
    case AdvanceWriter => s.producer.Marked?
    case Signal => s.producer.Signalling?
    case Wake => s.consumer.Waiting? && s.newFrame
    case Look => s.consumer.Idle?
    case Draw(k, _) => s.consumer.Processing? && k <= s.size
    case MarkEmpty => s.consumer.Processing?
    case AdvanceReader => s.consumer.Released?
  }

  function SetByte(s: State, i: int, k: int, b: byte): State
    requires Shaped(s) && 0 <= i < s.n && 0 <= k < s.size
  {
    s.(slots := s.slots[i := s.slots[i].(data := s.slots[i].data[k := b])])
  }

  function SetFilled(s: State, i: int, filled: bool): State
    requires Shaped(s) && 0 <= i < s.n
  {
    s.(slots := s.slots[i := s.slots[i].(filled := filled)])
  }

  predicate Rejects(s: State, step: Step)
    requires Shaped(s)
  {
    step.NewFrame? && s.slots[s.writer].filled
  }

  function Apply(s: State, step: Step): State
    requires Shaped(s) && Enabled(s, step)
  {
    match step
    case NewFrame(raw, thr) => if Rejects(s, step) then s else s.(producer := Filling(raw, thr, 0))
    case FillByte =>
      var p := s.producer;
      SetByte(s, s.writer, p.k, Luma(p.raw, p.thr, s.size)[p.k]).(producer := p.(k := p.k + 1))
    case MarkFilled =>
      SetFilled(s, s.writer, true).(producer := Marked,
        accepted := s.accepted + [Luma(s.producer.raw, s.producer.thr, s.size)])
    case AdvanceWriter => s.(writer := NextSlot(s.n, s.writer), producer := Signalling)
    case Signal => s.(newFrame := true, producer := Ready)
    case Wake => s.(newFrame := false, consumer := Idle)
    case Look =>
      if s.slots[s.reader].filled then s.(consumer := Processing, seen := s.seen + [s.slots[s.reader].data])
      else s.(consumer := Waiting)
    case Draw(k, b) => if k < s.size then SetByte(s, s.reader, k, b) else s   // past it there is no other buffer
    case MarkEmpty => SetFilled(s, s.reader, false).(consumer := Released, released := s.released + 1)
    case AdvanceReader => s.(reader := NextSlot(s.n, s.reader), consumer := Waiting)
  }

  /** Freshly created buffers. */
  predicate Starts(s: State) {
    && Shaped(s) && s.writer == 0 && s.reader == 0 && s.producer.Ready? && s.consumer.Waiting?
    && (forall i :: 0 <= i < s.n ==> !s.slots[i].filled)
    && s.accepted == [] && s.seen == [] && s.released == 0 && !s.newFrame
  }

  // ---------- the invariant ----------

  /** The frames in the ring, oldest first. */
  function Queue(s: State): seq<seq<byte>>
    requires s.released <= |s.accepted|
  {
    s.accepted[s.released..]
  }

  predicate Counts(s: State) {
    && s.released <= |s.accepted| <= s.released + s.n
    && (s.producer.Marked? ==> |s.accepted| > 0)
    && (s.consumer.Released? ==> s.released > 0)
    && (s.consumer.Processing? ==> s.released < |s.accepted|)
    && (s.producer.Filling? ==> |s.accepted| < s.released + s.n)
  }

  predicate Positions(s: State)
    requires s.n > 0 && Counts(s)
  {
    && s.writer == SlotOf(s.n, |s.accepted| - if s.producer.Marked? then 1 else 0)
    && s.reader == SlotOf(s.n, s.released - if s.consumer.Released? then 1 else 0)
  }

  /** The filled slots are the arc from the oldest frame up to the newest. */
  predicate Arc(s: State)
    requires Shaped(s)
  {
    && (forall k :: s.released <= k < |s.accepted| ==> s.slots[SlotOf(s.n, k)].filled)
    && (forall k :: |s.accepted| <= k < s.released + s.n ==> !s.slots[SlotOf(s.n, k)].filled)
  }

  /** Every frame in the ring is as it was accepted, except the one being processed. */
  predicate Intact(s: State)
    requires Shaped(s)
  {
    forall k :: s.released + (if s.consumer.Processing? then 1 else 0) <= k < |s.accepted| ==>
      s.slots[SlotOf(s.n, k)].data == s.accepted[k]
  }

  predicate HalfWritten(s: State)
    requires Shaped(s)
  {
    s.producer.Filling? ==>
      forall i :: 0 <= i < s.producer.k ==>
        s.slots[s.writer].data[i] == Luma(s.producer.raw, s.producer.thr, s.size)[i]
  }

  predicate SeenInOrder(s: State)
    requires Counts(s)
  {
    s.seen == s.accepted[..s.released + if s.consumer.Processing? then 1 else 0]
  }

  predicate Full(s: State) {
    |s.accepted| == s.released + s.n
  }

  /** While the ring is full, the processing thread is awake or has been told, or is about to be. */
  predicate Announced(s: State) {
    Full(s) ==> s.newFrame || s.producer.Marked? || s.producer.Signalling? || s.consumer.Idle? || s.consumer.Processing?
  }

  predicate Invariant(s: State) {
    Shaped(s) && Counts(s) && Positions(s) && Arc(s) && Intact(s) && HalfWritten(s) && SeenInOrder(s) && Announced(s)
  }

  /** Changing one frame's slot leaves the other slots in the window alone. */
  lemma OnlySlot(n: nat, from: nat, k: nat)
    requires n > 0 && from <= k < from + n
    ensures forall j :: from <= j < from + n && j != k ==> SlotOf(n, j) != SlotOf(n, k)
  {
    hide SlotOf;
    forall j | from <= j < from + n && j != k ensures SlotOf(n, j) != SlotOf(n, k) {
      if j < k {
        SlotsDiffer(n, j, k);
      } else {
        SlotsDiffer(n, k, j);
      }
    }
  }

  lemma NewFrameKeeps(s: State, step: Step)
    requires Invariant(s) && Enabled(s, step) && step.NewFrame?
    ensures Invariant(Apply(s, step))
    ensures Rejects(s, step) <==> |Queue(s)| == s.n
  {
    hide SlotOf, Luma;
    var w := |s.accepted|;
    if w == s.released + s.n {
      SlotsDiffer(s.n, s.released, w);
    }
  }

  lemma FillByteKeeps(s: State)
    requires Invariant(s) && Enabled(s, FillByte)
    ensures Invariant(Apply(s, FillByte))
  {
    hide SlotOf, Luma;
    OnlySlot(s.n, s.released, |s.accepted|);
  }

  lemma MarkFilledKeeps(s: State)
    requires Invariant(s) && Enabled(s, MarkFilled)
    ensures Invariant(Apply(s, MarkFilled))
  {
    hide SlotOf, Luma;
    OnlySlot(s.n, s.released, |s.accepted|);
    var t := Apply(s, MarkFilled);
    var frame := Luma(s.producer.raw, s.producer.thr, s.size);
    LumaSize(s.producer.raw, s.producer.thr, s.size);
    assert t.slots[s.writer].data == frame;
    assert t.seen == t.accepted[..s.released + if s.consumer.Processing? then 1 else 0];
  }

  lemma LumaSize(raw: seq<byte>, thr: byte, size: nat)
    requires |raw| == 2 * size
    ensures |Luma(raw, thr, size)| == size
  {
  }

  lemma LookKeeps(s: State)
    requires Invariant(s) && Enabled(s, Look)
    ensures Invariant(Apply(s, Look))
  {
    hide SlotOf, Luma;
    var r := s.released;
    if s.slots[s.reader].filled {
      SlotsDiffer(s.n, r, r + s.n);
      assert r < |s.accepted|;
      assert s.accepted[..r + 1] == s.accepted[..r] + [s.accepted[r]];
    }
  }

  /** What processing starts on is the head of the queue; it finds nothing only when the queue is empty. */
  lemma LookTakesHead(s: State)
    requires Invariant(s) && Enabled(s, Look)
    ensures Apply(s, Look).seen == s.seen + if |Queue(s)| > 0 then [Queue(s)[0]] else []
  {
    hide SlotOf, Luma;
    SlotsDiffer(s.n, s.released, s.released + s.n);
    assert s.seen + [] == s.seen;
  }

  lemma SignalKeeps(s: State, step: Step)
    requires Invariant(s) && Enabled(s, step) && (step.Signal? || step.Wake?)
    ensures Invariant(Apply(s, step))
  {
    hide SlotOf, Luma;
  }

  lemma DrawKeeps(s: State, k: nat, b: byte)
    requires Invariant(s) && Enabled(s, Draw(k, b))
    ensures Invariant(Apply(s, Draw(k, b)))
  {
    hide SlotOf, Luma;
    OnlySlot(s.n, s.released, s.released);
  }

  lemma MarkEmptyKeeps(s: State)
    requires Invariant(s) && Enabled(s, MarkEmpty)
    ensures Invariant(Apply(s, MarkEmpty))
  {
    hide SlotOf, Luma;
    OnlySlot(s.n, s.released, s.released);
    SlotsDiffer(s.n, s.released, s.released + s.n);
  }

  lemma SlotNext(n: nat, k: nat)
    requires n > 0 && k > 0
    ensures SlotOf(n, k) == NextSlot(n, SlotOf(n, k - 1))
  {
  }

  lemma AdvanceWriterKeeps(s: State)
    requires Invariant(s) && Enabled(s, AdvanceWriter)
    ensures Invariant(Apply(s, AdvanceWriter))
  {
    SlotNext(s.n, |s.accepted|);
    hide SlotOf, NextSlot, Luma;
  }

  lemma AdvanceReaderKeeps(s: State)
    requires Invariant(s) && Enabled(s, AdvanceReader)
    ensures Invariant(Apply(s, AdvanceReader))
  {
    SlotNext(s.n, s.released);
    hide SlotOf, NextSlot, Luma;
  }

  lemma StepKeeps(s: State, step: Step)
    requires Invariant(s) && Enabled(s, step)
    ensures Invariant(Apply(s, step))
  {
    hide Invariant, Apply;
    match step
    case NewFrame(_, _) => NewFrameKeeps(s, step);
    case FillByte => FillByteKeeps(s);
    case MarkFilled => MarkFilledKeeps(s);
    case AdvanceWriter => AdvanceWriterKeeps(s);
    case Signal => SignalKeeps(s, step);
    case Wake => SignalKeeps(s, step);
    case Look => LookKeeps(s);
    case Draw(k, b) => DrawKeeps(s, k, b);
    case MarkEmpty => MarkEmptyKeeps(s);
    case AdvanceReader => AdvanceReaderKeeps(s);
  }

  lemma StartKeeps(s: State)
    requires Starts(s)
    ensures Invariant(s)
  {
  }

  // ---------- whole sessions ----------

  ghost predicate Reaches(s: State, steps: seq<Step>, t: State)
    requires Invariant(s)
    decreases |steps|
  {
    if |steps| == 0 then s == t
    else
      && Enabled(s, steps[0])
      && (StepKeeps(s, steps[0]); Reaches(Apply(s, steps[0]), steps[1..], t))
  }

  lemma {:induction false} RunKeeps(s: State, steps: seq<Step>, t: State)
    requires Invariant(s) && Reaches(s, steps, t)
    ensures Invariant(t)
    decreases |steps|
  {
    if |steps| > 0 {
      StepKeeps(s, steps[0]);
      hide Invariant;
      RunKeeps(Apply(s, steps[0]), steps[1..], t);
    }
  }

  /** However the two threads interleave, the pictures that processing sees are the accepted frames, in order,
      unmodified, none twice. */
  lemma SeenAreAccepted(s: State, steps: seq<Step>, t: State)
    requires Starts(s) && (StartKeeps(s); Reaches(s, steps, t))
    ensures t.seen <= t.accepted && |t.seen| >= t.released
  {
    StartKeeps(s);
    RunKeeps(s, steps, t);
  }

  predicate ByProducer(step: Step) {
    step.NewFrame? || step.FillByte? || step.MarkFilled? || step.AdvanceWriter? || step.Signal?
  }

  /** The camera thread never touches the picture being processed, nor processing the one being written. */
  lemma NoInterference(s: State, step: Step)
    requires Invariant(s) && Enabled(s, step)
    ensures s.consumer.Processing? && ByProducer(step) ==> Apply(s, step).slots[s.reader] == s.slots[s.reader]
    ensures s.producer.Filling? && !ByProducer(step) ==> Apply(s, step).slots[s.writer] == s.slots[s.writer]
  {
    hide SlotOf, Luma;
    if s.producer.Filling? && s.consumer.Processing? {
      OnlySlot(s.n, s.released, |s.accepted|);
    }
  }

  function QueueAfter(s: State, step: Step): seq<seq<byte>>
    requires Shaped(s) && Counts(s) && Enabled(s, step)
  {
    if step.MarkFilled? then Queue(s) + [Luma(s.producer.raw, s.producer.thr, s.size)]
    else if step.MarkEmpty? then Queue(s)[1..]
    else Queue(s)
  }

  lemma StepCounts(s: State, step: Step)
    requires Invariant(s) && Enabled(s, step)
    ensures Counts(Apply(s, step)) && Apply(s, step).n == s.n
  {
    StepKeeps(s, step);
    hide SlotOf, Luma, Counts;
  }

  /** Only marking a buffer filled or empty changes which frames are in the ring. */
  lemma QueueMoves(s: State, step: Step)
    requires Shaped(s) && Counts(s) && Enabled(s, step)
    ensures Apply(s, step).released == s.released + if step.MarkEmpty? then 1 else 0
    ensures Apply(s, step).accepted ==
      s.accepted + if step.MarkFilled? then [Luma(s.producer.raw, s.producer.thr, s.size)] else []
  {
    hide Luma;
    assert s.accepted + [] == s.accepted;
  }

  lemma OnlyLookSees(s: State, step: Step)
    requires Shaped(s) && Enabled(s, step) && !step.Look?
    ensures Apply(s, step).seen == s.seen
  {
  }

  /** The steps of the threads are those of a bounded queue: a frame joins at the end or leaves at the front, and what
      processing sees is always the one at the front. */
  lemma RefinesQueue(s: State, step: Step)
    requires Invariant(s) && Enabled(s, step)
    ensures Counts(Apply(s, step)) && |Queue(Apply(s, step))| <= s.n
    ensures Queue(Apply(s, step)) == QueueAfter(s, step)
    ensures step.Look? ==> Apply(s, step).seen == s.seen + if |Queue(s)| > 0 then [Queue(s)[0]] else []
    ensures !step.Look? ==> Apply(s, step).seen == s.seen
  {
    StepCounts(s, step);
    QueueMoves(s, step);
    if step.Look? {
      LookTakesHead(s);
    } else {
      OnlyLookSees(s, step);
    }
    hide Apply, SlotOf, Luma, Positions, Arc, Intact, HalfWritten, SeenInOrder;
  }

  // ---------- refusals come to an end ----------

  /** A step of the processing thread other than marking pixels. */
  predicate Moves(step: Step) {
    step.Wake? || step.Look? || step.MarkEmpty? || step.AdvanceReader?
  }

  /** How many moves are left until a buffer is freed. */
  function MovesLeft(s: State): nat {
    match s.consumer
    case Released => 4
    case Waiting => 3
    case Idle => 2
    case Processing => 1
  }

  /** The next move of the processing thread. */
  function NextMove(s: State): Step {
    match s.consumer
    case Released => AdvanceReader
    case Waiting => Wake
    case Idle => Look
    case Processing => MarkEmpty
  }

  /** While frames are refused, the processing thread can always move: it never sleeps through a full ring. */
  lemma FullNotAsleep(s: State)
    requires Invariant(s) && Full(s) && s.producer.Ready?
    ensures Enabled(s, NextMove(s))
  {
  }

  /** A move on a full ring brings the next free buffer one move nearer, and the last one frees it; nothing else that
      leaves the ring full sets it back. */
  lemma FullMoves(s: State, step: Step)
    requires Invariant(s) && Full(s) && Enabled(s, step)
    ensures Moves(step) && MovesLeft(s) == 1 ==> !Full(Apply(s, step))
    ensures Full(Apply(s, step)) ==> MovesLeft(Apply(s, step)) == MovesLeft(s) - if Moves(step) then 1 else 0
  {
    hide SlotOf, Luma;
    if step.Look? {
      SlotsDiffer(s.n, s.released, s.released + s.n);
      assert s.slots[SlotOf(s.n, s.released)].filled;
    }
  }

  function CountMoves(steps: seq<Step>): nat {
    if |steps| == 0 then 0 else (if Moves(steps[0]) then 1 else 0) + CountMoves(steps[1..])
  }

  /** The ring is full in every state on the way. */
  ghost predicate StaysFull(s: State, steps: seq<Step>)
    requires Invariant(s)
    decreases |steps|
  {
    Full(s) && (|steps| > 0 ==>
      && Enabled(s, steps[0])
      && (StepKeeps(s, steps[0]); StaysFull(Apply(s, steps[0]), steps[1..])))
  }

  /** However the threads interleave, while the ring stays full the processing thread makes at most three moves: frames
      are not refused for ever, as long as it is given its turns. */
  lemma {:induction false} RefusalsEnd(s: State, steps: seq<Step>)
    requires Invariant(s) && StaysFull(s, steps)
    ensures CountMoves(steps) < MovesLeft(s) <= 4
    decreases |steps|
  {
    if |steps| > 0 {
      StepKeeps(s, steps[0]);
      FullMoves(s, steps[0]);
      hide Invariant, Apply, Full;
      RefusalsEnd(Apply(s, steps[0]), steps[1..]);
    }
  }

  // ---------- the buffer table ----------

  /** Out-of-range indices count as the first buffer. */
  function Index(n: nat, i: int): int {
    if i < 0 || i > n - 1 then 0 else i
  }

  /** Table and index are those after the camera thread has marked its buffer filled and moved on. */
  predicate Written(s: State, slots: seq<Slot>, next: int)
    requires Shaped(s) && Enabled(s, MarkFilled)
  {
    var t := Apply(s, MarkFilled);
    Shaped(t) && slots == t.slots && next == Apply(t, AdvanceWriter).writer
  }

  /** Table and index are those after processing has marked its buffer empty and moved on. */
  predicate Read(s: State, slots: seq<Slot>, next: int)
    requires Shaped(s) && Enabled(s, MarkEmpty)
  {
    var t := Apply(s, MarkEmpty);
    Shaped(t) && slots == t.slots && next == Apply(t, AdvanceReader).reader
  }

  class Buffers {
    var slots: seq<Slot>

    /** The table of `count` empty buffers. */
    constructor (count: nat, size: nat)
      requires count > 0
      ensures |slots| == count
      ensures forall i :: 0 <= i < count ==> !slots[i].filled && |slots[i].data| == size
    {
      slots := seq(count, _ => Slot(false, seq(size, _ => 0)));
    }

    /** An index out of range counts as the first buffer. A new frame is refused when this fails for the writer. */
    predicate IsEmpty(i: int): (r: bool)
      requires |slots| > 0
      reads this
      ensures forall s, raw, thr :: Shaped(s) && s.slots == slots && s.writer == i ==>
        (Rejects(s, NewFrame(raw, thr)) <==> !r)
    {
      !slots[Index(|slots|, i)].filled
    }

    method BufferWritten(i: int) returns (next: int)
      requires |slots| > 0
      modifies this
      ensures |slots| == |old(slots)| && next == NextSlot(|slots|, Index(|slots|, i)) && 0 <= next < |slots|
      ensures var k := Index(|slots|, i); slots == old(slots)[k := old(slots)[k].(filled := true)]
      ensures forall s :: Shaped(s) && Enabled(s, MarkFilled) && s.slots == old(slots) && s.writer == i ==>
        Written(s, slots, next)
    {
      var k := i;
      if k < 0 || k > |slots| - 1 {
        k := 0;
      }
      slots := slots[k := slots[k].(filled := true)];
      k := k + 1;
      if k > |slots| - 1 {
        k := 0;
      }
      return k;
    }

    method BufferRead(i: int) returns (next: int)
      requires |slots| > 0
      modifies this
      ensures |slots| == |old(slots)| && next == NextSlot(|slots|, Index(|slots|, i)) && 0 <= next < |slots|
      ensures var k := Index(|slots|, i); slots == old(slots)[k := old(slots)[k].(filled := false)]
      ensures forall s :: Shaped(s) && Enabled(s, MarkEmpty) && s.slots == old(slots) && s.reader == i ==>
        Read(s, slots, next)
    {
      var k := i;
      if k < 0 || k > |slots| - 1 {
        k := 0;
      }
      slots := slots[k := slots[k].(filled := false)];
      k := k + 1;
      if k > |slots| - 1 {
        k := 0;
      }
      return k;
    }
  }
}

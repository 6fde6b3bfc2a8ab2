/** The prototype's byte-stream parser: messages, device stripes and frames from USB reads of any length. */
module MessageMachine {
  import opened Words
  import opened Options
  import TirDevice
  import TirPackets

  const NOP_MSGLEN := 0xEF
  const TBD0_MSGLEN := 0x07
  const TBD0_MSGID := 0x20
  const VALID_MIN_MSGLEN := 0x02
  const VALID_MAX_MSGLEN := 0x3E
  const VALID_MSGID := 0x1C
  const DEVICE_STRIPE_LEN := 4
  const VLINE_OFFSET := 12
  const HPIX_OFFSET := 80
  const CROPPED_NUM_VLINES := 288
  const CROPPED_NUM_HPIX := 710

  // ---------- stripes ----------

  datatype Stripe = Stripe(vline: int, hstart: int, hstop: int)

  type DeviceStripe = s: seq<byte> | |s| == DEVICE_STRIPE_LEN witness [0, 0, 0, 0]

  predicate IsVsync(s: DeviceStripe) {
    s == [0, 0, 0, 0]
  }

  function Translate(s: DeviceStripe): Stripe {
    var w := s[3];
    Stripe(
      s[0] as int + (if TirDevice.Flag(w, 0x20) then 0x100 else 0),
      s[1] as int + (if TirDevice.Flag(w, 0x10) then 0x200 else 0) + if TirDevice.Flag(w, 0x80) then 0x100 else 0,
      s[2] as int + (if TirDevice.Flag(w, 0x08) then 0x200 else 0) + if TirDevice.Flag(w, 0x40) then 0x100 else 0)
  }

  /** The prototype and the C driver read the same coordinates from a device stripe. */
  lemma DecodersAgree(s: DeviceStripe)
    ensures var t := TirPackets.DecodeStripe(s[0], s[1], s[2], s[3]);
      Translate(s) == Stripe(t.vline, t.hstart, t.hstop)
  {
  }

  function CropPixel(h: int): (r: int)
    ensures 0 <= r < CROPPED_NUM_HPIX
    ensures HPIX_OFFSET <= h < HPIX_OFFSET + CROPPED_NUM_HPIX ==> h == r + HPIX_OFFSET
    ensures (h < HPIX_OFFSET ==> r == 0) && (h >= HPIX_OFFSET + CROPPED_NUM_HPIX ==> r == CROPPED_NUM_HPIX - 1)
  {
    var x := if h - HPIX_OFFSET < 0 then 0 else h - HPIX_OFFSET;
    if x >= CROPPED_NUM_HPIX then CROPPED_NUM_HPIX - 1 else x
  }

  /** Columns are brought into the cropped range, lines only at the far end. */
  function Crop(s: Stripe): Stripe {
    var v := s.vline - VLINE_OFFSET;
    Stripe(if v >= CROPPED_NUM_VLINES then CROPPED_NUM_VLINES - 1 else v, CropPixel(s.hstart), CropPixel(s.hstop))
  }

  /** A cropped stripe lies in the cropped range exactly when it is not above the offset; otherwise its line is
      negative. */
  lemma CropLine(s: Stripe)
    ensures 0 <= Crop(s).vline < CROPPED_NUM_VLINES <==> s.vline >= VLINE_OFFSET
    ensures Crop(s).vline < 0 <==> s.vline < VLINE_OFFSET
    ensures s.vline < VLINE_OFFSET + CROPPED_NUM_VLINES ==> s.vline == Crop(s).vline + VLINE_OFFSET
    ensures s.vline >= VLINE_OFFSET + CROPPED_NUM_VLINES ==> Crop(s).vline == CROPPED_NUM_VLINES - 1
    ensures 0 <= Crop(s).hstart < CROPPED_NUM_HPIX && 0 <= Crop(s).hstop < CROPPED_NUM_HPIX
  {
  }

  /** A stripe of the device on line 3 is cropped to line -9. */
  lemma CroppedAbove()
    ensures Crop(Translate([3, 100, 110, 0])).vline == -9
  {
  }

  // ---------- the machine ----------

  datatype Mode = AwaitingHeader | ProcessingMsg | ChompingMsg

  datatype Machine = Machine(
    mode: Mode, queue: seq<byte>, msglen: int, msgid: int, msgcnt: int,
    pending: seq<Stripe>, frames: seq<seq<Stripe>>)

  /** A stripe joins the pending frame; a vsync finishes it. */
  function AddStripe(m: Machine, s: DeviceStripe): Machine {
    if IsVsync(s) then m.(frames := m.frames + [m.pending], pending := [])
    else m.(pending := m.pending + [Crop(Translate(s))])
  }

  /** One pass over the pending bytes; None when more bytes are needed. */
  function Step(m: Machine): Option<Machine> {
    match m.mode
    case AwaitingHeader =>
      if |m.queue| <= VALID_MIN_MSGLEN then None
      else
        var len, id := m.queue[0], m.queue[1];
        var n := m.(msglen := len, msgid := id);
        if len == NOP_MSGLEN then Some(n.(queue := m.queue[2..]))
        else if VALID_MIN_MSGLEN <= len <= VALID_MAX_MSGLEN && id == VALID_MSGID then
          Some(n.(queue := m.queue[2..], msgcnt := 2, mode := ProcessingMsg))
        else if len == TBD0_MSGLEN && id == TBD0_MSGID then
          Some(n.(queue := m.queue[2..], msgcnt := 2, mode := ChompingMsg))
        else Some(n.(queue := m.queue[1..]))
    case ProcessingMsg =>
      if |m.queue| < DEVICE_STRIPE_LEN then None
      else if m.msgcnt >= m.msglen then Some(m.(mode := AwaitingHeader))
      else Some(AddStripe(m, m.queue[..4]).(queue := m.queue[4..], msgcnt := m.msgcnt + 4))
    case ChompingMsg =>
      if |m.queue| == 0 then None
      else if m.msgcnt >= m.msglen then Some(m.(mode := AwaitingHeader))
      else Some(m.(queue := m.queue[1..], msgcnt := m.msgcnt + 1))
  }

  function Measure(m: Machine): nat {
    2 * |m.queue| + if m.mode.AwaitingHeader? then 0 else 1
  }

  lemma StepShrinks(m: Machine)
    ensures Step(m).Some? ==> Measure(Step(m).value) < Measure(m)
  {
  }

  function Run(m: Machine): (r: Machine)
    ensures Step(r).None?
    decreases Measure(m)
  {
    StepShrinks(m);
    if Step(m).None? then m else Run(Step(m).value)
  }

  function More(m: Machine, bytes: seq<byte>): Machine {
    m.(queue := m.queue + bytes)
  }

  /** A step that does not need more bytes does not look at them. */
  lemma StepIgnoresMore(m: Machine, b: seq<byte>)
    requires Step(m).Some?
    ensures Step(More(m, b)) == Some(More(Step(m).value, b))
  {
    var q := m.queue;
    assert (q + b)[1..] == q[1..] + b;
    assert |q| >= 2 ==> (q + b)[2..] == q[2..] + b;
    assert |q| >= 4 ==> (q + b)[4..] == q[4..] + b && (q + b)[..4] == q[..4];
  }

  lemma {:induction false} RunThenMore(m: Machine, b: seq<byte>)
    ensures Run(More(Run(m), b)) == Run(More(m, b))
    decreases Measure(m)
  {
    hide Step, Measure;
    if Step(m).Some? {
      StepShrinks(m);
      StepIgnoresMore(m, b);
      RunThenMore(Step(m).value, b);
    }
  }

  /** It does not matter how the bytes are split into reads. */
  lemma SplitDoesNotMatter(m: Machine, a: seq<byte>, b: seq<byte>)
    ensures Run(More(Run(More(m, a)), b)) == Run(More(m, a + b))
  {
    RunThenMore(More(m, a), b);
    assert m.queue + (a + b) == (m.queue + a) + b;
  }

  function Feed(m: Machine, chunks: seq<seq<byte>>): Machine {
    if |chunks| == 0 then m else Run(More(Feed(m, chunks[..|chunks| - 1]), chunks[|chunks| - 1]))
  }

  function Joined<T>(chunks: seq<seq<T>>): seq<T> {
    if |chunks| == 0 then [] else Joined(chunks[..|chunks| - 1]) + chunks[|chunks| - 1]
  }

  /** Any series of reads ends in the state, and with the frames, of one read of all the bytes. */
  lemma {:induction false} ReadsDoNotMatter(m: Machine, chunks: seq<seq<byte>>)
    requires |chunks| > 0
    ensures Feed(m, chunks) == Run(More(m, Joined(chunks)))
  {
    hide Run;
    var n := |chunks| - 1;
    if n == 0 {
      assert Feed(m, chunks[..0]) == m && [] + chunks[0] == chunks[0];
    } else {
      ReadsDoNotMatter(m, chunks[..n]);
      SplitDoesNotMatter(m, Joined(chunks[..n]), chunks[n]);
    }
  }

  // ---------- the frames of a stream of messages ----------

  /** A message of device stripes, one without content, or one that is skipped. */
  datatype Message = Data(words: seq<DeviceStripe>) | Nop(filler: byte) | Skipped(body: seq<byte>) {
    predicate Whole() {
      (Data? ==> |words| <= 15) && (Skipped? ==> |body| == TBD0_MSGLEN - VALID_MIN_MSGLEN)
    }

    function Bytes(): seq<byte>
      requires Whole()
    {
      match this
      case Data(words) => [VALID_MIN_MSGLEN + DEVICE_STRIPE_LEN * |words|, VALID_MSGID] + Laid(words)
      case Nop(filler) => [NOP_MSGLEN, filler]
      case Skipped(body) => [TBD0_MSGLEN, TBD0_MSGID] + body
    }

    function Words(): seq<DeviceStripe> {
      if Data? then words else []
    }
  }

  function Laid(words: seq<DeviceStripe>): (b: seq<byte>)
    ensures |b| == DEVICE_STRIPE_LEN * |words|
  {
    if |words| == 0 then [] else words[0] + Laid(words[1..])
  }

  predicate AllWhole(msgs: seq<Message>) {
    forall i :: 0 <= i < |msgs| ==> msgs[i].Whole()
  }

  /** The bytes of the messages. */
  function Packed(msgs: seq<Message>): seq<byte>
    requires AllWhole(msgs)
  {
    if |msgs| == 0 then [] else msgs[0].Bytes() + Packed(msgs[1..])
  }

  /** The device stripes of the messages. */
  function WordsOf(msgs: seq<Message>): seq<DeviceStripe> {
    if |msgs| == 0 then [] else msgs[0].Words() + WordsOf(msgs[1..])
  }

  const ZERO_WORD: DeviceStripe := [0, 0, 0, 0]

  /** The stripes of the nonzero words, in order. */
  ghost function StripesIn(ws: seq<DeviceStripe>): seq<Stripe> {
    if |ws| == 0 then []
    else
      var n := |ws| - 1;
      StripesIn(ws[..n]) + if ws[n] == ZERO_WORD then [] else [Crop(Translate(ws[n]))]
  }

  /** Groups of words, each followed by a zero word. */
  ghost function Closed(groups: seq<seq<DeviceStripe>>): seq<DeviceStripe> {
    if |groups| == 0 then [] else Closed(groups[..|groups| - 1]) + groups[|groups| - 1] + [ZERO_WORD]
  }

  /** One stripe for each word of a group, which holds no zero word. */
  ghost predicate IsFrame(group: seq<DeviceStripe>, frame: seq<Stripe>) {
    |frame| == |group| && forall k :: 0 <= k < |group| ==>
      group[k] != ZERO_WORD && frame[k] == Crop(Translate(group[k]))
  }

  ghost predicate FramedAs(ws: seq<DeviceStripe>, groups: seq<seq<DeviceStripe>>, rest: seq<DeviceStripe>,
                           frames: seq<seq<Stripe>>, pending: seq<Stripe>)
  {
    && ws == Closed(groups) + rest && |frames| == |groups|
    && (forall i :: 0 <= i < |frames| ==> IsFrame(groups[i], frames[i]))
    && IsFrame(rest, pending)
  }

  /** Frame i holds the stripes of the words between zero word i and the zero word before it, and pending those of the
      words after the last zero word. */
  ghost predicate Framed(ws: seq<DeviceStripe>, frames: seq<seq<Stripe>>, pending: seq<Stripe>) {
    exists groups, rest :: FramedAs(ws, groups, rest, frames, pending)
  }

  lemma {:induction false} StripesAppend(a: seq<DeviceStripe>, b: seq<DeviceStripe>)
    ensures StripesIn(a + b) == StripesIn(a) + StripesIn(b)
  {
    hide Crop, Translate;
    if |b| == 0 {
      assert a + b == a;
    } else {
      var n := |b| - 1;
      StripesAppend(a, b[..n]);
      assert (a + b)[..|a + b| - 1] == a + b[..n];
    }
  }

  lemma {:induction false} StripesOfGroup(group: seq<DeviceStripe>, frame: seq<Stripe>)
    requires IsFrame(group, frame)
    ensures StripesIn(group) == frame
  {
    hide Crop, Translate;
    if |group| > 0 {
      var n := |group| - 1;
      StripesOfGroup(group[..n], frame[..n]);
      assert frame == frame[..n] + [frame[n]];
    }
  }

  lemma {:induction false} StripesOfClosed(groups: seq<seq<DeviceStripe>>, frames: seq<seq<Stripe>>)
    requires |frames| == |groups| && forall i :: 0 <= i < |frames| ==> IsFrame(groups[i], frames[i])
    ensures StripesIn(Closed(groups)) == Joined(frames)
  {
    if |groups| > 0 {
      var n := |groups| - 1;
      hide IsFrame;
      StripesOfClosed(groups[..n], frames[..n]);
      StripesOfGroup(groups[n], frames[n]);
      var a := Closed(groups[..n]) + groups[n];
      StripesAppend(Closed(groups[..n]), groups[n]);
      assert (a + [ZERO_WORD])[..|a|] == a;
    }
  }

  /** No stripe is lost, repeated or moved: the frames joined, followed by the pending stripes, are the stripes of all
      nonzero words in order. */
  lemma FramesRejoin(ws: seq<DeviceStripe>, frames: seq<seq<Stripe>>, pending: seq<Stripe>)
    requires Framed(ws, frames, pending)
    ensures Joined(frames) + pending == StripesIn(ws)
  {
    var groups, rest :| FramedAs(ws, groups, rest, frames, pending);
    StripesOfClosed(groups, frames);
    StripesOfGroup(rest, pending);
    StripesAppend(Closed(groups), rest);
  }

  lemma AddWord(ws: seq<DeviceStripe>, m: Machine, w: DeviceStripe)
    requires Framed(ws, m.frames, m.pending)
    ensures var n := AddStripe(m, w); Framed(ws + [w], n.frames, n.pending)
  {
    hide Crop, Translate;
    var groups, rest :| FramedAs(ws, groups, rest, m.frames, m.pending);
    if IsVsync(w) {
      var more := groups + [rest];
      assert more[..|groups|] == groups;
      assert Closed(more) + [] == ws + [w];
      assert FramedAs(ws + [w], more, [], m.frames + [m.pending], []);
    } else {
      assert Closed(groups) + (rest + [w]) == ws + [w];
      assert FramedAs(ws + [w], groups, rest + [w], m.frames, m.pending + [Crop(Translate(w))]);
    }
  }

  // ---------- a stream of messages, pass by pass ----------

  /** The words of one message are taken one by one. */
  lemma {:induction false} TakeWords(before: seq<DeviceStripe>, m: Machine, words: seq<DeviceStripe>, rest: seq<byte>)
    returns (n: Machine)
    requires Framed(before, m.frames, m.pending) && m.queue == Laid(words) + rest
    requires m.mode.ProcessingMsg? && m.msgcnt + DEVICE_STRIPE_LEN * |words| == m.msglen
    ensures Run(m) == Run(n) && n.mode.ProcessingMsg? && n.msgcnt == n.msglen && n.queue == rest
    ensures Framed(before + words, n.frames, n.pending)
    decreases |words|
  {
    hide Framed;
    if |words| == 0 {
      assert before + words == before && m.queue == rest;
      n := m;
    } else {
      AddWord(before, m, words[0]);
      assert m.queue[..4] == words[0] && m.queue[4..] == Laid(words[1..]) + rest;
      var next := AddStripe(m, words[0]).(queue := m.queue[4..], msgcnt := m.msgcnt + 4);
      assert Step(m) == Some(next);
      n := TakeWords(before + [words[0]], next, words[1..], rest);
      assert before + [words[0]] + words[1..] == before + words;
    }
  }

  lemma {:induction false} SkipBytes(m: Machine, body: seq<byte>, rest: seq<byte>) returns (n: Machine)
    requires m.mode.ChompingMsg? && m.queue == body + rest && m.msgcnt + |body| == m.msglen
    ensures Run(m) == Run(n) && n == m.(queue := rest, msgcnt := m.msglen)
    decreases |body|
  {
    if |body| == 0 {
      assert m.queue == rest;
      n := m;
    } else {
      var next := m.(queue := m.queue[1..], msgcnt := m.msgcnt + 1);
      assert Step(m) == Some(next) && next.queue == body[1..] + rest;
      n := SkipBytes(next, body[1..], rest);
    }
  }

  /** Between messages. */
  ghost predicate AtBoundary(m: Machine) {
    m.mode.AwaitingHeader? || m.msgcnt == m.msglen
  }

  lemma {:induction false} FewBytesNoWords(msgs: seq<Message>)
    requires AllWhole(msgs) && |Packed(msgs)| < 6
    ensures WordsOf(msgs) == []
  {
    if |msgs| > 0 {
      FewBytesNoWords(msgs[1..]);
    }
  }

  /** The header of the next message, and then the message. */
  lemma TakeMessage(before: seq<DeviceStripe>, m: Machine, msg: Message, rest: seq<byte>) returns (n: Machine)
    requires Framed(before, m.frames, m.pending) && msg.Whole() && m.queue == msg.Bytes() + rest
    requires m.mode.AwaitingHeader? && |m.queue| > 2
    ensures Run(m) == Run(n) && AtBoundary(n) && n.queue == rest
    ensures Framed(before + msg.Words(), n.frames, n.pending)
  {
    hide Framed, AddStripe;
    assert before + [] == before;
    var len, id := m.queue[0], m.queue[1];
    match msg
    case Nop(_) =>
      n := m.(msglen := len, msgid := id, queue := m.queue[2..]);
      assert n.queue == rest;
    case Data(words) =>
      var next := m.(msglen := len, msgid := id, queue := m.queue[2..], msgcnt := 2, mode := ProcessingMsg);
      assert Step(m) == Some(next) && next.queue == Laid(words) + rest;
      n := TakeWords(before, next, words, rest);
    case Skipped(body) =>
      var next := m.(msglen := len, msgid := id, queue := m.queue[2..], msgcnt := 2, mode := ChompingMsg);
      assert Step(m) == Some(next) && next.queue == body + rest;
      n := SkipBytes(next, body, rest);
  }

  lemma {:induction false} TakeMessages(before: seq<DeviceStripe>, m: Machine, msgs: seq<Message>)
    requires Framed(before, m.frames, m.pending) && AllWhole(msgs) && AtBoundary(m) && m.queue == Packed(msgs)
    ensures Framed(before + WordsOf(msgs), Run(m).frames, Run(m).pending)
    decreases |msgs|, if m.mode.AwaitingHeader? then 0 else 1
  {
    hide Framed, AddStripe, Message.Bytes, Message.Words;
    if Step(m).None? {
      FewBytesNoWords(msgs);
      assert before + WordsOf(msgs) == before;
    } else if !m.mode.AwaitingHeader? {
      TakeMessages(before, m.(mode := AwaitingHeader), msgs);
    } else {
      hide Step;
      var n := TakeMessage(before, m, msgs[0], Packed(msgs[1..]));
      TakeMessages(before + msgs[0].Words(), n, msgs[1..]);
      assert before + msgs[0].Words() + WordsOf(msgs[1..]) == before + WordsOf(msgs);
    }
  }

  /** The state of a new processor. */
  const FRESH := Machine(AwaitingHeader, [], 0, -1, 0, [], [])

  /** Whole messages sent to a new machine give the frames of their words. */
  lemma FramesOfMessages(msgs: seq<Message>)
    requires AllWhole(msgs)
    ensures var r := Run(More(FRESH, Packed(msgs)));
      Framed(WordsOf(msgs), r.frames, r.pending) && Joined(r.frames) + r.pending == StripesIn(WordsOf(msgs))
  {
    var m := More(FRESH, Packed(msgs));
    assert m.queue == Packed(msgs);
    assert FramedAs([], [], [], [], []);
    TakeMessages([], m, msgs);
    assert [] + WordsOf(msgs) == WordsOf(msgs);
    FramesRejoin(WordsOf(msgs), Run(m).frames, Run(m).pending);
  }

  /** So they do when the bytes arrive in several reads. */
  lemma FramesOfReads(msgs: seq<Message>, chunks: seq<seq<byte>>)
    requires AllWhole(msgs) && |chunks| > 0 && Joined(chunks) == Packed(msgs)
    ensures var r := Feed(FRESH, chunks);
      Framed(WordsOf(msgs), r.frames, r.pending) && Joined(r.frames) + r.pending == StripesIn(WordsOf(msgs))
  {
    ReadsDoNotMatter(FRESH, chunks);
    FramesOfMessages(msgs);
  }

  class MessageProcessor {
    var inbyteq: seq<byte>
    var outframeq: seq<seq<Stripe>>
    var pendingFrame: seq<Stripe>
    var msglen: int
    var msgid: int
    var msgcnt: int
    var updating: bool
    var mode: Mode

    ghost function State(): Machine
      reads this
    {
      Machine(mode, inbyteq, msglen, msgid, msgcnt, pendingFrame, outframeq)
    }

    constructor ()
      ensures State() == FRESH
    {
      inbyteq, outframeq, pendingFrame := [], [], [];
      msglen, msgid, msgcnt, updating, mode := 0, -1, 0, false, AwaitingHeader;
    }

    method AddBytes(bytes: seq<byte>)
      modifies this
      ensures State() == Run(More(old(State()), bytes))
      ensures old(State()) == FRESH ==> forall msgs | AllWhole(msgs) && Packed(msgs) == bytes ::
        Framed(WordsOf(msgs), outframeq, pendingFrame) && Joined(outframeq) + pendingFrame == StripesIn(WordsOf(msgs))
    {
      hide Step, Measure, Framed, Joined, StripesIn, Packed;
      forall msgs | AllWhole(msgs) && Packed(msgs) == bytes && State() == FRESH
        ensures var r := Run(More(FRESH, bytes));
          Framed(WordsOf(msgs), r.frames, r.pending) && Joined(r.frames) + r.pending == StripesIn(WordsOf(msgs))
      {
        FramesOfMessages(msgs);
      }
      inbyteq := inbyteq + bytes;
      updating := true;
      while updating
        invariant Run(State()) == Run(More(old(State()), bytes))
        invariant !updating ==> Step(State()).None?
        decreases Measure(State()), updating
      {
        StepShrinks(State());
        ProcessPendingBytes();
      }
    }

    method ProcessPendingBytes()
      requires updating
      modifies this
      ensures updating == old(Step(State())).Some?
      ensures State() == if updating then old(Step(State())).value else old(State())
      ensures if old(mode.ProcessingMsg? && |inbyteq| >= DEVICE_STRIPE_LEN && msgcnt < msglen) then
          var word := old(inbyteq)[..4];
          && inbyteq == old(inbyteq)[4..]
          && (word == [0, 0, 0, 0] ==> outframeq == old(outframeq) + [old(pendingFrame)] && pendingFrame == [])
          && (word != [0, 0, 0, 0] ==>
                outframeq == old(outframeq) && pendingFrame == old(pendingFrame) + [Crop(Translate(word))])
        else outframeq == old(outframeq) && pendingFrame == old(pendingFrame)
    {
      match mode
      case AwaitingHeader =>
        if |inbyteq| > VALID_MIN_MSGLEN {
          msglen, msgid := inbyteq[0], inbyteq[1];
          if msglen == NOP_MSGLEN {
            inbyteq := inbyteq[VALID_MIN_MSGLEN..];
          } else if msglen <= VALID_MAX_MSGLEN && msglen >= VALID_MIN_MSGLEN && msgid == VALID_MSGID {
            msgcnt := VALID_MIN_MSGLEN;
            inbyteq := inbyteq[VALID_MIN_MSGLEN..];
            mode := ProcessingMsg;
          } else if msglen == TBD0_MSGLEN && msgid == TBD0_MSGID {
            msgcnt := VALID_MIN_MSGLEN;
            inbyteq := inbyteq[VALID_MIN_MSGLEN..];
            mode := ChompingMsg;
          } else {
            inbyteq := inbyteq[1..];
          }
        } else {
          updating := false;
        }
      case ProcessingMsg =>
        if |inbyteq| < DEVICE_STRIPE_LEN {
          updating := false;
        } else if msgcnt >= msglen {
          mode := AwaitingHeader;
        } else {
          AddDeviceStripe(inbyteq[..4]);
          inbyteq := inbyteq[4..];
          msgcnt := msgcnt + 4;
        }
      case ChompingMsg =>
        if |inbyteq| == 0 {
          updating := false;
        } else if msgcnt >= msglen {
          mode := AwaitingHeader;
        } else {
          inbyteq := inbyteq[1..];
          msgcnt := msgcnt + 1;
        }
    }

    method AddDeviceStripe(s: DeviceStripe)
      modifies `outframeq, `pendingFrame
      ensures State() == AddStripe(old(State()), s)
    {
      if IsVsync(s) {
        outframeq := outframeq + [pendingFrame];
        pendingFrame := [];
      } else {
        pendingFrame := pendingFrame + [Crop(Translate(s))];
      }
    }
  }
}

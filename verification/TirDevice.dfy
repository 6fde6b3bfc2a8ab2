/** The simulated TrackIR 4: LEDs, video, threshold, firmware checksum, and a queue of answers. */
module TirDevice {
  import opened Words

  // ---------- the firmware checksum ----------

  /** The sums on the way through some bytes: each byte is added in 32-bit arithmetic, and then sixteen times the byte
      is crossed with the sum, which crossing again shows. */
  ghost predicate ChecksumRun(ws: seq<uint32>, bytes: seq<byte>) {
    && |ws| == |bytes| + 1
    && forall i :: 0 <= i < |bytes| ==> Xor(ws[i + 1], (ws[i] + bytes[i]) % 0x1_0000_0000) == bytes[i] as int * 16
  }

  /** Carried on from sum s, the checksum of the bytes is c: the low sixteen bits of the last sum. */
  ghost predicate SumsTo(s: uint32, bytes: seq<byte>, c: uint32) {
    exists ws :: ChecksumRun(ws, bytes) && ws[0] == s && c == ws[|bytes|] % 0x1_0000
  }

  /** One byte of the checksum, in 32-bit arithmetic. */
  function Mix(c: uint32, b: byte): uint32 {
    Xor32(Add32(c, b), b * 16)
  }

  function MixAll(c: uint32, bytes: seq<byte>): uint32 {
    if |bytes| == 0 then c else Mix(MixAll(c, bytes[..|bytes| - 1]), bytes[|bytes| - 1])
  }

  /** The checksum of an image: all bytes, then the low sixteen bits. */
  function Checksum(bytes: seq<byte>): (c: uint32)
    ensures SumsTo(0, bytes, c)
    ensures forall d :: SumsTo(0, bytes, d) ==> d == c
  {
    SumsToIsMix(0, bytes);
    MixAll(0, bytes) % 0x1_0000
  }

  /** A step of a run is a step of the function, and back. */
  lemma StepIsMix(c: uint32, b: byte, d: uint32)
    ensures Xor(d, (c + b) % 0x1_0000_0000) == 16 * b <==> d == Mix(c, b)
  {
    hide Xor;
    var sum: uint32 := (c + b) % 0x1_0000_0000;
    XorCancels(d, sum);
    XorCancels(16 * b, sum);
    XorCommutes(16 * b, sum);
  }

  lemma {:induction false} RunIsMix(ws: seq<uint32>, bytes: seq<byte>)
    requires ChecksumRun(ws, bytes)
    ensures ws[|bytes|] == MixAll(ws[0], bytes)
  {
    hide Xor, Mix;
    if |bytes| > 0 {
      var n := |bytes| - 1;
      RunIsMix(ws[..n + 1], bytes[..n]);
      StepIsMix(ws[n], bytes[n], ws[n + 1]);
    }
  }

  lemma {:induction false} RunExists(s: uint32, bytes: seq<byte>) returns (ws: seq<uint32>)
    ensures ChecksumRun(ws, bytes) && ws[0] == s
  {
    if |bytes| == 0 {
      ws := [s];
    } else {
      var n := |bytes| - 1;
      var rest := RunExists(s, bytes[..n]);
      hide Xor, Mix;
      StepIsMix(rest[n], bytes[n], Mix(rest[n], bytes[n]));
      ws := rest + [Mix(rest[n], bytes[n])];
    }
  }

  lemma SumsToIsMix(s: uint32, bytes: seq<byte>)
    ensures forall c :: SumsTo(s, bytes, c) <==> c == MixAll(s, bytes) % 0x1_0000
  {
    hide Xor, MixAll;
    forall c ensures SumsTo(s, bytes, c) <==> c == MixAll(s, bytes) % 0x1_0000 {
      if SumsTo(s, bytes, c) {
        var ws :| ChecksumRun(ws, bytes) && ws[0] == s && c == ws[|bytes|] % 0x1_0000;
        RunIsMix(ws, bytes);
      }
      if c == MixAll(s, bytes) % 0x1_0000 {
        var ws := RunExists(s, bytes);
        RunIsMix(ws, bytes);
      }
    }
  }

  /** No carry or shift reaches down, so the low bits of a step depend only on low bits. */
  lemma MixLow(c: uint32, d: uint32, b: byte)
    requires c % 0x1_0000 == d % 0x1_0000
    ensures Mix(c, b) % 0x1_0000 == Mix(d, b) % 0x1_0000
  {
    hide Xor;
    hide Xor32;
    AddLow(c, b);
    AddLow(d, b);
    hide Add32;
    Xor16(Add32(c, b), b * 16);
    Xor16(Add32(d, b), b * 16);
  }

  lemma AddLow(c: uint32, b: byte)
    ensures Add32(c, b) % 0x1_0000 == (c % 0x1_0000 + b) % 0x1_0000
  {
  }

  lemma {:induction false} MixAllLow(c: uint32, d: uint32, bytes: seq<byte>)
    requires c % 0x1_0000 == d % 0x1_0000
    ensures MixAll(c, bytes) % 0x1_0000 == MixAll(d, bytes) % 0x1_0000
  {
    hide Mix;
    if |bytes| > 0 {
      var n := |bytes| - 1;
      MixAllLow(c, d, bytes[..n]);
      MixLow(MixAll(c, bytes[..n]), MixAll(d, bytes[..n]), bytes[n]);
    }
  }

  lemma {:induction false} MixAllAppend(c: uint32, a: seq<byte>, b: seq<byte>)
    ensures MixAll(c, a + b) == MixAll(MixAll(c, a), b)
  {
    hide Mix;
    if |b| == 0 {
      assert a + b == a;
    } else {
      var n := |b| - 1;
      MixAllAppend(c, a, b[..n]);
      assert (a + b)[..|a + b| - 1] == a + b[..n];
    }
  }

  /** Only the low sixteen bits that a sum is carried on from matter to the checksum, and there is one checksum. */
  lemma ChecksumsAgree(s: uint32, t: uint32, bytes: seq<byte>, c: uint32, d: uint32)
    requires s % 0x1_0000 == t % 0x1_0000 && SumsTo(s, bytes, c) && SumsTo(t, bytes, d)
    ensures c == d
  {
    hide SumsTo;
    SumsToIsMix(s, bytes);
    SumsToIsMix(t, bytes);
    MixAllLow(s, t, bytes);
  }

  /** Cutting to sixteen bits after every chunk, as the device does, gives the host's checksum of the whole. */
  lemma ChunkedChecksum(s: uint32, a: seq<byte>, b: seq<byte>, c: uint32, d: uint32)
    requires SumsTo(s, a, c)
    ensures SumsTo(c, b, d) <==> SumsTo(s, a + b, d)
  {
    hide MixAll, SumsTo;
    SumsToIsMix(s, a);
    SumsToIsMix(c, b);
    SumsToIsMix(s, a + b);
    MixAllLow(c, MixAll(s, a), b);
    MixAllAppend(s, a, b);
  }

  /** The image of one byte 1 has the checksum 17. */
  lemma ChecksumOfOne()
    ensures Checksum([1]) == 17
  {
    XorSixteen();
    assert ChecksumRun([0, 17], [1]);
    assert SumsTo(0, [1], 17);
  }

  lemma XorSixteen()
    ensures Xor(17, 1) == 16
  {
    assert Xor(8, 0) == 2 * Xor(4, 0) && Xor(4, 0) == 2 * Xor(2, 0);
  }

  // ---------- packets ----------

  type Packet = seq<byte>

  function StatusPacket(loaded: bool, csum: uint32, active: bool): (p: Packet)
    ensures |p| == 7
  {
    [0x07, 0x20, 0x01, if loaded then 1 else 0, csum / 256 % 256, csum % 256, if active then 2 else 1]
  }

  function ConfigPacket(): (p: Packet)
    ensures |p| == 20 && p[1] == 0x40
  {
    [0x14, 0x40, 0x03, 0x01, 0x01, 0x83, 0xF5, 0x05, 0x00, 0x00,
     0x78, 0x01, 0x63, 0x01, 0x20, 0xB4, 0x00, 0x00, 0x00, 0x00]
  }

  function WhateverPacket(): (p: Packet)
    ensures |p| == 6
  {
    [0x06, 0x10, 0x03, 0x11, 0x21, 0x00]
  }

  /** Long enough for the bytes its command reads. */
  predicate Complete(p: Packet) {
    |p| > 0 ==>
      && (p[0] == 0x10 ==> |p| >= 3)
      && (p[0] == 0x14 ==> |p| >= 2)
      && (p[0] == 0x15 ==> |p| >= 4)
  }

  predicate Starts(p: Packet, command: byte) {
    |p| > 0 && p[0] == command
  }

  /** Starts or continues a firmware upload. */
  predicate Uploads(p: Packet) {
    Starts(p, 0x1B) || Starts(p, 0x1C)
  }

  /** What the device queues up on a command. */
  function Answer(p: Packet, loaded: bool, csum: uint32, active: bool): seq<Packet> {
    if Starts(p, 0x1D) then [StatusPacket(loaded, csum, active)]
    else if Starts(p, 0x1F) then [WhateverPacket()]
    else if Starts(p, 0x17) then [ConfigPacket()]
    else []
  }

  /** The commands that the TrackIR 4 handles itself. */
  predicate ForBoard(p: Packet) {
    |p| > 0 && (p[0] == 0x1B || p[0] == 0x1C || p[0] == 0x1D || p[0] == 0x1F || p[0] == 0x20)
  }

  /** The one-bit mask `m` is set in `b`. */
  predicate Flag(b: byte, m: byte)
    requires m > 0
  {
    b / m % 2 == 1
  }

  class Device {
    var videoOn: bool
    var cameraOn: bool
    var ledR: bool
    var ledG: bool
    var ledB: bool
    var ledIr: bool
    var threshold: int
    var firmwareLoaded: bool
    var firmwareCsum: uint32
    var firmwareActive: bool
    var queue: seq<Packet>

    ghost var uploads: nat   // upload packets received so far

    ghost predicate Valid()
      reads this
    {
      && (forall p :: p in queue ==> 0 < |p| <= 20)
      && firmwareCsum < 0x1_0000
    }

    constructor ()
      ensures Valid() && queue == [] && !videoOn && !cameraOn && !firmwareLoaded && !firmwareActive
    {
      videoOn, cameraOn, ledR, ledG, ledB, ledIr, threshold := false, false, false, false, false, false, 0;
      firmwareLoaded, firmwareCsum, firmwareActive := false, 0, false;
      queue, uploads := [], 0;
    }

    method SetLeds(leds: byte, mask: byte)
      modifies `ledIr, `ledB, `ledG, `ledR
      ensures ledIr == if Flag(mask, 0x80) then Flag(leds, 0x80) else old(ledIr)
      ensures ledB == if Flag(mask, 0x40) then Flag(leds, 0x40) else old(ledB)
      ensures ledG == if Flag(mask, 0x20) then Flag(leds, 0x20) else old(ledG)
      ensures ledR == if Flag(mask, 0x10) then Flag(leds, 0x10) else old(ledR)
    {
      if Flag(mask, 0x80) { ledIr := Flag(leds, 0x80); }
      if Flag(mask, 0x40) { ledB := Flag(leds, 0x40); }
      if Flag(mask, 0x20) { ledG := Flag(leds, 0x20); }
      if Flag(mask, 0x10) { ledR := Flag(leds, 0x10); }
    }

    /** The firmware and status commands; everything else is the base device's. */
    method SendPacket(p: Packet)
      requires Valid() && Complete(p)
      modifies this
      ensures Valid()
      ensures uploads == old(uploads) + if Uploads(p) then 1 else 0
      ensures Starts(p, 0x1B) ==> !firmwareLoaded && !firmwareActive && firmwareCsum == 0
      ensures Starts(p, 0x1C) ==>
        firmwareLoaded && firmwareActive == old(firmwareActive) &&
        SumsTo(old(firmwareCsum), if |p| > 2 then p[2..] else [], firmwareCsum)
      ensures !Uploads(p) ==>
        firmwareLoaded == old(firmwareLoaded) && firmwareCsum == old(firmwareCsum) &&
        firmwareActive == (old(firmwareActive) || Starts(p, 0x20))
      ensures queue == old(queue) + Answer(p, firmwareLoaded, firmwareCsum, firmwareActive)
      ensures if |p| == 0 || ForBoard(p) then BaseUnchanged() else BaseAfter(p)
    {
      hide SumsTo;
      hide StatusPacket;
      hide ConfigPacket;
      hide WhateverPacket;
      if |p| == 0 {
        return;
      }
      if Uploads(p) {
        TakeUpload(p);
      } else if ForBoard(p) {
        TakeQuery(p);
      } else {
        BaseSend(p);
      }
    }

    method TakeUpload(p: Packet)
      requires Uploads(p)
      modifies `firmwareLoaded, `firmwareCsum, `firmwareActive, `uploads
      ensures firmwareCsum < 0x1_0000
      ensures uploads == old(uploads) + 1
      ensures p[0] == 0x1B ==> !firmwareLoaded && !firmwareActive && firmwareCsum == 0
      ensures p[0] == 0x1C ==>
        firmwareLoaded && firmwareActive == old(firmwareActive) &&
        SumsTo(old(firmwareCsum), if |p| > 2 then p[2..] else [], firmwareCsum)
    {
      hide SumsTo;
      if p[0] == 0x1B {
        firmwareLoaded, firmwareActive, firmwareCsum := false, false, 0;
      } else {
        LoadFirmware(p);
      }
      uploads := uploads + 1;
    }

    method TakeQuery(p: Packet)
      requires ForBoard(p) && !Uploads(p)
      modifies `firmwareActive, `queue
      ensures firmwareActive == (old(firmwareActive) || p[0] == 0x20)
      ensures queue == old(queue) + Answer(p, firmwareLoaded, firmwareCsum, firmwareActive)
    {
      hide StatusPacket;
      hide ConfigPacket;
      hide WhateverPacket;
      if p[0] == 0x1D {
        queue := queue + [StatusPacket(firmwareLoaded, firmwareCsum, firmwareActive)];
      } else if p[0] == 0x1F {
        queue := queue + [WhateverPacket()];
      } else {
        firmwareActive := true;
      }
    }

    method AddByte(b: byte)
      modifies `firmwareCsum
      ensures Xor(firmwareCsum, (old(firmwareCsum) + b) % 0x1_0000_0000) == 16 * b
    {
      XorCommutes((firmwareCsum + b) % 0x1_0000_0000, b * 16);
      XorCancels(b * 16, (firmwareCsum + b) % 0x1_0000_0000);
      firmwareCsum := Add32(firmwareCsum, b);
      firmwareCsum := Xor32(firmwareCsum, b * 16);
    }

    method LoadFirmware(p: Packet)
      modifies `firmwareCsum, `firmwareLoaded
      ensures firmwareLoaded
      ensures SumsTo(old(firmwareCsum), if |p| > 2 then p[2..] else [], firmwareCsum)
      ensures firmwareCsum < 0x1_0000
    {
      ghost var payload := if |p| > 2 then p[2..] else [];
      ghost var ws := [firmwareCsum];
      var i := 2;
      while i < |p|
        invariant i >= 2 && (i <= |p| || i == 2)
        invariant ChecksumRun(ws, payload[..i - 2])
        invariant ws[0] == old(firmwareCsum) && ws[i - 2] == firmwareCsum
      {
        hide Xor;
        AddByte(p[i]);
        ws := ws + [firmwareCsum];
        i := i + 1;
      }
      assert payload[..i - 2] == payload;
      firmwareCsum := firmwareCsum % 0x1_0000;
      firmwareLoaded := true;
    }

    twostate predicate BaseUnchanged()
      reads this
    {
      && videoOn == old(videoOn) && cameraOn == old(cameraOn) && threshold == old(threshold)
      && ledIr == old(ledIr) && ledB == old(ledB) && ledG == old(ledG) && ledR == old(ledR)
    }

    /** What the base device makes of its commands. */
    twostate predicate BaseAfter(p: Packet)
      requires |p| > 0 && Complete(p)
      reads this
    {
      && (if p[0] == 0x10 then
            && ledIr == (if Flag(p[2], 0x80) then Flag(p[1], 0x80) else old(ledIr))
            && ledB == (if Flag(p[2], 0x40) then Flag(p[1], 0x40) else old(ledB))
            && ledG == (if Flag(p[2], 0x20) then Flag(p[1], 0x20) else old(ledG))
            && ledR == (if Flag(p[2], 0x10) then Flag(p[1], 0x10) else old(ledR))
          else ledIr == old(ledIr) && ledB == old(ledB) && ledG == old(ledG) && ledR == old(ledR))
      && videoOn == (if p[0] == 0x14 && p[1] == 0 then true
                     else if p[0] == 0x14 && p[1] == 1 then false
                     else old(videoOn))
      && cameraOn == (if p[0] == 0x14 && p[1] == 0 then true else if p[0] == 0x13 then false else old(cameraOn))
      && threshold == (if p[0] == 0x15 && p[2] == 1 && p[3] == 0 && 0x28 <= p[1] <= 0xFD then p[1] else old(threshold))
    }

    method BaseSend(p: Packet)
      requires |p| > 0 && Complete(p)
      modifies `ledIr, `ledB, `ledG, `ledR, `videoOn, `cameraOn, `threshold, `queue
      ensures BaseAfter(p)
      ensures queue == old(queue) + if p[0] == 0x17 then [ConfigPacket()] else []
    {
      if p[0] == 0x10 {
        SetLeds(p[1], p[2]);
      } else if p[0] == 0x13 {
        cameraOn := false;
      } else if p[0] == 0x14 {
        if p[1] == 0x00 {
          videoOn, cameraOn := true, true;
        } else if p[1] == 0x01 {
          videoOn := false;
        }
      } else if p[0] == 0x15 {
        if p[2] == 1 && p[3] == 0 {
          if 0x28 <= p[1] <= 0xFD {
            threshold := p[1];
          }
        }
      } else if p[0] == 0x17 {
        queue := queue + [ConfigPacket()];
      }
    }

    /** The next answer, cut to the reader's buffer; without one, nothing unless video is running, when the
        device delivers camera data. */
    method ReceivePacket(size: nat) returns (data: Packet)
      modifies `queue
      ensures queue == if |old(queue)| > 0 then old(queue)[1..] else []
      ensures |old(queue)| > 0 ==> data == if |old(queue)[0]| < size then old(queue)[0] else old(queue)[0][..size]
      ensures |old(queue)| == 0 && !(videoOn && cameraOn) ==> data == []
      ensures |data| <= size
    {
      if |queue| == 0 {
        if !videoOn || !cameraOn {
          return [];
        }
        data := *;
        if |data| > size {
          data := data[..size];
        }
      } else {
        var p := queue[0];
        data := if |p| < size then p else p[..size];
        queue := queue[1..];
      }
    }
  }
}

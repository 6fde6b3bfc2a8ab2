/** The host side of the TrackIR 4: stopping the camera, draining stale answers, checking the firmware and
    uploading it when it is not the one wanted. */
module TirDriver {
  import opened Words
  import opened Options
  import opened TirDevice

  datatype Status = Status(fwLoaded: bool, cfgFlag: byte, fwCksum: nat)

  /** The part of the device that initialisation decides about. */
  datatype Board = Board(loaded: bool, csum: uint32, active: bool, threshold: int, uploads: nat)

  predicate NeedsUpload(b: Board, force: bool, firmware: seq<byte>) {
    force || !b.loaded || b.csum != Checksum(firmware)
  }

  /** Upload packets for an image: the reset, then chunks of at most sixty bytes. */
  function PacketCount(size: nat): nat {
    1 + (size + 59) / 60
  }

  function AfterUpload(b: Board, firmware: seq<byte>): Board {
    b.(loaded := |firmware| > 0, csum := Checksum(firmware), active := false,
       uploads := b.uploads + PacketCount(|firmware|))
  }

  /** What a successful initialisation leaves. */
  function AfterInit(b: Board, force: bool, firmware: seq<byte>): Board {
    var c := if NeedsUpload(b, force, firmware) then AfterUpload(b, firmware) else b;
    if c.active then c else c.(active := true, threshold := 0x82)
  }

  /** A second, unforced initialisation uploads nothing, except that an empty image the first one had to
      upload is never seen as loaded. */
  lemma SecondInitUploadsNothing(b: Board, force: bool, firmware: seq<byte>)
    ensures var c := AfterInit(b, force, firmware);
      AfterInit(c, false, firmware) == c <==> |firmware| > 0 || !NeedsUpload(b, force, firmware)
  {
  }

  lemma StatusBytes(loaded: bool, csum: uint32, active: bool)
    requires csum < 0x1_0000
    ensures var p := StatusPacket(loaded, csum, active);
      p[0] == 0x07 && p[1] == 0x20 && (p[3] == 1 <==> loaded) && p[4] as int * 256 + p[5] == csum &&
      p[6] == if active then 2 else 1
  {
  }

  lemma AfterChunk(b: Board, sent: seq<byte>, chunk: seq<byte>)
    requires |sent| % 60 == 0 && 0 < |chunk| <= 60
    ensures var c := AfterUpload(b, sent);
      AfterUpload(b, sent + chunk) == c.(loaded := true, csum := Checksum(sent + chunk), uploads := c.uploads + 1)
  {
    hide Checksum;
  }

  lemma AfterUploadSum(b: Board, firmware: seq<byte>)
    ensures AfterUpload(b, firmware).csum == Checksum(firmware)
  {
  }

  /** The checksum of an image, as the host computes it. */
  method CksumFirmware(firmware: seq<byte>) returns (cksum: uint32)
    ensures SumsTo(0, firmware, cksum)
  {
    cksum := 0;
    ghost var ws: seq<uint32> := [0];
    var at := 0;
    while at < |firmware|
      invariant at <= |firmware| && ChecksumRun(ws, firmware[..at]) && ws[0] == 0 && ws[at] == cksum
    {
      hide Xor;
      var b: uint32 := firmware[at];
      ghost var sum := (cksum + b) % 0x1_0000_0000;
      cksum := Add32(cksum, b);
      b := b * 16;
      cksum := Xor32(cksum, b);
      XorCommutes(sum, b);
      XorCancels(b, sum);
      ws := ws + [cksum];
      at := at + 1;
    }
    assert firmware[..at] == firmware;
    cksum := cksum % 0x1_0000;
  }

  lemma AfterReset(b: Board)
    ensures AfterUpload(b, []) == b.(loaded := false, csum := 0, active := false, uploads := b.uploads + 1)
  {
  }

  class Driver {
    const dev: Device
    const packet: array<byte>

    constructor (dev: Device)
      ensures this.dev == dev && packet.Length == 16384 && fresh(packet)
    {
      this.dev := dev;
      packet := new byte[16384];
    }

    ghost predicate Valid()
      reads dev
    {
      packet.Length == 16384 && dev.Valid()
    }

    ghost function TheBoard(): Board
      reads dev
    {
      Board(dev.firmwareLoaded, dev.firmwareCsum, dev.firmwareActive, dev.threshold, dev.uploads)
    }

    ghost predicate Quiet()
      reads dev
    {
      !dev.videoOn && !dev.cameraOn && !dev.ledIr && !dev.ledR && !dev.ledG && !dev.ledB
    }

    method Receive() returns (t: nat)
      requires Valid()
      modifies packet, dev`queue
      ensures Valid() && t <= 16384
      ensures |old(dev.queue)| > 0 ==>
        dev.queue == old(dev.queue)[1..] && packet[..t] == old(dev.queue)[0]
      ensures |old(dev.queue)| == 0 ==> dev.queue == []
      ensures |old(dev.queue)| == 0 && Quiet() ==> t == 0
    {
      var data := dev.ReceivePacket(packet.Length);
      t := |data|;
      forall i | 0 <= i < t {
        packet[i] := data[i];
      }
      assert packet[..t] == data;
    }

    method TurnLedOff(led: byte)
      requires Valid() && led in {0x10, 0x20, 0x40, 0x80}
      modifies dev
      ensures Valid() && TheBoard() == old(TheBoard())
      ensures dev.videoOn == old(dev.videoOn) && dev.cameraOn == old(dev.cameraOn)
      ensures dev.ledIr == (old(dev.ledIr) && led != 0x80) && dev.ledB == (old(dev.ledB) && led != 0x40)
      ensures dev.ledG == (old(dev.ledG) && led != 0x20) && dev.ledR == (old(dev.ledR) && led != 0x10)
      ensures dev.queue == old(dev.queue)
    {
      dev.SendPacket([0x10, 0, led]);
    }

    method StopCamera()
      requires Valid()
      modifies dev
      ensures Valid() && Quiet()
      ensures TheBoard() == old(TheBoard()) && dev.queue == old(dev.queue)
    {
      dev.SendPacket([0x14, 0x01]);
      dev.SendPacket([0x12]);
      TurnLedOff(0x80);
      TurnLedOff(0x10);
      TurnLedOff(0x20);
      TurnLedOff(0x40);
      dev.SendPacket([0x13]);
    }

    /** Reads until nothing comes back. */
    method Drain()
      requires Valid() && Quiet()
      modifies packet, dev`queue
      ensures Valid() && dev.queue == []
    {
      var t := Receive();
      while t > 0
        invariant Valid() && Quiet()
        invariant t == 0 ==> dev.queue == []
        decreases |dev.queue|, t
      {
        t := Receive();
      }
    }

    method ReadRomData() returns (ok: bool)
      requires Valid() && Quiet()
      modifies packet, dev
      ensures Valid() && Quiet() && ok
      ensures TheBoard() == old(TheBoard()) && dev.queue == []
    {
      Drain();
      var counter := 0;
      while counter < 10
        invariant Valid() && Quiet() && TheBoard() == old(TheBoard()) && dev.queue == []
      {
        var answered := AskConfig();
        if answered {
          break;
        }
        counter := counter + 1;
      }
      return true;
    }

    method AskConfig() returns (answered: bool)
      requires Valid() && Quiet() && dev.queue == []
      modifies packet, dev
      ensures Valid() && Quiet()
      ensures TheBoard() == old(TheBoard()) && dev.queue == []
    {
      hide ConfigPacket;
      dev.SendPacket([0x17]);
      var t := Receive();
      return t > 2 && packet[1] == 0x40;
    }

    /** Asks for the status until a status packet comes; with no stale answers about, the first one is. */
    method ReadStatus() returns (ok: bool, status: Status)
      requires Valid() && Quiet()
      modifies packet, dev
      ensures Valid() && Quiet() && ok
      ensures TheBoard() == old(TheBoard())
      ensures old(dev.queue) == [] ==>
        && dev.queue == []
        && status == Status(dev.firmwareLoaded, if dev.firmwareActive then 2 else 1, dev.firmwareCsum)
    {
      hide StatusPacket;
      StatusBytes(dev.firmwareLoaded, dev.firmwareCsum, dev.firmwareActive);
      var counter := 0;
      while counter < 20
        invariant Valid() && Quiet() && TheBoard() == old(TheBoard())
        invariant old(dev.queue) == [] ==> dev.queue == [] && counter == 0
      {
        dev.SendPacket([0x1D]);
        var t := Receive();
        if t > 2 && packet[0] == 0x07 && packet[1] == 0x20 {
          break;
        }
        counter := counter + 1;
      }
      var high: int := packet[4];
      status := Status(packet[3] == 1, packet[6], high * 256 + packet[5]);
      return true, status;
    }

    method UploadFirmware(firmware: seq<byte>)
      requires Valid() && Quiet()
      modifies dev
      ensures Valid() && Quiet() && dev.queue == old(dev.queue)
      ensures TheBoard() == AfterUpload(old(TheBoard()), firmware)
      ensures SumsTo(0, firmware, dev.firmwareCsum)
    {
      hide AfterUpload, SumsTo, Checksum;
      ghost var before := TheBoard();
      var buf := new byte[62];
      ResetBoard();
      buf[0] := 0x1C;
      var at := 0;
      while at < |firmware|
        invariant at <= |firmware|
        invariant buf[0] == 0x1C
        invariant Valid() && Quiet() && dev.queue == old(dev.queue)
        invariant TheBoard() == AfterUpload(before, firmware[..at])
        invariant at < |firmware| ==> at % 60 == 0
      {
        var len := if |firmware| - at > 60 then 60 else |firmware| - at;
        SendChunk(buf, firmware, at, len, before);
        at := at + len;
      }
      assert firmware[..at] == firmware;
      AfterUploadSum(before, firmware);
    }

    method ResetBoard()
      requires Valid()
      modifies dev
      ensures Valid() && Quiet() == old(Quiet()) && dev.queue == old(dev.queue)
      ensures TheBoard() == AfterUpload(old(TheBoard()), [])
    {
      AfterReset(TheBoard());
      hide AfterUpload;
      dev.SendPacket([0x1B]);
    }

    method FillChunk(buf: array<byte>, firmware: seq<byte>, at: nat, len: nat)
      requires buf.Length == 62 && len <= 60 && at + len <= |firmware|
      modifies buf
      ensures buf[0] == old(buf[0]) && buf[1] == len && buf[2..len + 2] == firmware[at..at + len]
    {
      buf[1] := len;
      forall i | 0 <= i < len {
        buf[2 + i] := firmware[at + i];
      }
    }

    /** One more chunk: the device's checksum stays that of the image so far. */
    method SendChunk(buf: array<byte>, firmware: seq<byte>, at: nat, len: nat, ghost before: Board)
      requires Valid() && buf.Length == 62 && 0 < len <= 60 && buf[0] == 0x1C
      requires at % 60 == 0 && at + len <= |firmware|
      requires TheBoard() == AfterUpload(before, firmware[..at])
      modifies dev, buf
      ensures buf[0] == 0x1C
      ensures Valid() && Quiet() == old(Quiet()) && dev.queue == old(dev.queue)
      ensures TheBoard() == AfterUpload(before, firmware[..at + len])
    {
      hide Checksum;
      hide SumsTo;
      hide AfterUpload;
      ghost var chunk := firmware[at..at + len];
      FillChunk(buf, firmware, at, len);
      AfterUploadSum(before, firmware[..at]);
      AfterChunk(before, firmware[..at], chunk);
      assert firmware[..at] + chunk == firmware[..at + len];
      assert buf[..len + 2][2..] == chunk;
      dev.SendPacket(buf[..len + 2]);
      ChunkedChecksum(0, firmware[..at], chunk, Checksum(firmware[..at]), dev.firmwareCsum);
    }

    method SetThreshold(val: nat)
      requires Valid()
      modifies dev
      ensures Valid() && dev.queue == old(dev.queue)
      ensures Quiet() == old(Quiet())
      ensures var threshold := if val < 0x28 then old(dev.threshold) else if val > 253 then 253 else val;
        TheBoard() == old(TheBoard()).(threshold := threshold)
    {
      var v := if val > 253 then 253 else val;
      if v < 30 {
        v := 30;
      }
      dev.SendPacket([0x15, v, 0x01, 0x00]);
    }

    /** From any state of the device: succeeds exactly when there is a firmware image to check against. */
    method InitCamera(force: bool, image: Option<seq<byte>>) returns (ok: bool)
      requires Valid()
      modifies packet, dev
      ensures Valid() && Quiet() && dev.queue == []
      ensures ok == image.Some?
      ensures TheBoard() == if ok then AfterInit(old(TheBoard()), force, image.value) else old(TheBoard())
      ensures ok ==> SumsTo(0, image.value, dev.firmwareCsum)
      ensures ok ==>
        (dev.uploads == old(dev.uploads) <==>
          !force && old(dev.firmwareLoaded) && SumsTo(0, image.value, old(dev.firmwareCsum)))
    {
      hide Checksum, SumsTo;
      StopCamera();
      Drain();
      ok := ReadRomData();
      if !ok {
        return false;
      }
      var status: Status;
      ok, status := ReadStatus();
      if !ok {
        return false;
      }
      if image.None? {
        return false;
      }
      var firmware := image.value;
      var cksum := CksumFirmware(firmware);
      if force || !status.fwLoaded || status.fwCksum != cksum {
        UploadFirmware(firmware);
      }
      ok, status := ReadStatus();
      if !ok {
        return false;
      }
      if status.fwCksum != cksum {
        return false;
      }
      if status.cfgFlag == 1 {
        ReloadConfig();
      } else if status.cfgFlag != 2 {
        return false;
      }
      return true;
    }

    /** Asks for the new configuration and waits until it is in use. */
    method ReloadConfig()
      requires Valid() && Quiet() && dev.queue == []
      modifies packet, dev
      ensures Valid() && Quiet() && dev.queue == []
      ensures TheBoard() == old(TheBoard()).(active := true, threshold := 0x82)
    {
      dev.SendPacket([0x20]);
      var flag := 1;
      while flag != 2
        invariant Valid() && Quiet() && dev.queue == [] && TheBoard() == old(TheBoard()).(active := true)
        decreases flag != 2
      {
        var ok, status := ReadStatus();
        if !ok {
          return;
        }
        flag := status.cfgFlag;
      }
      SetThreshold(0x82);
    }
  }
}

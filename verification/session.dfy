/** The host side of the bootloader control protocol: frame building, the
    session state (packet counter and current bootloader mode) and the
    commands issued over it. */
module Bootloader {
  import opened Wire
  import opened Transport
  import opened Authenticator

  /** `type` of a control-channel and of a loader-channel header. */
  const CONTROL_TYPE: U16 := 0x0000
  const LOADER_TYPE: U16 := 0x1000
  /** Size of the receive buffer. */
  const RECEIVE_CAPACITY: nat := 2048
  /** Timeout of the loader start transfer, in milliseconds. */
  const LOADER_TIMEOUT: nat := 1000
  /** The fixed message that starts a loader transfer. */
  const START_SEND: Bytes :=
    [0x01, 0x00, 0x10, 0x00, 0x7b, 0x09, 0x2b, 0x96, 0x0c, 0x00, 0x00, 0x00, 0x00, 0x00, 0x01, 0xf0]
  /** The packet counter is an `unsigned int`. */
  const COUNTER_LIMIT: nat := 0x1_0000_0000
  /** The mode value before any mode has been set. */
  const MODE_UNSET: int := 0xFF

  // ----- frames -----

  /** Conversion of the `int` mode to the header's `unsigned char`. */
  function ModeByte(mode: int): (b: Byte)
    ensures 0 <= mode < 0x100 ==> b == mode
  {
    mode % 0x100
  }

  /** `packetid++` on an `unsigned int`. */
  function NextPacketId(id: nat): (n: nat)
    requires id < COUNTER_LIMIT
    ensures n < COUNTER_LIMIT
    ensures n == if id + 1 == COUNTER_LIMIT then 0 else id + 1
  {
    (id + 1) % COUNTER_LIMIT
  }

  /** The header a send builds: the 16-bit fields keep the low 16 bits of
      the payload length plus 8 and of the counter. */
  function FrameHeader(kind: U16, command: Byte, mode: Byte, id: nat, payloadLength: nat): Header
  {
    Header(kind, (payloadLength + HEADER_SIZE) % 0x1_0000, command, mode, id % 0x1_0000)
  }

  function ControlFrame(command: Byte, mode: Byte, id: nat, payload: Bytes): (f: Bytes)
  {
    EncodeHeader(FrameHeader(CONTROL_TYPE, command, mode, id, |payload|)) + payload
  }

  /** A control frame is the 8-byte header followed by the payload; the header
      decodes to type 0, the frame size, the command, the mode and the counter,
      and the size field equals the frame length whenever it fits 16 bits. */
  lemma ControlFrameFields(command: Byte, mode: Byte, id: nat, payload: Bytes)
    ensures var f := ControlFrame(command, mode, id, payload);
            && |f| == HEADER_SIZE + |payload|
            && f[HEADER_SIZE..] == payload
            && DecodeHeader(f[..HEADER_SIZE])
               == Header(CONTROL_TYPE, (|payload| + 8) % 0x1_0000, command, mode, id % 0x1_0000)
            && (|payload| + 8 < 0x1_0000 ==> DecodeHeader(f[..HEADER_SIZE]).packetSize == |f|)
  {
    var h := FrameHeader(CONTROL_TYPE, command, mode, id, |payload|);
    var f := ControlFrame(command, mode, id, payload);
    assert f[..HEADER_SIZE] == EncodeHeader(h);
    HeaderRoundTrip(h);
  }

  /** Consecutive counter values give consecutive 16-bit wire ids, also across
      the 32-bit wrap of the counter. */
  lemma WireIdFollowsCounter(id: nat)
    requires id < COUNTER_LIMIT
    ensures NextPacketId(id) % 0x1_0000 == (id % 0x1_0000 + 1) % 0x1_0000
  {
    if id + 1 == COUNTER_LIMIT {
      assert id % 0x1_0000 == 0xFFFF;
    } else {
      assert NextPacketId(id) == id + 1;
    }
  }

  /** A loader frame: the first 6 header bytes, the payload at offset 6, and
      two unset bytes that still make up a transfer of 8 + |payload| bytes. */
  ghost predicate IsLoaderFrame(f: Bytes, command: Byte, mode: Byte, id: nat, payload: Bytes)
  {
    && |f| == HEADER_SIZE + |payload|
    && f[..6] == EncodeHeader(FrameHeader(LOADER_TYPE, command, mode, id, |payload|))[..6]
    && f[6..6 + |payload|] == payload
  }

  /** A loader frame starts with type 0x1000, the size, the command and the mode,
      and carries no packet id: it is a loader frame for every counter value. */
  lemma LoaderFrameFields(f: Bytes, command: Byte, mode: Byte, id: nat, payload: Bytes)
    requires IsLoaderFrame(f, command, mode, id, payload)
    ensures f[0..2] == [0x00, 0x10]
    ensures DecodeLe16(f[2..4]) == (|payload| + 8) % 0x1_0000
    ensures f[4] == command && f[5] == mode
    ensures forall other: nat :: IsLoaderFrame(f, command, mode, other, payload)
  {
    var h := FrameHeader(LOADER_TYPE, command, mode, id, |payload|);
    HeaderRoundTrip(h);
    assert f[2..4] == EncodeHeader(h)[2..4];
    forall other: nat
      ensures IsLoaderFrame(f, command, mode, other, payload)
    {
      var h' := FrameHeader(LOADER_TYPE, command, mode, other, |payload|);
      assert EncodeHeader(h')[..6] == EncodeHeader(h)[..6];
    }
  }

  // ----- payloads -----

  /** `rim_bootloader`: the ASCII identifier of each mode that has one
      ("RIM REINIT", "RIM-BootLoader", "RIM-RAMLoader", "RIM UPL"), NUL-padded
      to 16 bytes and followed by 0x01. RimBootNuke (4) has no row. */
  const RIM_BOOTLOADER: seq<Bytes> := [
    [0x52, 0x49, 0x4D, 0x20, 0x52, 0x45, 0x49, 0x4E, 0x49, 0x54, 0x00, 0x00, 0x00, 0x00, 0x00, 0x00, 0x01],
    [0x52, 0x49, 0x4D, 0x2D, 0x42, 0x6F, 0x6F, 0x74, 0x4C, 0x6F, 0x61, 0x64, 0x65, 0x72, 0x00, 0x00, 0x01],
    [0x52, 0x49, 0x4D, 0x2D, 0x52, 0x41, 0x4D, 0x4C, 0x6F, 0x61, 0x64, 0x65, 0x72, 0x00, 0x00, 0x00, 0x01],
    [0x52, 0x49, 0x4D, 0x20, 0x55, 0x50, 0x4C, 0x00, 0x00, 0x00, 0x00, 0x00, 0x00, 0x00, 0x00, 0x00, 0x01]
  ]

  /** The SetMode payload for a mode: 17 bytes starting with "RIM", a NUL at
      offset 15 and 0x01 at offset 16. */
  function RimBootloaderId(mode: int): (id: Bytes)
    requires 0 <= mode < |RIM_BOOTLOADER|
    ensures |id| == 17 && id[16] == 0x01 && id[15] == 0x00
    ensures id[..3] == [0x52, 0x49, 0x4D]
  {
    RIM_BOOTLOADER[mode]
  }

  /** Every mode with a row has its own identifier. */
  lemma RimBootloaderIdsDistinct(m1: int, m2: int)
    requires 0 <= m1 < 4 && 0 <= m2 < 4 && m1 != m2
    ensures RimBootloaderId(m1) != RimBootloaderId(m2)
  {
    var a, b := RimBootloaderId(m1), RimBootloaderId(m2);
    if a[3] == b[3] {
      assert a[4] != b[4];
    }
  }

  /** The GetVariable payload: buffer size, then variable, each as a `uint16_t`. */
  function GetVarPayload(bufferSize: int, variable: int): (p: Bytes)
    ensures |p| == 4
    ensures DecodeLe16(p[0..2]) == bufferSize % 0x1_0000
    ensures DecodeLe16(p[2..4]) == variable % 0x1_0000
  {
    Le16RoundTrip(bufferSize % 0x1_0000);
    Le16RoundTrip(variable % 0x1_0000);
    Le16(bufferSize % 0x1_0000) + Le16(variable % 0x1_0000)
  }

  // ----- transport outcomes as the protocol code reports them -----

  /** What a send returns: the negative status, or the number of bytes transferred. */
  function SendResult(o: OutResult, offered: nat): (r: int)
    ensures r < 0 <==> o.status < 0
    ensures r < 0 ==> r == o.status
    ensures r >= 0 ==> r <= offered
  {
    if o.status < 0 then o.status else Transferred(o, offered)
  }

  /** The next reply, as it lands in the receive buffer. */
  function Reply(script: seq<InResult>): InResult
  {
    Arrival(NextIn(script), RECEIVE_CAPACITY)
  }

  /** What a receive returns: the negative status, or 0. */
  function ReceiveResult(a: InResult): (r: int)
    ensures r <= 0 && (r < 0 <==> a.status < 0)
  {
    if a.status < 0 then a.status else 0
  }

  /** Copying the payload of reply `a` into a `capacity`-byte buffer is defined:
      a successful reply holds a full header and a payload that fits. */
  ghost predicate PayloadFits(a: InResult, capacity: nat)
  {
    a.status >= 0 ==> HEADER_SIZE <= |a.bytes| <= HEADER_SIZE + capacity
  }

  /** The GetPasswordInfo reply is one `send_password` can process without
      undefined behaviour: its payload fits `challengeData`, and when a password
      is set the iteration count is not INT_MIN. */
  ghost predicate PasswordInfoDefined(a: InResult)
  {
    && PayloadFits(a, CHALLENGE_BUFFER_SIZE)
    && (a.status >= 0 && DecodeLe16(a.bytes[2..4]) != 8 ==>
          ParseChallenge(ChallengeBuffer(a.bytes[HEADER_SIZE..])).iterations != -0x8000_0000)
  }

  /** The SendPassword payload computed from a GetPasswordInfo reply. */
  function PasswordResponse(sha512: Bytes -> Digest, password: Bytes, a: InResult): (p: Bytes)
    requires PasswordInfoDefined(a) && a.status >= 0 && DecodeLe16(a.bytes[2..4]) != 8
  {
    Response(sha512, ParseChallenge(ChallengeBuffer(a.bytes[HEADER_SIZE..])), password)
  }

  // ----- the session -----

  /** A mode value a session can hold: unset, or one with an identifier row. */
  predicate KnownMode(mode: int)
  {
    mode == MODE_UNSET || 0 <= mode < |RIM_BOOTLOADER|
  }

  class Session {
    /** The device handle, owned for the session's lifetime. */
    const dev: Device
    /** `packetid`: incremented by every send. */
    var packetId: nat
    /** `_bootloaderMode`: echoed in every header, changed only by a mode switch. */
    var mode: int

    /** The counter fits an `unsigned int`; the mode is unset or has a row in
        the identifier table. */
    ghost predicate Valid()
      reads this
    {
      && packetId < COUNTER_LIMIT
      && KnownMode(mode)
    }

    constructor (device: Device)
      ensures Valid() && dev == device
      ensures packetId == 0 && mode == MODE_UNSET
    {
      dev := device;
      packetId := 0;
      mode := MODE_UNSET;
    }

    /** `send_ctrlmsg`: one control frame with the current mode and counter. */
    method SendCtrlMsg(command: Byte, payload: Bytes) returns (r: int)
      requires Valid()
      modifies this, dev
      ensures Valid() && mode == old(mode)
      ensures packetId == NextPacketId(old(packetId))
      ensures dev.Log == old(dev.Log)
        + [Out(EP_OUT, ControlFrame(command, ModeByte(old(mode)), old(packetId), payload), TIMEOUT)]
      ensures r == SendResult(NextOut(old(dev.outScript)), HEADER_SIZE + |payload|)
      ensures dev.outScript == Rest(old(dev.outScript)) && dev.inScript == old(dev.inScript)
    {
      var header := FrameHeader(CONTROL_TYPE, command, ModeByte(mode), packetId, |payload|);
      packetId := NextPacketId(packetId);
      var result := EncodeHeader(header) + payload;
      var status, transferred := dev.BulkOut(EP_OUT, result, TIMEOUT);
      if status < 0 {
        return status;
      }
      return transferred;
    }

    /** `receive_ctrlmsg`: one reply; on success the first 8 bytes of the
        receive buffer go to `header` and the bytes after them to `data`, when
        the caller passes those buffers. Bytes of the receive buffer that the
        reply did not fill are unspecified. */
    method ReceiveCtrlMsg(header: Option<Bytes>, data: Option<Bytes>)
      returns (r: int, headerOut: Option<Bytes>, dataOut: Option<Bytes>)
      requires header.Some? ==> |header.value| >= HEADER_SIZE
      requires data.Some? ==> PayloadFits(Reply(dev.inScript), |data.value|)
      modifies dev
      ensures dev.Log == old(dev.Log) + [In(EP_IN, RECEIVE_CAPACITY, TIMEOUT)]
      ensures dev.inScript == Rest(old(dev.inScript)) && dev.outScript == old(dev.outScript)
      ensures var a := Reply(old(dev.inScript));
        && r == ReceiveResult(a)
        && headerOut.Some? == header.Some? && dataOut.Some? == data.Some?
        && (a.status < 0 ==> headerOut == header && dataOut == data)
        && (a.status >= 0 && data.Some? ==> dataOut.value == CopyInto(data.value, a.bytes[HEADER_SIZE..]))
        && (a.status >= 0 && header.Some? ==>
              && |headerOut.value| == |header.value|
              && headerOut.value[HEADER_SIZE..] == header.value[HEADER_SIZE..]
              && forall i :: 0 <= i < HEADER_SIZE && i < |a.bytes| ==> headerOut.value[i] == a.bytes[i])
    {
      var status, bytes := dev.BulkIn(EP_IN, RECEIVE_CAPACITY, TIMEOUT);
      if status < 0 {
        return status, header, data;
      }
      assert |Zeros(RECEIVE_CAPACITY)| == RECEIVE_CAPACITY;
      var stale: Bytes :| |stale| == RECEIVE_CAPACITY;
      var response := CopyInto(stale, bytes);
      headerOut := if header.Some? then Some(CopyInto(header.value, response[..HEADER_SIZE])) else None;
      dataOut := if data.Some? then Some(CopyInto(data.value, bytes[HEADER_SIZE..])) else None;
      r := 0;
    }

    /** `set_blmode`: send the mode's identifier and await one reply; the mode
        is adopted when both transfers succeed, whatever the reply says. */
    method SetBlMode(bootloaderMode: int) returns (r: int)
      requires Valid() && ModeFromCode(bootloaderMode).Some? && bootloaderMode != ModeCode(RimBootNuke)
      modifies this, dev
      ensures Valid() && packetId == NextPacketId(old(packetId))
      ensures dev.outScript == Rest(old(dev.outScript))
      ensures var sent := Out(EP_OUT, ControlFrame(CommandCode(SetMode), ModeByte(old(mode)), old(packetId),
                                                   RimBootloaderId(bootloaderMode)), TIMEOUT);
              var o := NextOut(old(dev.outScript));
              var a := Reply(old(dev.inScript));
        && (o.status < 0 ==>
              && r == o.status && mode == old(mode)
              && dev.Log == old(dev.Log) + [sent] && dev.inScript == old(dev.inScript))
        && (o.status >= 0 ==>
              && r == ReceiveResult(a)
              && mode == (if a.status < 0 then old(mode) else bootloaderMode)
              && dev.Log == old(dev.Log) + [sent, In(EP_IN, RECEIVE_CAPACITY, TIMEOUT)]
              && dev.inScript == Rest(old(dev.inScript)))
    {
      var ret := SendCtrlMsg(CommandCode(SetMode), RimBootloaderId(bootloaderMode));
      if ret < 0 {
        return ret;
      }
      var ignoredHeader, ignoredData;
      ret, ignoredHeader, ignoredData := ReceiveCtrlMsg(None, None);
      if ret < 0 {
        return ret;
      }
      mode := bootloaderMode;
      return 0;
    }

    /** `reboot_device`: send Reboot with no payload and await one reply. */
    method RebootDevice() returns (r: int)
      requires Valid()
      modifies this, dev
      ensures Valid() && packetId == NextPacketId(old(packetId)) && mode == old(mode)
      ensures dev.outScript == Rest(old(dev.outScript))
      ensures var sent := Out(EP_OUT, ControlFrame(CommandCode(Reboot), ModeByte(old(mode)), old(packetId), []), TIMEOUT);
              var o := NextOut(old(dev.outScript));
              var a := Reply(old(dev.inScript));
        && (o.status < 0 ==> r == -1 && dev.Log == old(dev.Log) + [sent] && dev.inScript == old(dev.inScript))
        && (o.status >= 0 ==>
              && r == (if a.status < 0 then -1 else 0)
              && dev.Log == old(dev.Log) + [sent, In(EP_IN, RECEIVE_CAPACITY, TIMEOUT)]
              && dev.inScript == Rest(old(dev.inScript)))
    {
      var ret := SendCtrlMsg(CommandCode(Reboot), []);
      if ret < 0 {
        return -1;
      }
      var ignoredHeader, ignoredData;
      ret, ignoredHeader, ignoredData := ReceiveCtrlMsg(None, None);
      if ret < 0 {
        return -1;
      }
      return 0;
    }

    /** `cmd_getvar`: request a variable and copy the reply payload into
        `buffer`. Only a timeout ends it early; otherwise it returns the receive
        result minus 8, which is -8 after a successful exchange. */
    method CmdGetVar(variable: int, buffer: Bytes, bufferSize: int) returns (r: int, bufferOut: Bytes)
      requires Valid()
      requires NextOut(dev.outScript).status != LIBUSB_ERROR_TIMEOUT ==> PayloadFits(Reply(dev.inScript), |buffer|)
      modifies this, dev
      ensures Valid() && packetId == NextPacketId(old(packetId)) && mode == old(mode)
      ensures dev.outScript == Rest(old(dev.outScript))
      ensures var sent := Out(EP_OUT, ControlFrame(CommandCode(GetVariable), ModeByte(old(mode)), old(packetId),
                                                   GetVarPayload(bufferSize, variable)), TIMEOUT);
              var o := NextOut(old(dev.outScript));
              var a := Reply(old(dev.inScript));
        && (o.status == LIBUSB_ERROR_TIMEOUT ==>
              && r == LIBUSB_ERROR_TIMEOUT && bufferOut == buffer
              && dev.Log == old(dev.Log) + [sent] && dev.inScript == old(dev.inScript))
        && (o.status != LIBUSB_ERROR_TIMEOUT ==>
              && dev.Log == old(dev.Log) + [sent, In(EP_IN, RECEIVE_CAPACITY, TIMEOUT)]
              && dev.inScript == Rest(old(dev.inScript))
              && r == (if a.status == LIBUSB_ERROR_TIMEOUT then a.status else ReceiveResult(a) - 8)
              && bufferOut == (if a.status < 0 then buffer else CopyInto(buffer, a.bytes[HEADER_SIZE..])))
    {
      var payload := GetVarPayload(bufferSize, variable);
      var err := SendCtrlMsg(CommandCode(GetVariable), payload);
      if err == LIBUSB_ERROR_TIMEOUT {
        return err, buffer;
      }
      var header, data;
      err, header, data := ReceiveCtrlMsg(None, Some(buffer));
      bufferOut := data.value;
      if err == LIBUSB_ERROR_TIMEOUT {
        return err, bufferOut;
      }
      r := err - 8;
    }

    /** `send_password`: fetch the challenge material, answer it with the hash
        chain over the password, and report whether the device accepted it
        (1) or not (0). No password set (a reply of exactly 8 bytes) counts as
        accepted without any hashing. */
    method SendPassword(password: Bytes, sha512: Bytes -> Digest) returns (r: int)
      requires Valid() && (NextOut(dev.outScript).status >= 0 ==> PasswordInfoDefined(Reply(dev.inScript)))
      modifies this, dev
      ensures Valid() && mode == old(mode)
      ensures r == 0 || r == 1
      ensures var info := Out(EP_OUT, ControlFrame(CommandCode(GetPasswordInfo), ModeByte(old(mode)), old(packetId), []), TIMEOUT);
              var o1 := NextOut(old(dev.outScript));
              var a1 := Reply(old(dev.inScript));
              var received := old(dev.Log) + [info, In(EP_IN, RECEIVE_CAPACITY, TIMEOUT)];
        && (o1.status < 0 ==>
              && r == 0 && packetId == NextPacketId(old(packetId))
              && dev.Log == old(dev.Log) + [info]
              && dev.outScript == Rest(old(dev.outScript)) && dev.inScript == old(dev.inScript))
        && (o1.status >= 0 && (a1.status < 0 || DecodeLe16(a1.bytes[2..4]) == 8) ==>
              && r == (if a1.status < 0 then 0 else 1)
              && packetId == NextPacketId(old(packetId))
              && dev.Log == received
              && dev.outScript == Rest(old(dev.outScript)) && dev.inScript == Rest(old(dev.inScript)))
    ensures var o1 := NextOut(old(dev.outScript));
            var a1 := Reply(old(dev.inScript));
            o1.status >= 0 && a1.status >= 0 && DecodeLe16(a1.bytes[2..4]) != 8 ==>
              var info := Out(EP_OUT, ControlFrame(CommandCode(GetPasswordInfo), ModeByte(old(mode)), old(packetId), []), TIMEOUT);
              var answer := Out(EP_OUT, ControlFrame(CommandCode(Command.SendPassword), ModeByte(old(mode)),
                                                     NextPacketId(old(packetId)),
                                                     PasswordResponse(sha512, password, a1)), TIMEOUT);
              var sent := old(dev.Log) + [info, In(EP_IN, RECEIVE_CAPACITY, TIMEOUT), answer];
              var o2 := NextOut(Rest(old(dev.outScript)));
              var a2 := Reply(Rest(old(dev.inScript)));
              && packetId == NextPacketId(NextPacketId(old(packetId)))
              && dev.outScript == Rest(Rest(old(dev.outScript)))
              && (o2.status < 0 ==> r == 0 && dev.Log == sent && dev.inScript == Rest(old(dev.inScript)))
              && (o2.status >= 0 ==>
                    && dev.Log == sent + [In(EP_IN, RECEIVE_CAPACITY, TIMEOUT)]
                    && dev.inScript == Rest(Rest(old(dev.inScript)))
                    && (a2.status < 0 ==> r == 0)
                    && (a2.status >= 0 && |a2.bytes| > 0 ==> (r == 1 <==> a2.bytes[0] == 0x10)))
    {
      var st := SendCtrlMsg(CommandCode(GetPasswordInfo), []);
      if st < 0 {
        return 0;
      }
      assert |Zeros(HEADER_SIZE)| == HEADER_SIZE;
      var passHeader: Bytes :| |passHeader| == HEADER_SIZE;
      var passHeaderOut, challengeData;
      st, passHeaderOut, challengeData := ReceiveCtrlMsg(Some(passHeader), Some(Zeros(CHALLENGE_BUFFER_SIZE)));
      if st < 0 {
        return 0;
      }
      ghost var a1 := Reply(old(dev.inScript));
      assert passHeaderOut.value[2..4] == a1.bytes[2..4];
      if DecodeLe16(passHeaderOut.value[2..4]) == 8 {
        return 1;
      }
      assert challengeData.value == ChallengeBuffer(a1.bytes[HEADER_SIZE..]);
      var material := ParseChallenge(challengeData.value);
      var hashedData := Strncpy(password, BLOCK_SIZE);
      ghost var rounds;
      hashedData, rounds := HashChain(sha512, material, hashedData);
      var finalData := PasswordPayload(hashedData);
      st := SendCtrlMsg(CommandCode(Command.SendPassword), finalData);
      if st < 0 {
        return 0;
      }
      assert |Zeros(64)| == 64;
      var header: Bytes :| |header| == 64;
      var headerOut, ignoredData;
      st, headerOut, ignoredData := ReceiveCtrlMsg(Some(header), None);
      if st < 0 {
        return 0;
      }
      r := if headerOut.value[0] == CommandCode(SendPasswordCorrect) then 1 else 0;
    }

    /** `send_loader`: wait for one frame; only if its command byte is
        ReadyForDataTransfer, send the fixed start message with the short
        timeout and receive once more. The counter and mode are untouched. */
    method SendLoader()
      modifies dev
      ensures var rx := In(EP_IN, RECEIVE_CAPACITY, TIMEOUT);
              var start := Out(EP_OUT, START_SEND, LOADER_TIMEOUT);
              var a := Reply(old(dev.inScript));
        && (dev.Log == old(dev.Log) + [rx] || dev.Log == old(dev.Log) + [rx, start, rx])
        && (dev.Log == old(dev.Log) + [rx] ==>
              dev.outScript == old(dev.outScript) && dev.inScript == Rest(old(dev.inScript)))
        && (dev.Log == old(dev.Log) + [rx, start, rx] ==>
              dev.outScript == Rest(old(dev.outScript)) && dev.inScript == Rest(Rest(old(dev.inScript))))
        && (a.status < 0 ==> dev.Log == old(dev.Log) + [rx])
        && (a.status >= 0 && |a.bytes| > 4 ==>
              (dev.Log == old(dev.Log) + [rx, start, rx] <==> a.bytes[4] == CommandCode(ReadyForDataTransfer)))
    {
      var header := Zeros(HEADER_SIZE);
      var status, headerOut, ignoredData := ReceiveCtrlMsg(Some(header), None);
      header := headerOut.value;
      if header[4] != CommandCode(ReadyForDataTransfer) {
        return;
      }
      var sendStatus, transferred := dev.BulkOut(EP_OUT, START_SEND, LOADER_TIMEOUT);
      status, headerOut, ignoredData := ReceiveCtrlMsg(Some(header), None);
    }

    /** `send_loadermsg`: like a control send, but with type 0x1000 and only
        the first 6 header bytes copied, so the payload starts at offset 6
        while the transfer is still 8 + |payload| bytes long. */
    method SendLoaderMsg(command: Byte, payload: Bytes) returns (r: int)
      requires Valid()
      modifies this, dev
      ensures Valid() && mode == old(mode)
      ensures packetId == NextPacketId(old(packetId))
      ensures |dev.Log| == |old(dev.Log)| + 1 && dev.Log[..|old(dev.Log)|] == old(dev.Log)
      ensures var t := dev.Log[|old(dev.Log)|];
        && t.Out? && t.endpoint == EP_OUT && t.timeout == TIMEOUT
        && IsLoaderFrame(t.data, command, ModeByte(old(mode)), old(packetId), payload)
      ensures r == SendResult(NextOut(old(dev.outScript)), HEADER_SIZE + |payload|)
      ensures dev.outScript == Rest(old(dev.outScript)) && dev.inScript == old(dev.inScript)
    {
      var header := FrameHeader(LOADER_TYPE, command, ModeByte(mode), packetId, |payload|);
      packetId := NextPacketId(packetId);
      assert |Zeros(2)| == 2;
      var unset: Bytes :| |unset| == 2;
      var result := EncodeHeader(header)[..6] + payload + unset;
      assert result[6..6 + |payload|] == payload;
      var status, transferred := dev.BulkOut(EP_OUT, result, TIMEOUT);
      if status < 0 {
        return status;
      }
      return transferred;
    }
  }
}

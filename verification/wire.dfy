/** Wire types of the bootloader control protocol: the packed little-endian
    control-message header, the bootloader modes and the command codes.
    The header is serialised by copying a packed struct on a little-endian
    host, so every multi-byte field is written least significant byte first. */
module Wire {

  datatype Option<T> = None | Some(value: T)

  type Byte = b: int | 0 <= b < 0x100
  type U16 = x: int | 0 <= x < 0x1_0000
  type Bytes = seq<Byte>

  /** Default bulk-transfer timeout in milliseconds. */
  const TIMEOUT: nat := 5000
  /** Bulk endpoints: host to device, device to host. */
  const EP_OUT: Byte := 0x02
  const EP_IN: Byte := 0x82
  /** Number of bytes of the packed header. */
  const HEADER_SIZE: nat := 8

  /** `n` zero bytes. */
  function Zeros(n: nat): (r: Bytes)
    ensures |r| == n && forall i :: 0 <= i < n ==> r[i] == 0
  {
    seq(n, _ => 0)
  }

  /** `buf` after copying `src` over its first |src| bytes (a `memcpy` into a buffer). */
  function CopyInto(buf: Bytes, src: Bytes): (r: Bytes)
    requires |src| <= |buf|
    ensures |r| == |buf|
    ensures forall i :: 0 <= i < |src| ==> r[i] == src[i]
    ensures forall i :: |src| <= i < |buf| ==> r[i] == buf[i]
  {
    src + buf[|src|..]
  }

  // ----- little-endian integers -----

  function Le16(v: U16): (r: Bytes)
    ensures |r| == 2
  {
    [v % 0x100, v / 0x100]
  }

  function DecodeLe16(b: Bytes): (v: U16)
    requires |b| == 2
  {
    b[0] as int + 0x100 * (b[1] as int)
  }

  lemma Le16RoundTrip(v: U16)
    ensures DecodeLe16(Le16(v)) == v
  {
  }

  lemma Le16BytesRoundTrip(b: Bytes)
    requires |b| == 2
    ensures Le16(DecodeLe16(b)) == b
  {
    var v := DecodeLe16(b);
    assert v % 0x100 == b[0] && v / 0x100 == b[1];
  }

  function Le32(v: int): (r: Bytes)
    requires 0 <= v < 0x1_0000_0000
    ensures |r| == 4
  {
    [v % 0x100, (v / 0x100) % 0x100, (v / 0x1_0000) % 0x100, v / 0x100_0000]
  }

  function DecodeLe32(b: Bytes): (v: nat)
    requires |b| == 4
    ensures v < 0x1_0000_0000
  {
    b[0] as int + 0x100 * (b[1] as int) + 0x1_0000 * (b[2] as int) + 0x100_0000 * (b[3] as int)
  }

  /** The 32-bit two's complement reading of an unsigned value (a C `int`). */
  function ToInt32(u: int): (i: int)
    requires 0 <= u < 0x1_0000_0000
    ensures -0x8000_0000 <= i < 0x8000_0000
    ensures i % 0x1_0000_0000 == u
  {
    if u < 0x8000_0000 then u else u - 0x1_0000_0000
  }

  lemma Le32RoundTrip(v: int)
    requires 0 <= v < 0x1_0000_0000
    ensures DecodeLe32(Le32(v)) == v
  {
    var b := Le32(v);
    assert v == v % 0x100 + 0x100 * (v / 0x100);
    assert v / 0x100 == (v / 0x100) % 0x100 + 0x100 * (v / 0x1_0000);
    assert v / 0x1_0000 == (v / 0x1_0000) % 0x100 + 0x100 * (v / 0x100_0000);
  }

  // ----- the packed ControlMessageHeader -----

  /** `type` at bytes 0-1, `packetSize` at 2-3, `command` at 4, `mode` at 5,
      `packetId` at 6-7. */
  datatype Header = Header(kind: U16, packetSize: U16, command: Byte, mode: Byte, packetId: U16)

  function EncodeHeader(h: Header): (r: Bytes)
    ensures |r| == HEADER_SIZE
  {
    Le16(h.kind) + Le16(h.packetSize) + [h.command, h.mode] + Le16(h.packetId)
  }

  function DecodeHeader(b: Bytes): (h: Header)
    requires |b| == HEADER_SIZE
  {
    Header(DecodeLe16(b[0..2]), DecodeLe16(b[2..4]), b[4], b[5], DecodeLe16(b[6..8]))
  }

  /** Copying a header out of the struct and back in gives the same fields. */
  lemma HeaderRoundTrip(h: Header)
    ensures DecodeHeader(EncodeHeader(h)) == h
  {
    var e := EncodeHeader(h);
    assert e[0..2] == Le16(h.kind) && e[2..4] == Le16(h.packetSize) && e[6..8] == Le16(h.packetId);
    Le16RoundTrip(h.kind);
    Le16RoundTrip(h.packetSize);
    Le16RoundTrip(h.packetId);
  }

  /** Copying 8 received bytes into the struct and back out gives the same bytes:
      the packed layout has no padding and every byte pattern is a header. */
  lemma HeaderBytesRoundTrip(b: Bytes)
    requires |b| == HEADER_SIZE
    ensures EncodeHeader(DecodeHeader(b)) == b
  {
    Le16BytesRoundTrip(b[0..2]);
    Le16BytesRoundTrip(b[2..4]);
    Le16BytesRoundTrip(b[6..8]);
    assert b == b[0..2] + b[2..4] + [b[4], b[5]] + b[6..8];
  }

  // ----- BootloaderMode -----

  datatype BootloaderMode = RimReinit | RimBoot | RamBoot | Upl | RimBootNuke

  function ModeCode(m: BootloaderMode): (r: Byte)
    ensures r <= 4
  {
    match m
    case RimReinit => 0x0
    case RimBoot => 0x1
    case RamBoot => 0x2
    case Upl => 0x3
    case RimBootNuke => 0x4
  }

  /** The mode a wire value denotes; the five modes use exactly the values 0..4. */
  function ModeFromCode(b: int): (r: Option<BootloaderMode>)
    ensures r.Some? <==> 0 <= b <= 4
    ensures r.Some? ==> ModeCode(r.value) == b
    ensures forall m :: ModeCode(m) == b ==> r == Some(m)
  {
    if b == 0 then Some(RimReinit)
    else if b == 1 then Some(RimBoot)
    else if b == 2 then Some(RamBoot)
    else if b == 3 then Some(Upl)
    else if b == 4 then Some(RimBootNuke)
    else None
  }

  // ----- ControlMessageCommand -----

  datatype Command =
    | Ping | PingResponse | Reboot | RebootResponse
    | GetVariable | GetVariableResponse
    | SetMode | SetModeSuccess | SetModeFailure
    | GetPasswordInfo
    | LoadTransferredData | LoadTransferredDataSuccess | LoadTransferredDataFailure
    | GetPasswordInfoResponse | SendPassword | SendPasswordCorrect
    | Unkn1 | Unkn1Response | ReadyForDataTransfer

  function CommandCode(c: Command): (r: Byte)
    ensures 0x01 <= r <= 0x13
  {
    match c
    case Ping => 0x01
    case PingResponse => 0x02
    case Reboot => 0x03
    case RebootResponse => 0x04
    case GetVariable => 0x05
    case GetVariableResponse => 0x06
    case SetMode => 0x07
    case SetModeSuccess => 0x08
    case SetModeFailure => 0x09
    case GetPasswordInfo => 0x0A
    case LoadTransferredData => 0x0B
    case LoadTransferredDataSuccess => 0x0C
    case LoadTransferredDataFailure => 0x0D
    case GetPasswordInfoResponse => 0x0E
    case SendPassword => 0x0F
    case SendPasswordCorrect => 0x10
    case Unkn1 => 0x11
    case Unkn1Response => 0x12
    case ReadyForDataTransfer => 0x13
  }

  /** The command a wire byte denotes; the 19 commands use exactly 0x01..0x13. */
  function CommandFromCode(b: int): (r: Option<Command>)
    ensures r.Some? <==> 0x01 <= b <= 0x13
    ensures r.Some? ==> CommandCode(r.value) == b
  {
    if b == 0x01 then Some(Ping)
    else if b == 0x02 then Some(PingResponse)
    else if b == 0x03 then Some(Reboot)
    else if b == 0x04 then Some(RebootResponse)
    else if b == 0x05 then Some(GetVariable)
    else if b == 0x06 then Some(GetVariableResponse)
    else if b == 0x07 then Some(SetMode)
    else if b == 0x08 then Some(SetModeSuccess)
    else if b == 0x09 then Some(SetModeFailure)
    else if b == 0x0A then Some(GetPasswordInfo)
    else if b == 0x0B then Some(LoadTransferredData)
    else if b == 0x0C then Some(LoadTransferredDataSuccess)
    else if b == 0x0D then Some(LoadTransferredDataFailure)
    else if b == 0x0E then Some(GetPasswordInfoResponse)
    else if b == 0x0F then Some(SendPassword)
    else if b == 0x10 then Some(SendPasswordCorrect)
    else if b == 0x11 then Some(Unkn1)
    else if b == 0x12 then Some(Unkn1Response)
    else if b == 0x13 then Some(ReadyForDataTransfer)
    else None
  }

  /** Distinct commands have distinct codes, so decoding a code recovers the command. */
  lemma CommandCodeInjective(c: Command)
    ensures CommandFromCode(CommandCode(c)) == Some(c)
  {
  }
}

/** The USB bulk transport, as the protocol code sees it. The device is
    abstract: every transfer is appended to a log, and what the device does
    with it comes from two scripted queues, one for host-to-device transfers
    and one for device-to-host transfers. Timeouts, stalls and disconnects are
    all just negative statuses in those queues. */
module Transport {
  import opened Wire

  /** libusb status codes the protocol code depends on. */
  const LIBUSB_ERROR_TIMEOUT: int := -7
  const LIBUSB_ERROR_OVERFLOW: int := -8

  /** What the device does with one outbound transfer: the libusb status and
      how many of the offered bytes it took. */
  datatype OutResult = OutResult(status: int, accepted: nat)
  /** What one inbound transfer delivers: the libusb status and the bytes. */
  datatype InResult = InResult(status: int, bytes: Bytes)

  /** One bulk transfer as issued by the host. */
  datatype Transfer =
    | Out(endpoint: Byte, data: Bytes, timeout: nat)
    | In(endpoint: Byte, capacity: nat, timeout: nat)

  /** The next scripted outbound result; a device that has nothing more to say times out. */
  function NextOut(script: seq<OutResult>): OutResult
  {
    if script == [] then OutResult(LIBUSB_ERROR_TIMEOUT, 0) else script[0]
  }

  function NextIn(script: seq<InResult>): InResult
  {
    if script == [] then InResult(LIBUSB_ERROR_TIMEOUT, []) else script[0]
  }

  function Rest<T>(script: seq<T>): (r: seq<T>)
    ensures script != [] ==> r == script[1..]
    ensures script == [] ==> r == []
  {
    if script == [] then [] else script[1..]
  }

  /** Bytes counted as transferred: none on failure, never more than offered. */
  function Transferred(r: OutResult, offered: nat): (n: nat)
    ensures n <= offered
    ensures r.status < 0 ==> n == 0
    ensures r.status >= 0 && r.accepted <= offered ==> n == r.accepted
  {
    if r.status < 0 then 0 else if r.accepted <= offered then r.accepted else offered
  }

  /** What an inbound transfer into a buffer of `capacity` bytes yields: a failure
      carries no bytes, and a reply that does not fit is an overflow. */
  function Arrival(r: InResult, capacity: nat): (a: InResult)
    ensures a.status < 0 ==> a.bytes == []
    ensures a.status >= 0 ==> a == r && |a.bytes| <= capacity
    ensures r.status < 0 ==> a.status == r.status
  {
    if r.status < 0 then InResult(r.status, [])
    else if |r.bytes| > capacity then InResult(LIBUSB_ERROR_OVERFLOW, [])
    else r
  }

  class Device {
    /** Every transfer issued so far, in order. */
    ghost var Log: seq<Transfer>
    var outScript: seq<OutResult>
    var inScript: seq<InResult>

    constructor (outs: seq<OutResult>, ins: seq<InResult>)
      ensures Log == [] && outScript == outs && inScript == ins
    {
      Log := [];
      outScript := outs;
      inScript := ins;
    }

    /** A blocking bulk transfer from host to device. */
    method BulkOut(endpoint: Byte, data: Bytes, timeout: nat) returns (status: int, transferred: nat)
      modifies this
      ensures Log == old(Log) + [Out(endpoint, data, timeout)]
      ensures status == NextOut(old(outScript)).status
      ensures transferred == Transferred(NextOut(old(outScript)), |data|)
      ensures outScript == Rest(old(outScript)) && inScript == old(inScript)
    {
      var r := NextOut(outScript);
      outScript := Rest(outScript);
      Log := Log + [Out(endpoint, data, timeout)];
      status := r.status;
      transferred := Transferred(r, |data|);
    }

    /** A blocking bulk transfer from device to host into a `capacity`-byte buffer. */
    method BulkIn(endpoint: Byte, capacity: nat, timeout: nat) returns (status: int, bytes: Bytes)
      modifies this
      ensures Log == old(Log) + [In(endpoint, capacity, timeout)]
      ensures InResult(status, bytes) == Arrival(NextIn(old(inScript)), capacity)
      ensures inScript == Rest(old(inScript)) && outScript == old(outScript)
    {
      var a := Arrival(NextIn(inScript), capacity);
      inScript := Rest(inScript);
      Log := Log + [In(endpoint, capacity, timeout)];
      status, bytes := a.status, a.bytes;
    }
  }
}

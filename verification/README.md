# bb-usbdl host protocol, modelled in Dafny

This project models the host side of the BlackBerry bootloader USB control
protocol implemented by `bb-usbdl`. The modelled parts are:

- **Wire types** (`wire.dfy`, module `Wire`). This is the packed 8-byte little-endian
  `ControlMessageHeader` with type at bytes 0-1, packetSize at 2-3, command at 4,
  mode at 5 and packetId at 6-7. The module also holds the `BootloaderMode` and
  `ControlMessageCommand` enums with their wire codes, and the `TIMEOUT` and
  endpoint constants.
- **Transport** (`transport.dfy`, module `Transport`). This is an abstract libusb
  device. Each bulk transfer is appended to a ghost log `Log`. Its outcome comes
  from one of two scripted queues: one for host-to-device transfers and one for
  device-to-host transfers. An empty queue behaves as a timeout
  (`LIBUSB_ERROR_TIMEOUT`, -7). A reply larger than the receive buffer is an
  overflow (`LIBUSB_ERROR_OVERFLOW`, -8).
- **Authenticator** (`authenticator.dfy`, module `Authenticator`). This covers:
  - `strncpy` padding of the password into the 68-byte buffer;
  - extraction of the challenge, salt and signed iteration count from the
    GetPasswordInfo reply;
  - the SHA-512 hash chain as a closed-form specification (`Chain`), with the
    source's `do … while` loop (`HashChain`) proved against it;
  - the 68-byte SendPassword payload.
  
  SHA-512 is a parameter `sha512: Bytes -> Digest`, i.e. any function that
  returns 64 bytes.
- **Session** (`session.dfy`, module `Bootloader`). The class `Session` holds the
  packet counter (`packetid`, an `unsigned int`) and the current bootloader mode
  (`_bootloaderMode`, initially `0xFF`). It owns the device. Its methods are
  `send_ctrlmsg`, `receive_ctrlmsg`, `send_password`, `set_blmode`,
  `reboot_device`, `cmd_getvar`, `send_loader` and `send_loadermsg`. Each one
  states the exact frames it puts in the transfer log, what it returns, and the
  new counter and mode.

Behaviour of the code that the model keeps as written:

- After the splice the loop sets `count` to -1, so the loop starts over. For
  `iterations >= 1` the chain runs two full passes of `iterations` rounds. The
  challenge is spliced in once, between the passes. For `iterations <= 0` there
  is exactly one round and no splice. A reading in which the splice ends the
  chain after a single pass is not what the code does.
- `cmd_getvar` returns the receive result minus 8. `receive_ctrlmsg` returns 0
  on success, so a successful call returns -8, not the number of bytes received.
  Only the status -7 (timeout) ends it early. After any other send failure it
  still receives.
- `send_password` decides acceptance from byte 0 of the reply. That is the low
  byte of the header's `type` field, not the command byte at offset 4. A reply
  whose header `packetSize` is 8 counts as "no password" and returns 1 with no
  hashing.
- `set_blmode` adopts the new mode when both transfers succeed, whatever the
  reply's command byte is. The header of the SetMode frame carries the previous
  mode.
- The counter is 32 bits wide and the header's `packetId` field is 16 bits, so
  the wire carries the counter modulo 65536. Every send increments the counter
  once, before the transfer, so a failed transfer still uses an id.
- `send_loadermsg` copies only 6 header bytes. Its payload therefore starts at
  offset 6, and the last 2 bytes of its 8 + L byte transfer are never written.
- Bytes the C code leaves uninitialised are chosen arbitrarily (`:|`), and no
  contract says anything about them. These are the loader frame's last 2 bytes,
  the receive buffer beyond the bytes received, and the caller's header buffers.

## Model

| member | source | states |
|---|---|---|
| `Wire.HeaderRoundTrip` | bb-usbdl.h:49-55 | Encoding any header into 8 bytes and decoding them gives back all five fields. |
| `Wire.HeaderBytesRoundTrip` | bb-usbdl.h:49-55 | Any 8 bytes, decoded into a header and re-encoded, come back unchanged. The packed layout has no padding. |
| `Wire.ToInt32` | bb-usbdl.c:116-120 | The iteration count read as a C `int`: a value in the int32 range, congruent to the unsigned LE32 value modulo 2^32. |
| `Wire.ModeCode` | bb-usbdl.h:57-63 | Every bootloader mode has a code of at most 4. |
| `Wire.ModeFromCode` | bb-usbdl.h:57-63 | Exactly the codes 0..4 denote a mode. The mode found has that code, and it is the only mode with that code, so the five codes are distinct. |
| `Wire.CommandCode` | bb-usbdl.h:65-85 | Every command code lies in 0x01..0x13. |
| `Wire.CommandFromCode` | bb-usbdl.h:65-85 | Exactly the bytes 0x01..0x13 denote a command, and the command found has that code. |
| `Wire.CommandCodeInjective` | bb-usbdl.h:65-85 | Decoding a command's code gives back that command, so the 19 codes are distinct. |
| `Transport.Arrival` | bb-usbdl.c:67-73 | A failed receive delivers no bytes. A successful one delivers the device's bytes, at most the buffer's capacity. |
| `Transport.Device.BulkOut` | bb-usbdl.c:53 | It appends the transfer to the log, consumes one scripted result and returns its status. The byte count is 0 on failure and never more than offered. |
| `Transport.Device.BulkIn` | bb-usbdl.c:69 | It appends the transfer to the log, consumes one scripted reply and returns it as it arrives in the buffer. |
| `Authenticator.Strncpy` | bb-usbdl.c:122-123 | The result has exactly n bytes. Byte i is the password's byte i before the first NUL, and 0 from there on. |
| `Authenticator.ParseChallenge` | bb-usbdl.c:112-120 | The challenge is bytes 4-7 and the salt bytes 12-19 of the 100-byte buffer. The iteration count is a signed int32 congruent mod 2^32 to the little-endian value of bytes 20-23. |
| `Authenticator.ChallengeReply` | bb-usbdl.c:112-120 | Every valid challenge, salt and iteration count can be carried by a 24-byte reply payload. |
| `Authenticator.ParseChallengeReply` | bb-usbdl.c:112-120 | Any reply payload of 24 to 100 bytes that carries a challenge, salt and iteration count at offsets 4-7, 12-19 and 20-23 parses back to exactly those. Its other bytes are ignored. |
| `Authenticator.HashChain` | bb-usbdl.c:125-143 | The loop leaves exactly `Chain` in the buffer. For iterations >= 1 that is two passes of `iterations` rounds with one splice between them; otherwise it is one round. SHA-512 is called 2 × iterations times, or once. |
| `Authenticator.RoundsKeepTail` | bb-usbdl.c:133 | Rounds overwrite only the first 64 bytes. The buffer's last 4 bytes are unchanged. |
| `Authenticator.RoundsIgnoreTail` | bb-usbdl.c:129-133 | After any number of rounds, the digest depends only on the first 64 bytes of the starting buffer. |
| `Authenticator.ResponseIgnoresPasswordTail` | bb-usbdl.c:122-151 | Two passwords whose padded buffers agree on the first 64 bytes produce the same SendPassword payload. Password bytes 64-67 never reach the wire. |
| `Authenticator.ChallengeUnusedWithoutIterations` | bb-usbdl.c:135-143 | For iterations <= 0 the challenge never enters the chain. Any two challenges give the same result. |
| `Authenticator.SingleIteration` | bb-usbdl.c:125-143 | For iterations = 1 the chain is one round with count 0, the splice, and one more round with count 0. |
| `Authenticator.SecondPassInput` | bb-usbdl.c:128-141 | The first round after the splice hashes LE32 0, the salt, the challenge and the first 60 bytes of the previous digest. |
| `Authenticator.ChainTail` | bb-usbdl.c:133-141 | For iterations >= 1 the buffer's last 4 bytes end as bytes 60-63 of the first pass's digest; otherwise they keep the password's bytes 64-67. |
| `Authenticator.PasswordPayload` | bb-usbdl.c:146-151 | The SendPassword payload is 68 bytes: the tag 00 00 40 00, then the first 64 bytes of the hashed buffer. |
| `Bootloader.ModeByte` | bb-usbdl.c:42 | The `int` mode stored in the `unsigned char` header field keeps every value 0..255 unchanged. |
| `Bootloader.NextPacketId` | bb-usbdl.c:43 | The `unsigned int` counter goes up by one and wraps from 2^32 - 1 to 0. |
| `Bootloader.WireIdFollowsCounter` | bb-usbdl.c:43 | The 16-bit wire id of the next counter value is the previous wire id plus one modulo 65536, also when the 32-bit counter wraps. |
| `Bootloader.ControlFrameFields` | bb-usbdl.c:36-50 | A control frame is 8 + L bytes and ends with the payload. Its header decodes to type 0, (L + 8) mod 65536, the command, the mode and the counter mod 65536, and packetSize equals the frame length when it fits in 16 bits. |
| `Bootloader.LoaderFrameFields` | bb-usbdl.c:308-323 | A loader frame starts 00 10, then LE16 (L + 8), the command and the mode. It carries no packet id: the same bytes are a loader frame for every counter value. |
| `Bootloader.RimBootloaderId` | bb-usbdl.c:174-179 | Each of the 4 table rows is 17 bytes, starts with "RIM", has NUL at offset 15 and 0x01 at offset 16. |
| `Bootloader.RimBootloaderIdsDistinct` | bb-usbdl.c:174-179 | The four mode identifiers are pairwise different. |
| `Bootloader.GetVarPayload` | bb-usbdl.c:214-219 | The GetVariable payload is 4 bytes. They decode as LE16 bufferSize mod 65536, then LE16 variable mod 65536. |
| `Bootloader.SendResult` | bb-usbdl.c:53-61 | A send returns the negative status exactly when the transfer fails. Otherwise it returns a byte count of at most the frame length. |
| `Bootloader.ReceiveResult` | bb-usbdl.c:69-81 | A receive returns a negative status exactly when the transfer fails, and otherwise 0. |
| `Bootloader.Session.constructor` | bb-usbdl.c:31-32 | A new session starts with counter 0 and mode 0xFF. Every session method keeps the invariant that the counter fits 32 bits and the mode is 0xFF or one of the four modes with an identifier row. |
| `Bootloader.Session.SendCtrlMsg` | bb-usbdl.c:34-62 | It logs exactly the control frame built from the current mode and counter. It increments the counter once whether or not the transfer succeeds, and returns the failure status or the byte count. |
| `Bootloader.Session.ReceiveCtrlMsg` | bb-usbdl.c:64-82 | It logs one receive and returns the failure status or 0. On success the header buffer gets the reply's first 8 bytes and the data buffer gets the bytes after them. On failure both buffers are unchanged. |
| `Bootloader.Session.SetBlMode` | bb-usbdl.c:181-193 | It sends the mode's 17-byte row in a frame carrying the previous mode. It adopts the requested mode only when both transfers succeed, whatever the reply says. Otherwise it returns the failing status and keeps the old mode. |
| `Bootloader.Session.RebootDevice` | bb-usbdl.c:195-206 | It sends Reboot with an empty payload and awaits one reply. It returns -1 if either transfer fails and 0 otherwise. |
| `Bootloader.Session.CmdGetVar` | bb-usbdl.c:208-230 | It sends LE16 bufferSize ‖ LE16 variable. A send timeout returns -7 with no receive. Otherwise it returns -7 on a receive timeout, or the receive result minus 8 (-8 on success), and the reply payload lands in the buffer. |
| `Bootloader.Session.SendPassword` | bb-usbdl.c:84-172 | If the reply's packetSize is 8 it returns 1 with no SendPassword frame. Otherwise it sends the tag plus the first 64 bytes of the two-pass chain over the padded password with the counter's next id, and returns 1 exactly when byte 0 of the reply is 0x10. Any transport failure returns 0. |
| `Bootloader.Session.SendLoader` | bb-usbdl.c:288-304 | It receives one frame. If the receive fails, or byte 4 is not 0x13, it sends nothing. Otherwise it sends the fixed 16-byte start message on endpoint 0x02 with a 1000 ms timeout and receives once more. The counter and mode are untouched. |
| `Bootloader.Session.SendLoaderMsg` | bb-usbdl.c:306-335 | It logs one 8 + L byte transfer whose first 6 bytes are the type-0x1000 header and whose payload starts at offset 6. It increments the counter and returns the failure status or the byte count. |

## Left out

- `main` (bb-usbdl.c:359-428) and `initialize_device` (bb-usbdl.c:337-357) are left out. They handle arguments, poll for the device, sleep and claim the interface.
- `processDeviceInfo` (bb-usbdl.c:232-286) is left out. It writes the GetVariable reply to a file through fixed-offset little-endian reads.
- `print_hex` and all `printf`/`perror` diagnostics are left out. They do not affect what is sent or returned.
- libusb itself is left out: timeouts, stalls, endpoints and interface claiming. The transport is a script of results plus a log of transfers.
- SHA-512 internals are left out. The hash is a parameter that returns 64 bytes.
- Host endianness is not modelled. The host is taken to be little-endian, so the memcpy'd header and `count` are little-endian.
- Undefined behaviour of the C code becomes a precondition: a successful reply under 8 bytes when a data buffer is passed, a GetPasswordInfo payload over 100 bytes, a GetVariable payload larger than the caller's buffer, and an iteration count of INT_MIN. Each such precondition applies only when the send before that receive goes through, since the C code returns before receiving otherwise.
- `Bootloader.Session.SetBlMode` requires a mode that is a BootloaderMode other than RimBootNuke (0-3). The table has no row for RimBootNuke (4), and the source would read past it.
- `Bootloader.Session.SendLoader`: a successful reply shorter than 5 bytes leaves byte 4 of the header from the uninitialised receive buffer, so the contract does not say whether the start message is then sent.
- `Bootloader.Session.SendPassword`: an empty successful reply to SendPassword leaves byte 0 from the uninitialised receive buffer, so the contract then says only that the result is 0 or 1.

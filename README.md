# gimx network client: the wire protocol, modelled in Dafny

The client drives a remote virtual game controller over UDP. It sends two kinds of
datagram:

- an **update**: type byte `0x01`, a one-byte entry count, then one five-byte entry per
  control that changed (the identifier byte, then the value as four big-endian bytes);
- a **status query**: the two bytes `0x00 0x00`. The client reads the first byte of the
  reply and returns 1 if that byte is nonzero and 0 otherwise.

Controls are named by the `Ps4Controls` enumeration. Axes are 0–7; buttons and touch
flags are 128–147. Button values are `RELEASED = 0` and `PRESSED = 255`.

The project has five modules:

- `Wrappers` (`wrappers.dfy`): the `Option` and `Result` types.
- `ValueCodec` (`value_codec.dfy`): the four-byte value field. `ValueBytes` is written with
  Euclidean `/` and `%`. On Python's unbounded integers these agree with the source's
  masks and shifts; the module comment gives the argument, and it is not itself proved.
  The bytes are proved to be the big-endian two's-complement encoding of the value
  mod 2^32.
- `Controls` (`controls.dfy`): the two enumerations and their value lookup.
- `UpdatePacket` (`update_packet.dfy`): the update encoder. `BuildUpdate` is the loop of
  `send_message`. It is proved equal to the recursive specification `Update`. The
  lemmas give the exact byte layout, the error conditions, and a round trip. The round
  trip goes through `DecodeUpdate`, a reference reading of the packet as a receiver
  would parse it. The receiver is not part of the client, so `DecodeUpdate` models no
  client code. It exists only as the inverse that `UpdateRoundTrip` and
  `DecodeUpdateSound` are stated against.
- `StatusCheck` (`status_check.dfy`): the query packet and the reply decision of
  `check_status`. The receive is an abstract input: a datagram or a socket error.

Three behaviours of the code are easy to miss:

- Encoding fails when an identifier lies outside 0..255, as well as when the count
  exceeds 255. `bytearray` rejects any element outside one byte (client.py:49, 53).
  The count is checked first (line 49), then the identifiers in iteration order
  (line 53). The source raises one `ValueError` for every such case. The model's
  error says which check failed, and for an identifier, the first one that did.
- The reply check (client.py:68-76) has no error type and no length check. A nonzero
  first byte gives 1. A zero first byte gives 0. A socket error or timeout is printed
  and also gives 0.
- An empty reply datagram makes `response[0]` raise `IndexError`. The
  `except socket.error` clause does not catch it, so it escapes `check_status`. The
  model gives this outcome as `Failure(EmptyReply)`.

## Model

| member | source | states |
|---|---|---|
| `UpdatePacket.BuildUpdate` | client.py:49-53 | the loop that builds the packet computes exactly `Update(changes)`: the same bytes, or the same `ValueError` |
| `UpdatePacket.UpdateOutcome` | client.py:49-53 | encoding succeeds iff count ≤ 255 and every identifier is in 0..255; a count above 255 fails with that count; otherwise the failure names the first out-of-range identifier in iteration order |
| `UpdatePacket.UpdateLayout` | client.py:49-53 | an encoded update has 2 + 5N bytes; byte 0 is 0x01 and byte 1 is N; entry i is at bytes 2+5i..6+5i and holds the identifier, then the four value bytes |
| `UpdatePacket.EntriesLayout` | client.py:51-53 | the entry bytes are 5N long, and entry i of the mapping's items fills bytes 5i..5i+4 |
| `UpdatePacket.EntriesOutcome` | client.py:51-53 | the entries encode iff every identifier fits a byte; otherwise the error names the first identifier that does not |
| `UpdatePacket.EntriesFailureStays` | client.py:51-53 | once a prefix of the items fails, the whole encoding fails with that same error (the loop stops at the first bad entry) |
| `UpdatePacket.EmptyUpdate` | client.py:49 | an empty mapping yields exactly `[0x01, 0x00]` |
| `UpdatePacket.SingleUpdate` | client.py:49-53 | a one-entry mapping yields `[0x01, 0x01, id]` followed by the four value bytes |
| `UpdatePacket.DemonstrationPackets` | client.py:87-100 | `{PS: PRESSED}`, `{PS: RELEASED}`, `{LEFT_STICK_X: -1}` and `{LEFT_STICK_X: -32767}` encode to the expected seven bytes each |
| `UpdatePacket.NamedControlsEncode` | client.py:11-53 | a mapping whose keys are distinct named controls has at most 28 entries and always encodes |
| `UpdatePacket.EntryRoundTrip` | client.py:53 | entry i reads back as the identifier and the signed 32-bit image of the value |
| `UpdatePacket.UpdateRoundTrip` | client.py:49-53 | decoding an encoded update gives every pair back in order, each value as a signed 32-bit integer; when every value is in the int32 range, decoding gives the original pairs |
| `UpdatePacket.EntryReencodes` | client.py:53 | reading any five entry bytes and encoding the pair again reproduces those bytes |
| `UpdatePacket.DecodeUpdateSound` | client.py:49-53 | every datagram a receiver accepts as an update is the encoding of the pairs it reads, so the encoding is onto the well-formed packets |
| `ValueCodec.ValueBytes` | client.py:53 | the per-entry value split yields exactly four bytes, each in 0..255 (by its result type); what they mean is `ValueBytesRoundTrip` |
| `ValueCodec.ValueBytesRoundTrip` | client.py:53 | the four masked-and-shifted bytes, read big-endian, give v mod 2^32 for every integer v, negative or wider than 32 bits |
| `ValueCodec.BigEndian32RoundTrip` | client.py:53 | every four-byte field is the encoding of the unsigned value it reads as |
| `ValueCodec.ValueBytesModulo` | client.py:53 | two integers get the same four bytes iff they are congruent mod 2^32 |
| `ValueCodec.SignedReencodes` | client.py:53 | reading any four-byte field as a signed value and encoding that value again reproduces the field |
| `ValueCodec.SignedRoundTrip` | client.py:53 | for v in the signed 32-bit range, reading the bytes as two's complement gives back v |
| `ValueCodec.TwosComplementExamples` | client.py:99-100 | -1 → `FF FF FF FF`, -32767 → `FF FF 80 01`, -127 → `FF FF FF 81`, 32767 → `00 00 7F FF` |
| `Controls.Ps4Control.Code` | client.py:11-39 | every control's value fits in one byte; axes are exactly the values 0..7, buttons and flags exactly 128..147 |
| `Controls.FromCode` | client.py:11-39 | lookup by value finds a control iff the value is in 0..7 or 128..147, and the control found has that value |
| `Controls.CodeInjective` | client.py:11-39 | no two controls share a value; looking up a control's value gives that control back |
| `Controls.ControlCodesSize` | client.py:11-39 | the enumeration occupies exactly 28 identifier values |
| `Controls.ButtonState.Code` | client.py:42-44 | `RELEASED` is 0, `PRESSED` is nonzero (255), and both fit in one byte |
| `Controls.ButtonStateBytes` | client.py:42-44 | a button value is sent as three zero bytes followed by the value itself; `PRESSED` is `00 00 00 FF` |
| `StatusCheck.CheckStatus` | client.py:67-76 | returns 1 iff a datagram arrived and its first byte is nonzero; returns 0 iff a socket error or timeout occurred or the first byte is 0x00; an empty datagram raises |
| `StatusCheck.StatusQuery` | client.py:61 | the query is two bytes: the status type 0x00, then a zero byte; its type byte is not the update type, and a receiver parsing it as an update rejects it |
| `StatusCheck.Truncate` | client.py:68 | `recvfrom(2)` keeps the first min(2, length) bytes of the datagram, as a prefix, and the whole datagram when it is short enough |
| `StatusCheck.CheckStatusReadsFirstByte` | client.py:68-70 | the decision depends only on the first reply byte, so truncation to two bytes by `recvfrom(2)` does not change it |
| `StatusCheck.SocketErrorReadsAsOk` | client.py:73-76 | a socket error or timeout gives the same result as an OK reply: 0 |
| `StatusCheck.QueryIsNotAnUpdate` | client.py:61 | the query is `[0x00, 0x00]`; it differs in its type byte from every encoded update, and a receiver rejects it as an update |

## Left out

- Socket creation, `sendto`, `connect`, `send` and `recvfrom` (client.py:55-56, 62-64, 68)
  are network I/O. The model returns the datagram that would be sent. The result of the
  receive is the input `Receive`.
- The receive timeout set with `setsockopt(SO_RCVTIMEO)` and `struct.pack('ll', 1, 0)`
  (client.py:65-66) depends on the platform's `timeval` layout and on real time. Its only
  effect is the socket error that `Receive.SocketError` stands for.
- The `print` calls (client.py:71, 74) only write to the console.
- `main` and its demonstration with `sleep` (client.py:79-221) are canned playback. A few
  of its packets appear in `DemonstrationPackets` and `TwosComplementExamples`.
- `DEFAULT_IP` and `DEFAULT_PORT` (client.py:7-8) are configuration with no logic.
- Keys and values that are not integers (a `TypeError` in Python) are not modelled.
  Identifiers and values are unbounded integers, and enumeration members are their
  integer values.
- EncodeError payloads: `CountOutOfRange(count)` and `IdentifierOutOfRange(identifier)`
  are finer than the source. CPython raises one `ValueError` ("byte must be in
  range(0, 256)") for both the count (client.py:49) and an identifier (client.py:53),
  and it names neither value. The model therefore says more than the exception does.
- The change mapping is the sequence of its items in iteration order. Distinct keys are
  assumed only where a lemma needs them (`NamedControlsEncode`). The encoder encodes any
  sequence it is given.

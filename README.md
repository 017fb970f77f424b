# Z-Wave serial frame reader and message decoder

A Dafny model of the protocol logic in `examples/listen.rs` of zwave-rs, a
Rust driver for a Z-Wave controller on a serial link. The model covers two
parts:

- **Frame extraction.** `interact` reads one tag byte. Tag `0x01` starts a
  data frame. A length byte `len` follows, then exactly `len` body bytes.
  Tags `0x06`, `0x15` and `0x18` are ACK, NACK and CAN and take no further
  bytes. Any other tag is an unknown frame. All reads go through one reused
  256-byte buffer.
- **Body decoding.** `Msg::new` takes the `len` body bytes. It rejects a body
  shorter than two bytes. It then checks the trailing checksum: the XOR fold
  of every preceding byte, seeded with `0xFF ^ len`. Last, it descends one tag
  byte per level. Type `0x00` is Request and `0x01` is Response. Inside a
  Request, `0x49` is ApplicationUpdate. Inside that, `0x84` is
  `InfoReceived{node_id, rest}`. Each level gets a narrower slice of the same
  body. The errors are `ShortMsg`, `InvalidChecksum` and `UnknownType{data}`.

Files:

- `checksum.dfy` (module `Checksum`): the left XOR fold, as `iter().fold`
  computes it, and a reference XOR defined from the other end. Lemmas cover
  appending a byte, agreement with the reference, and changing one byte.
- `messages.dfy` (module `Messages`): the message datatypes and the four
  decoders as functions over `seq<bv8>`. Lemmas state what a body decodes to,
  and where each borrowed view sits in the body. The zero-copy slices are
  modelled as sub-sequences of the body. `ParseMsg` models `Msg::new`,
  `ParseRequest` models `RequestMsg::new`, `ParseApplicationUpdate` models
  `ApplicationUpdateMsg::new` and `ParseResponse` models `ResponseMsg::new`.
  The `*AsWritten` functions are the same chain exactly as written.
- `frames.dfy` (module `Frames`): the serial port is modelled as the byte
  sequence it will deliver plus a read cursor. `read_exact` is a method with a
  copy loop into an `array`. `interact` is a method over the same fixed
  256-byte array. `ReadExact` is proved against the function `Overwrite`,
  `ReadDataFrame` against `NextDataFrame` and `DataBufferAfter`, and
  `Interact` against `NextFrame` and `BufferAfter`. Lemmas state how many
  bytes each frame kind takes.

Frame bytes are integers in 0..255. The decoder and the checksum work on
`bv8`, and `ToBits` converts a data frame's body to `bv8` before it is decoded.

The code panics on a lone `0x84` tag (see Findings). One reading of the
protocol says the frame `01 04 00 49 84 CK` decodes to InfoReceived with an
empty `rest`. The code does not do that: that body has no node-id byte, and
the read of `buf[1]` goes out of range. The as-written chain
`ParseMsgAsWritten`, `ParseRequestAsWritten` and `ParseApplicationUpdateAsWritten`
follows the code. Each carries the precondition its out-of-range read needs,
and that frame breaks it. `ParseMsg`, `Interact` and every body-level lemma
use the corrected `ParseApplicationUpdate` instead. It reports `ShortMsg` for
that frame and agrees with the code on every other input.

## Model

| member | source | states |
|---|---|---|
| `Checksum.XorFoldAppend` | examples/listen.rs:45-47 | Folding one more byte into the checksum is an XOR of the old fold with that byte. |
| `Checksum.XorFoldIsSeedXorAll` | examples/listen.rs:45-47 | The left fold from a seed equals the seed XOR the XOR of all bytes (independent reference definition). |
| `Checksum.XorFoldUpdate` | examples/listen.rs:45-47 | Replacing byte `i` by `b` changes the fold by exactly `s[i] ^ b`. |
| `Checksum.SingleByteChangeChangesChecksum` | examples/listen.rs:44-48 | Any single changed byte changes the computed checksum, for every length seed. |
| `Messages.ShortBodyIsShortMsg` | examples/listen.rs:41-43 | A body of fewer than 2 bytes yields `ShortMsg`. |
| `Messages.ChecksumValidIff` | examples/listen.rs:44-50 | The checksum check accepts exactly when the last byte equals `(0xFF ^ len as u8)` XOR all preceding bytes. |
| `Messages.ChecksumCheckedFirst` | examples/listen.rs:48-51 | A body of 2 or more bytes with a bad checksum yields `InvalidChecksum`, whatever its type byte. |
| `Messages.InvalidChecksumIff` | examples/listen.rs:40-56 | `InvalidChecksum` comes out exactly when the body has 2 or more bytes and fails the check; no sub-decoder produces it. |
| `Messages.ChecksumRoundTrip` | examples/listen.rs:44-55 | Appending the computed checksum to any non-empty prefix gives a valid body, which decodes exactly as the prefix's type dispatch says. |
| `Messages.SingleByteCorruptionDetected` | examples/listen.rs:44-50 | Changing any one byte of a valid body, the checksum byte included, yields `InvalidChecksum`. |
| `Messages.ParseTyped` | examples/listen.rs:51-55 | The type dispatch never yields `InvalidChecksum`, and succeeds only with a Request when the type byte is 0. |
| `Messages.UnknownTopLevelType` | examples/listen.rs:51-54 | A valid body whose type byte is neither 0 nor 1 yields `UnknownType` whose data is the body minus the checksum, type byte included. |
| `Messages.ResponseIsUnknownType` | examples/listen.rs:101-103 | A valid Response body yields `UnknownType` whose data is the bytes between the type byte and the checksum. |
| `Messages.ParseRequest` | examples/listen.rs:65-74 | `RequestMsg::new` never yields `InvalidChecksum`, and succeeds only on a non-empty slice led by 0x49. |
| `Messages.RequestLevelErrors` | examples/listen.rs:65-73 | An empty Request slice yields `ShortMsg`; a tag other than 0x49 yields `UnknownType` with the whole Request slice, tag included. |
| `Messages.ParseApplicationUpdate` | examples/listen.rs:83-92 | Corrected `ApplicationUpdateMsg::new`: succeeds exactly when the slice has 2 or more bytes and starts with 0x84. The slice is then `[0x84, node_id] + rest`. Any error is `ShortMsg` or `UnknownType` of the whole slice. |
| `Messages.ApplicationUpdateLevelErrors` | examples/listen.rs:83-91 | An empty ApplicationUpdate slice yields `ShortMsg`. A tag other than 0x84 yields `UnknownType` with that slice. A lone 0x84 yields `ShortMsg`, the corrected behaviour. |
| `Messages.ParseApplicationUpdateAsWritten` | examples/listen.rs:84-91 | The code as written needs the precondition the guard omits: a 0x84 tag must be followed by a byte. Where that holds, it agrees with the corrected decoder. |
| `Messages.ParseRequestAsWritten` | examples/listen.rs:65-74 | `RequestMsg::new` calling the as-written ApplicationUpdate decoder needs its ApplicationUpdate slice to meet that decoder's precondition. Where it does, it agrees with `ParseRequest`. |
| `Messages.ParseMsgAsWritten` | examples/listen.rs:40-56 | `Msg::new` over the as-written chain needs a checksummed Request body whose Request slice meets that precondition. Where it does, it agrees with `ParseMsg`. |
| `Messages.LoneInfoTagEscapesGuard` | examples/listen.rs:84-89 | The body `00 49 84 36` has a valid checksum and hands `[0x84]` to `ApplicationUpdateMsg::new`. That slice passes the `len < 1` guard but breaks the precondition of `buf[1]`. The body therefore breaks the preconditions of the as-written `Msg::new` and `RequestMsg::new` too. |
| `Messages.InfoReceivedIff` | examples/listen.rs:51-92 | A body decodes to `Request(ApplicationUpdate(InfoReceived(n, rest)))` exactly when it is `00 49 84 n`, then `rest`, then a valid checksum. `rest` is the contiguous body range `[4, len-1)`. |
| `Messages.UnknownTypeIsTrailingView` | examples/listen.rs:51-103 | Every `UnknownType` payload is a slice of the body that ends just before the checksum and starts at byte 0, 1 or 2. |
| `Messages.ExampleInfoReceived` | examples/listen.rs:40-92 | The body `00 49 84 07 30` decodes to InfoReceived for node 7 with an empty `rest`. |
| `Frames.ReadExact` | examples/listen.rs:120-127 | `read_exact` fills `buf[lo..hi]` with the next `hi-lo` input bytes and leaves the rest of the buffer alone, or fails, exactly when fewer bytes remain. |
| `Frames.ReadDataFrame` | examples/listen.rs:123-127 | After the 0x01 tag: the length byte goes to `buf[0]`, then `len` body bytes go to `buf[0..len]`; the result and buffer are as `NextDataFrame`/`DataBufferAfter` say. |
| `Frames.Interact` | examples/listen.rs:118-144 | The frame dispatch returns `NextFrame(input, pos)` and leaves the buffer as `BufferAfter` says. It decodes the body of a data frame, and only of a data frame. |
| `Frames.DataFrameExtraction` | examples/listen.rs:123-129 | A 0x01 frame takes exactly `2 + len` bytes and hands exactly the `len` bytes after the length byte to the decoder. |
| `Frames.ControlFrameExtraction` | examples/listen.rs:132-140 | Tags 0x06, 0x15 and 0x18 take exactly one byte and give ACK, NACK and CAN. |
| `Frames.UnknownFrameExtraction` | examples/listen.rs:141-143 | Any other tag takes exactly one byte and is reported as an unknown frame. |
| `Frames.ReadFailsIffInputEnds` | examples/listen.rs:120-127 | Reading a frame fails exactly when the input ends before the tag, the length byte or the body is complete. |
| `Frames.FrameWithinInput` | examples/listen.rs:120-143 | A frame read takes at least one byte and never more than the input holds. |
| `Frames.BufferHoldsBody` | examples/listen.rs:118-127 | After a data frame the buffer starts with the body. Beyond it the bytes are unchanged, except that an empty body leaves the length byte 0 in `buf[0]`. |
| `Frames.ExampleFrame` | examples/listen.rs:120-131 | `01 05 00 49 84 07 30 06` reads as a 7-byte data frame, which decodes to InfoReceived for node 7, followed by an ACK. |

## Left out

- `main`, the opening of the serial port, its configuration (baud, character size, parity, stop bits, flow control) and the 100-second timeout (examples/listen.rs:18-24, 107-116) are transport I/O. The port is modelled as the byte sequence it delivers.
- The `println!` output and the `.unwrap()` of the decode result (examples/listen.rs:128-130) are demonstration code. `Frames.Interact` returns the decode result instead of panicking on an error.
- `Frames.ReadExact`: on a short read the real `read_exact` may already have consumed some bytes, and it leaves the buffer contents unspecified. The model returns `ok == false` (and the frame reader `ReadFailed`), moves the cursor to the end of the input, and leaves the buffer unchanged.
- Borrowing: the decoded views are modelled as sequence values equal to sub-ranges of the body. Lifetimes and the aliasing of the reused buffer are not modelled.
- src/lib.rs is not part of this model. Its mio event loop, `ZwaveHandler::ready` (it only prints) and `run` are I/O plumbing. `ZwaveState` has no transitions anywhere, so no handshake, acknowledgement or retransmission machine is modelled. Its test is empty.
- The repository has no encoder or frame writer. The checksum round trip is stated as the lemma `Messages.ChecksumRoundTrip` instead.
- `Frames.ToBits`: its contract states only that the length is kept. That each converted element keeps its value follows from the checked `as bv8` conversion, but it is not restated as an `ensures`, because the int-to-bit-vector conversion is too costly for the solver in a quantified contract.

## Findings

| source | as written | input that shows it | evidently intended | confidence | as-written member | corrected member |
|---|---|---|---|---|---|---|
| examples/listen.rs:84-89 | `ApplicationUpdateMsg::new` guards only `buf.len() < 1`, then reads `buf[1]` for tag 0x84 | frame `01 04 00 49 84 36`: the body `00 49 84 36` passes the checksum and hands `[0x84]` down, so `buf[1]` is out of range | report `ShortMsg` when the 0x84 tag has no node-id byte after it | not executed; the index is out of range for that slice | `Messages.ParseMsgAsWritten` (through `Messages.ParseApplicationUpdateAsWritten`) with `Messages.LoneInfoTagEscapesGuard` | `Messages.ParseApplicationUpdate` |

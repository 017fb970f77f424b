/** Reading one frame from the serial link (examples/listen.rs:11-16, 118-144).
    The port is modelled as the bytes it will deliver and a read cursor; the
    reader overwrites one fixed 256-byte buffer in place: first with the frame
    tag, then with the length byte, then with the frame body, which it hands to
    the decoder. */
module Frames {
  import opened Messages

  /** A byte read from the port, an unsigned 8-bit value. */
  type byte = x: int | 0 <= x < 256

  /** Frame tags, `mod frame_type`. */
  const MsgFrame: byte := 0x01
  const AckFrame: byte := 0x06
  const NackFrame: byte := 0x15
  const CanFrame: byte := 0x18

  /** What one frame turned out to be; a data frame keeps its body. */
  datatype Frame =
    | Data(body: seq<byte>)
    | Ack
    | Nack
    | Can
    | UnknownFrame(tag: byte)

  /** A frame and the number of bytes it took from the port, or a read that ran
      out of input (`read_exact` failing). */
  datatype ReadOutcome = Received(frame: Frame, consumed: nat) | ReadFailed

  datatype Option<T> = None | Some(value: T)

  /** The same bytes as bit vectors, the form the decoder works on; each
      conversion is checked to keep the byte's value. */
  function ToBits(s: seq<byte>): (r: seq<bv8>)
    ensures |r| == |s|
  {
    seq(|s|, i requires 0 <= i < |s| => s[i] as bv8)
  }

  /** `Msg::new` applied to a data frame's body. */
  function Decode(body: seq<byte>): Result<Msg> {
    ParseMsg(ToBits(body))
  }

  /** `buf` with `data` written over it from index `lo` on. */
  function Overwrite(buf: seq<byte>, lo: nat, data: seq<byte>): (r: seq<byte>)
    requires lo + |data| <= |buf|
    ensures |r| == |buf| && r[lo..lo + |data|] == data
  {
    buf[..lo] + data + buf[lo + |data|..]
  }

  /** Writing one byte at the front is an update of index 0. */
  lemma OverwriteFirst(buf: seq<byte>, data: seq<byte>)
    requires |data| == 1 && 1 <= |buf|
    ensures Overwrite(buf, 0, data) == buf[0 := data[0]]
  {
  }

  /** `port.read_exact(&mut buf[lo..hi])`: fills the range with the next
      `hi - lo` bytes of the input, or fails when fewer remain. */
  method ReadExact(input: seq<byte>, pos: nat, buf: array<byte>, lo: nat, hi: nat)
    returns (ok: bool, next: nat)
    requires pos <= |input| && lo <= hi <= buf.Length
    modifies buf
    ensures ok <==> pos + (hi - lo) <= |input|
    ensures ok ==> next == pos + (hi - lo) && buf[..] == Overwrite(old(buf[..]), lo, input[pos..next])
    ensures ok ==> buf[lo..hi] == input[pos..next]
    ensures !ok ==> next == |input| && buf[..] == old(buf[..])
  {
    var n := hi - lo;
    if pos + n > |input| {
      return false, |input|;
    }
    var i := 0;
    while i < n
      invariant 0 <= i <= n
      invariant forall k :: 0 <= k < buf.Length ==>
        buf[k] == if lo <= k < lo + i then input[pos + (k - lo)] else old(buf[k])
    {
      buf[lo + i] := input[pos + i];
      i := i + 1;
    }
    ok, next := true, pos + n;
    ghost var want := Overwrite(old(buf[..]), lo, input[pos..next]);
    assert forall k :: 0 <= k < buf.Length ==> buf[..][k] == want[k];
  }

  /** What reading one frame at `pos` yields: the frame and the bytes it took,
      or `ReadFailed` when the input ends before the frame does. */
  function NextFrame(input: seq<byte>, pos: nat): (r: ReadOutcome)
    requires pos <= |input|
  {
    if pos == |input| then ReadFailed
    else if input[pos] == MsgFrame then NextDataFrame(input, pos + 1)
    else if input[pos] == AckFrame then Received(Ack, 1)
    else if input[pos] == NackFrame then Received(Nack, 1)
    else if input[pos] == CanFrame then Received(Can, 1)
    else Received(UnknownFrame(input[pos]), 1)
  }

  /** The rest of a data frame whose tag is already read: the length byte at
      `pos`, then that many body bytes. The count includes the tag byte. */
  function NextDataFrame(input: seq<byte>, pos: nat): (r: ReadOutcome)
    requires pos <= |input|
  {
    if pos == |input| then ReadFailed
    else
      var len: nat := input[pos];
      if pos + 1 + len > |input| then ReadFailed
      else
        Received(Data(input[pos + 1..pos + 1 + len]), 2 + len)
  }

  /** The 256-byte buffer after reading one frame at `pos`: `buf[0]` holds the tag,
      then the length byte, and `buf[0..len]` the body, as far as the reads got. */
  function BufferAfter(input: seq<byte>, pos: nat, buf: seq<byte>): (r: seq<byte>)
    requires pos <= |input| && |buf| == 256
  {
    if pos == |input| then buf
    else if input[pos] == MsgFrame then DataBufferAfter(input, pos + 1, buf[0 := input[pos]])
    else buf[0 := input[pos]]
  }

  /** The buffer after the data-frame reads that follow the tag. */
  function DataBufferAfter(input: seq<byte>, pos: nat, buf: seq<byte>): (r: seq<byte>)
    requires pos <= |input| && |buf| == 256
  {
    if pos == |input| then buf
    else
      var len: nat := input[pos];
      if pos + 1 + len > |input| then buf[0 := input[pos]]
      else Overwrite(buf[0 := input[pos]], 0, input[pos + 1..pos + 1 + len])
  }

  /** The data-frame branch of `interact`, after the 0x01 tag: `read_exact` of one
      length byte into `buf[0..1]`, then of `len` bytes into `buf[0..len]`. */
  method ReadDataFrame(input: seq<byte>, pos: nat, buf: array<byte>) returns (r: ReadOutcome)
    requires pos <= |input| && buf.Length == 256
    modifies buf
    ensures r == NextDataFrame(input, pos)
    ensures buf[..] == DataBufferAfter(input, pos, old(buf[..]))
  {
    ghost var before := buf[..];
    var ok, next := ReadExact(input, pos, buf, 0, 1);
    if !ok {
      return ReadFailed;
    }
    OverwriteFirst(before, input[pos..pos + 1]);
    ghost var sized := buf[..];
    assert sized == before[0 := input[pos]];
    var len: nat := buf[0];
    ok, next := ReadExact(input, pos + 1, buf, 0, len);
    if !ok {
      return ReadFailed;
    }
    var body := buf[0..len];
    r := Received(Data(body), 2 + len);
  }

  /** `interact` past the port setup: read one tag byte into `buf[0]`; for a data
      frame read the rest of it and decode its body; every other tag takes
      nothing more. The decoding outcome is returned rather than unwrapped. */
  method Interact(input: seq<byte>, pos: nat, buf: array<byte>)
    returns (r: ReadOutcome, msg: Option<Result<Msg>>)
    requires pos <= |input| && buf.Length == 256
    modifies buf
    ensures r == NextFrame(input, pos)
    ensures buf[..] == BufferAfter(input, pos, old(buf[..]))
    ensures msg == if r.Received? && r.frame.Data? then Some(Decode(r.frame.body)) else None
  {
    ghost var before := buf[..];
    var ok, next := ReadExact(input, pos, buf, 0, 1);
    if !ok {
      return ReadFailed, None;
    }
    OverwriteFirst(before, input[pos..pos + 1]);
    var frameType := buf[0];
    assert frameType == input[pos];
    msg := None;
    if frameType == MsgFrame {
      r := ReadDataFrame(input, next, buf);
      if r.Received? {
        msg := Some(Decode(r.frame.body));
      }
    } else if frameType == AckFrame {
      r := Received(Ack, 1);
    } else if frameType == NackFrame {
      r := Received(Nack, 1);
    } else if frameType == CanFrame {
      r := Received(Can, 1);
    } else {
      r := Received(UnknownFrame(frameType), 1);
    }
  }

  // ---------------------------------------------------------------------------
  // Properties of frame extraction

  /** A data frame takes exactly the tag, the length byte and `len` body bytes,
      and hands exactly those `len` bytes to the decoder, whatever it makes of
      them: even a body with a bad checksum leaves the cursor after the frame. */
  lemma DataFrameExtraction(input: seq<byte>, pos: nat)
    requires pos + 1 < |input| && input[pos] == MsgFrame
    requires pos + 2 + input[pos + 1] <= |input|
    ensures var len: nat := input[pos + 1];
      NextFrame(input, pos) == Received(Data(input[pos + 2..pos + 2 + len]), 2 + len)
  {
  }

  /** ACK, NACK and CAN take exactly their one tag byte. */
  lemma ControlFrameExtraction(input: seq<byte>, pos: nat)
    requires pos < |input|
    ensures input[pos] == AckFrame ==> NextFrame(input, pos) == Received(Ack, 1)
    ensures input[pos] == NackFrame ==> NextFrame(input, pos) == Received(Nack, 1)
    ensures input[pos] == CanFrame ==> NextFrame(input, pos) == Received(Can, 1)
  {
  }

  /** Any other tag takes exactly one byte and is reported as unknown. */
  lemma UnknownFrameExtraction(input: seq<byte>, pos: nat)
    requires pos < |input|
    requires input[pos] != MsgFrame && input[pos] != AckFrame
    requires input[pos] != NackFrame && input[pos] != CanFrame
    ensures NextFrame(input, pos) == Received(UnknownFrame(input[pos]), 1)
  {
  }

  /** Reading fails exactly when the input ends before the frame does. */
  lemma ReadFailsIffInputEnds(input: seq<byte>, pos: nat)
    requires pos <= |input|
    ensures NextFrame(input, pos) == ReadFailed <==>
      pos == |input| ||
      (input[pos] == MsgFrame &&
       (pos + 1 == |input| || pos + 2 + input[pos + 1] > |input|))
  {
  }

  /** A frame always takes at least one byte and never more than the input holds,
      so the next frame starts right after it. */
  lemma FrameWithinInput(input: seq<byte>, pos: nat)
    requires pos <= |input|
    ensures NextFrame(input, pos).Received? ==>
      1 <= NextFrame(input, pos).consumed && pos + NextFrame(input, pos).consumed <= |input|
  {
  }

  /** After a data frame the reused buffer starts with its body; what lies beyond
      the body is what the buffer held before, except `buf[0]` when the body is
      empty, which then holds the length byte 0. */
  lemma BufferHoldsBody(input: seq<byte>, pos: nat, buf: seq<byte>)
    requires pos <= |input| && |buf| == 256
    requires NextFrame(input, pos).Received? && NextFrame(input, pos).frame.Data?
    ensures var body := NextFrame(input, pos).frame.body;
      var after := BufferAfter(input, pos, buf);
      after[..|body|] == body &&
      (|body| == 0 ==> after[0] == 0) &&
      after[if |body| == 0 then 1 else |body|..] == buf[if |body| == 0 then 1 else |body|..]
  {
  }

  /** The frame `01 05 00 49 84 07 30` followed by an ACK: the data frame takes
      seven bytes and decodes to InfoReceived for node 7; the ACK after it is
      found right behind. */
  lemma ExampleFrame()
    ensures var input: seq<byte> := [0x01, 0x05, 0x00, 0x49, 0x84, 0x07, 0x30, 0x06];
      NextFrame(input, 0) == Received(Data([0x00, 0x49, 0x84, 0x07, 0x30]), 7) &&
      Decode([0x00, 0x49, 0x84, 0x07, 0x30]) ==
        Ok(Request(ApplicationUpdate(InfoReceived(0x07, [])))) &&
      NextFrame(input, 7) == Received(Ack, 1)
  {
    var input: seq<byte> := [0x01, 0x05, 0x00, 0x49, 0x84, 0x07, 0x30, 0x06];
    assert input[2..7] == [0x00, 0x49, 0x84, 0x07, 0x30];
    assert ToBits([0x00, 0x49, 0x84, 0x07, 0x30]) == [0x00, 0x49, 0x84, 0x07, 0x30];
    ExampleInfoReceived();
  }
}

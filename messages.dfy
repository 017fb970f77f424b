/** Decoding the body of a Z-Wave serial data frame into a typed message.
    The body is the `len` bytes that follow the length byte: a type byte, the
    payload and a trailing checksum byte. Decoding checks the length, then the
    checksum, then descends one tag byte per level, each level receiving a
    narrower slice of the same body (examples/listen.rs:26-104). */
module Messages {
  import opened Checksum

  /** The closed set of decoding errors (examples/listen.rs:27-31). */
  datatype MsgError =
    | ShortMsg
    | InvalidChecksum
    | UnknownType(data: seq<bv8>)

  /** A decoder's outcome. */
  datatype Result<T> = Ok(value: T) | Err(error: MsgError)

  datatype ApplicationUpdateMsg = InfoReceived(nodeId: bv8, rest: seq<bv8>)

  datatype RequestMsg = ApplicationUpdate(update: ApplicationUpdateMsg)

  datatype ResponseMsg = ResponseMsg(msg: seq<bv8>)

  datatype Msg = Request(request: RequestMsg) | Response(response: ResponseMsg)

  /** Tag bytes of the three decoding levels. */
  const RequestTag: bv8 := 0x00
  const ResponseTag: bv8 := 0x01
  const ApplicationUpdateTag: bv8 := 0x49
  const InfoReceivedTag: bv8 := 0x84

  /** The body's last byte is the checksum of the bytes before it, the fold
      being seeded with the body's own length. */
  predicate ChecksumValid(body: seq<bv8>)
    requires |body| >= 1
  {
    body[|body| - 1] == Compute(|body|, body[..|body| - 1])
  }

  /** `Msg::new`: length check, checksum check, then dispatch on the type byte. */
  function ParseMsg(buf: seq<bv8>): Result<Msg> {
    if |buf| < 2 then Err(ShortMsg)
    else
      if !ChecksumValid(buf) then Err(InvalidChecksum)
      else ParseTyped(buf[..|buf| - 1])
  }

  /** The `match buf[0]` of `Msg::new`, applied to the body minus its checksum. */
  function ParseTyped(msg: seq<bv8>): (r: Result<Msg>)
    requires |msg| >= 1
    ensures r != Err(InvalidChecksum)
    ensures r.Ok? ==> r.value.Request? && msg[0] == RequestTag
  {
    if msg[0] == RequestTag then
      match ParseRequest(msg[1..])
      case Ok(req) => Ok(Request(req))
      case Err(e) => Err(e)
    else if msg[0] == ResponseTag then
      match ParseResponse(msg[1..])
      case Ok(resp) => Ok(Response(resp))
      case Err(e) => Err(e)
    else
      Err(UnknownType(msg))
  }

  /** `RequestMsg::new`. */
  function ParseRequest(buf: seq<bv8>): (r: Result<RequestMsg>)
    ensures r != Err(InvalidChecksum)
    ensures r.Ok? ==> |buf| >= 1 && buf[0] == ApplicationUpdateTag
  {
    if |buf| < 1 then Err(ShortMsg)
    else if buf[0] == ApplicationUpdateTag then
      match ParseApplicationUpdate(buf[1..])
      case Ok(update) => Ok(ApplicationUpdate(update))
      case Err(e) => Err(e)
    else
      Err(UnknownType(buf))
  }

  /** `ApplicationUpdateMsg::new`, with the lone-0x84 case corrected to
      `ShortMsg` (see ParseApplicationUpdateAsWritten). */
  function ParseApplicationUpdate(buf: seq<bv8>): (r: Result<ApplicationUpdateMsg>)
    ensures r.Ok? <==> |buf| >= 2 && buf[0] == InfoReceivedTag
    ensures r.Ok? ==> buf == [InfoReceivedTag, r.value.nodeId] + r.value.rest
    ensures r.Err? ==> r.error == ShortMsg || r.error == UnknownType(buf)
  {
    if |buf| < 1 then Err(ShortMsg)
    else if buf[0] == InfoReceivedTag then
      if |buf| < 2 then Err(ShortMsg)
      else Ok(InfoReceived(buf[1], buf[2..]))
    else
      Err(UnknownType(buf))
  }

  /** `ResponseMsg::new`: no response kind is recognised yet. */
  function ParseResponse(buf: seq<bv8>): Result<ResponseMsg> {
    Err(UnknownType(buf))
  }

  // ---------------------------------------------------------------------------
  // The code as written at examples/listen.rs:83-92

  /** What indexing `buf[1]` needs: a 0x84 tag must be followed by a node id. */
  predicate InfoReceivedIndexInRange(buf: seq<bv8>) {
    |buf| >= 1 && buf[0] == InfoReceivedTag ==> |buf| >= 2
  }

  /** `ApplicationUpdateMsg::new` exactly as written: only `|buf| < 1` is guarded,
      yet the 0x84 branch reads `buf[1]`, so the read needs the precondition. */
  function ParseApplicationUpdateAsWritten(buf: seq<bv8>): (r: Result<ApplicationUpdateMsg>)
    requires InfoReceivedIndexInRange(buf)
    ensures r == ParseApplicationUpdate(buf)
  {
    if |buf| < 1 then Err(ShortMsg)
    else if buf[0] == InfoReceivedTag then Ok(InfoReceived(buf[1], buf[2..]))
    else Err(UnknownType(buf))
  }

  /** What `RequestMsg::new` as written needs of its slice: the ApplicationUpdate
      slice it hands down must satisfy `InfoReceivedIndexInRange`. */
  predicate RequestIndexInRange(buf: seq<bv8>) {
    |buf| >= 1 && buf[0] == ApplicationUpdateTag ==> InfoReceivedIndexInRange(buf[1..])
  }

  /** `RequestMsg::new` calling the as-written `ApplicationUpdateMsg::new`. */
  function ParseRequestAsWritten(buf: seq<bv8>): (r: Result<RequestMsg>)
    requires RequestIndexInRange(buf)
    ensures r == ParseRequest(buf)
  {
    if |buf| < 1 then Err(ShortMsg)
    else if buf[0] == ApplicationUpdateTag then
      match ParseApplicationUpdateAsWritten(buf[1..])
      case Ok(update) => Ok(ApplicationUpdate(update))
      case Err(e) => Err(e)
    else
      Err(UnknownType(buf))
  }

  /** What `Msg::new` as written needs of a body: once the length and the
      checksum pass, a Request slice must satisfy `RequestIndexInRange`. */
  predicate MsgIndexInRange(buf: seq<bv8>) {
    |buf| >= 2 && ChecksumValid(buf) && buf[0] == RequestTag ==>
      RequestIndexInRange(buf[..|buf| - 1][1..])
  }

  /** `Msg::new` as written, over the as-written Request decoder. Wherever its
      precondition holds it agrees with the corrected `ParseMsg`. */
  function ParseMsgAsWritten(buf: seq<bv8>): (r: Result<Msg>)
    requires MsgIndexInRange(buf)
    ensures r == ParseMsg(buf)
  {
    if |buf| < 2 then Err(ShortMsg)
    else if !ChecksumValid(buf) then Err(InvalidChecksum)
    else
      var msg := buf[..|buf| - 1];
      if msg[0] == RequestTag then
        match ParseRequestAsWritten(msg[1..])
        case Ok(req) => Ok(Request(req))
        case Err(e) => Err(e)
      else if msg[0] == ResponseTag then
        match ParseResponse(msg[1..])
        case Ok(resp) => Ok(Response(resp))
        case Err(e) => Err(e)
      else
        Err(UnknownType(msg))
  }

  /** The guard lets a lone 0x84 through to the out-of-range read, and a body with
      a valid checksum hands exactly that slice down: the frame
      `01 04 00 49 84 36`. The corrected decoder reports `ShortMsg` for it. */
  lemma LoneInfoTagEscapesGuard()
    ensures var body: seq<bv8> := [0x00, 0x49, 0x84, 0x36];
      ChecksumValid(body) &&
      body[2..|body| - 1] == [InfoReceivedTag] &&
      !(|body[2..|body| - 1]| < 1) &&
      !InfoReceivedIndexInRange(body[2..|body| - 1]) &&
      !RequestIndexInRange(body[1..|body| - 1]) &&
      !MsgIndexInRange(body) &&
      ParseMsg(body) == Err(ShortMsg)
  {
    var body: seq<bv8> := [0x00, 0x49, 0x84, 0x36];
    ExampleChecksumFour();
    assert body[2..|body| - 1] == [InfoReceivedTag];
    assert body[1..|body| - 1] == [ApplicationUpdateTag, InfoReceivedTag];
    assert body[..|body| - 1][1..] == body[1..|body| - 1];
    ApplicationUpdateLevelErrors(body);
  }

  /** The checksum of the four-byte example body, folded byte by byte. */
  lemma ExampleChecksumFour()
    ensures ChecksumValid([0x00, 0x49, 0x84, 0x36])
  {
    var body: seq<bv8> := [0x00, 0x49, 0x84, 0x36];
    assert body[..3] == [0x00, 0x49, 0x84];
    assert Seed(4) == 0xFB;
    calc {
      Compute(4, [0x00, 0x49, 0x84]);
      XorFold(0xFB, [0x00, 0x49, 0x84]);
      { assert [0x00, 0x49, 0x84][1..] == [0x49 as bv8, 0x84]; }
      XorFold(0xFB, [0x49, 0x84]);
      { assert [0x49, 0x84][1..] == [0x84 as bv8]; }
      XorFold(0xB2, [0x84]);
      { assert [0x84 as bv8][1..] == []; }
      XorFold(0x36, []);
    }
  }

  /** The checksum of the five-byte example body, folded byte by byte. */
  lemma ExampleChecksumFive()
    ensures ChecksumValid([0x00, 0x49, 0x84, 0x07, 0x30])
  {
    var body: seq<bv8> := [0x00, 0x49, 0x84, 0x07, 0x30];
    assert body[..4] == [0x00, 0x49, 0x84, 0x07];
    assert Seed(5) == 0xFA;
    calc {
      Compute(5, [0x00, 0x49, 0x84, 0x07]);
      XorFold(0xFA, [0x00, 0x49, 0x84, 0x07]);
      { assert [0x00, 0x49, 0x84, 0x07][1..] == [0x49 as bv8, 0x84, 0x07]; }
      XorFold(0xFA, [0x49, 0x84, 0x07]);
      { assert [0x49, 0x84, 0x07][1..] == [0x84 as bv8, 0x07]; }
      XorFold(0xB3, [0x84, 0x07]);
      { assert [0x84, 0x07][1..] == [0x07 as bv8]; }
      XorFold(0x37, [0x07]);
      { assert [0x07 as bv8][1..] == []; }
      XorFold(0x30, []);
    }
  }

  // ---------------------------------------------------------------------------
  // Properties of ParseMsg

  /** A body shorter than two bytes is `ShortMsg`, before any byte is read. */
  lemma ShortBodyIsShortMsg(buf: seq<bv8>)
    requires |buf| < 2
    ensures ParseMsg(buf) == Err(ShortMsg)
  {
  }

  /** The check accepts exactly when the last byte is the checksum of the rest,
      which is the seed XOR the XOR of every preceding byte. */
  lemma ChecksumValidIff(body: seq<bv8>)
    requires |body| >= 1
    ensures ChecksumValid(body) <==>
      body[|body| - 1] == Xor(Seed(|body|), XorAll(body[..|body| - 1]))
  {
    XorFoldIsSeedXorAll(Seed(|body|), body[..|body| - 1]);
  }

  /** The checksum is checked before the type byte is looked at: a bad checksum
      is `InvalidChecksum` whatever the type byte is. */
  lemma ChecksumCheckedFirst(body: seq<bv8>)
    requires |body| >= 2 && !ChecksumValid(body)
    ensures ParseMsg(body) == Err(InvalidChecksum)
  {
  }

  /** `InvalidChecksum` arises exactly from a failed checksum check: none of the
      sub-decoders produces it. */
  lemma InvalidChecksumIff(body: seq<bv8>)
    ensures ParseMsg(body) == Err(InvalidChecksum) <==> |body| >= 2 && !ChecksumValid(body)
  {
  }

  /** Appending the computed checksum to any non-empty prefix gives a body that
      passes the checksum and decodes as the prefix's type dispatch says. */
  lemma ChecksumRoundTrip(prefix: seq<bv8>)
    requires |prefix| >= 1
    ensures var body := prefix + [Compute(|prefix| + 1, prefix)];
      ChecksumValid(body) && ParseMsg(body) == ParseTyped(prefix)
  {
    var body := prefix + [Compute(|prefix| + 1, prefix)];
    assert body[..|body| - 1] == prefix;
  }

  /** Changing any single byte of a body with a valid checksum, the checksum
      byte included, always yields `InvalidChecksum`. */
  lemma SingleByteCorruptionDetected(body: seq<bv8>, i: nat, b: bv8)
    requires |body| >= 2 && ChecksumValid(body)
    requires i < |body| && b != body[i]
    ensures ParseMsg(body[i := b]) == Err(InvalidChecksum)
  {
    var n := |body|;
    var bad := body[i := b];
    if i == n - 1 {
      assert bad[..n - 1] == body[..n - 1];
    } else {
      assert bad[..n - 1] == body[..n - 1][i := b];
      SingleByteChangeChangesChecksum(n, body[..n - 1], i, b);
    }
  }

  /** A valid body whose type byte is neither 0 nor 1 is `UnknownType` carrying
      the whole body minus the checksum, type byte included. */
  lemma UnknownTopLevelType(body: seq<bv8>)
    requires |body| >= 2 && ChecksumValid(body)
    requires body[0] != RequestTag && body[0] != ResponseTag
    ensures ParseMsg(body) == Err(UnknownType(body[..|body| - 1]))
  {
  }

  /** A valid Response body is `UnknownType` carrying the bytes between the type
      byte and the checksum. */
  lemma ResponseIsUnknownType(body: seq<bv8>)
    requires |body| >= 2 && ChecksumValid(body) && body[0] == ResponseTag
    ensures ParseMsg(body) == Err(UnknownType(body[1..|body| - 1]))
  {
    assert body[..|body| - 1][1..] == body[1..|body| - 1];
  }

  /** At the Request level: nothing after the type byte is `ShortMsg`; a tag
      other than 0x49 is `UnknownType` carrying the Request slice, tag included. */
  lemma RequestLevelErrors(body: seq<bv8>)
    requires |body| >= 2 && ChecksumValid(body) && body[0] == RequestTag
    ensures |body| == 2 ==> ParseMsg(body) == Err(ShortMsg)
    ensures |body| > 2 && body[1] != ApplicationUpdateTag ==>
      ParseMsg(body) == Err(UnknownType(body[1..|body| - 1]))
  {
    assert body[..|body| - 1][1..] == body[1..|body| - 1];
  }

  /** At the ApplicationUpdate level: nothing after 0x49 is `ShortMsg`; a tag
      other than 0x84 is `UnknownType` carrying the ApplicationUpdate slice, tag
      included; a 0x84 with no node id after it is `ShortMsg`. */
  lemma ApplicationUpdateLevelErrors(body: seq<bv8>)
    requires |body| >= 3 && ChecksumValid(body)
    requires body[0] == RequestTag && body[1] == ApplicationUpdateTag
    ensures |body| == 3 ==> ParseMsg(body) == Err(ShortMsg)
    ensures |body| > 3 && body[2] != InfoReceivedTag ==>
      ParseMsg(body) == Err(UnknownType(body[2..|body| - 1]))
    ensures |body| == 4 && body[2] == InfoReceivedTag ==> ParseMsg(body) == Err(ShortMsg)
  {
    assert body[..|body| - 1][1..] == body[1..|body| - 1];
    assert body[1..|body| - 1][1..] == body[2..|body| - 1];
  }

  /** A body decodes to InfoReceived exactly when it is
      `[0x00, 0x49, 0x84, n] + rest + [checksum]` with a valid checksum; `rest` is
      then the contiguous run of body bytes between the node id and the checksum. */
  lemma InfoReceivedIff(body: seq<bv8>, n: bv8, rest: seq<bv8>)
    ensures ParseMsg(body) == Ok(Request(ApplicationUpdate(InfoReceived(n, rest)))) <==>
      |body| >= 5 && ChecksumValid(body) &&
      body[0] == RequestTag && body[1] == ApplicationUpdateTag &&
      body[2] == InfoReceivedTag && body[3] == n && rest == body[4..|body| - 1]
  {
    if |body| >= 5 {
      var m := body[..|body| - 1];
      assert m[1..] == body[1..|body| - 1];
      assert m[1..][1..] == body[2..|body| - 1];
      assert m[1..][1..][2..] == body[4..|body| - 1];
    }
  }

  /** Every `UnknownType` payload is a view into the body that ends just before
      the checksum and starts at one of the first three tag bytes. */
  lemma UnknownTypeIsTrailingView(body: seq<bv8>, data: seq<bv8>)
    requires ParseMsg(body) == Err(UnknownType(data))
    ensures |body| >= 2 && 1 <= |body| - |data| <= 3
    ensures data == body[|body| - 1 - |data|..|body| - 1]
  {
    var m := body[..|body| - 1];
    assert m[1..] == body[1..|body| - 1];
    if |m| >= 2 {
      assert m[1..][1..] == body[2..|body| - 1];
    }
  }

  /** The frame `01 05 00 49 84 07 30`: node 7, nothing after it. */
  lemma ExampleInfoReceived()
    ensures ParseMsg([0x00, 0x49, 0x84, 0x07, 0x30]) ==
      Ok(Request(ApplicationUpdate(InfoReceived(0x07, []))))
  {
    var body: seq<bv8> := [0x00, 0x49, 0x84, 0x07, 0x30];
    ExampleChecksumFive();
    assert body[4..|body| - 1] == [];
    InfoReceivedIff(body, 0x07, []);
  }
}

/**
 The byte-level codec of the SSH agent: 32-bit big-endian integers, the SSH `string`
 (section 5 of RFC 4251) and the length-prefixed agent frame.
 */
module SshWire {
  import opened Prelude

  type byte = x: int | 0 <= x < 256

  const TWO32: nat := 0x1_0000_0000

  /** `(n as u32).to_be_bytes()`: the cast keeps the low 32 bits. */
  function U32Bytes(n: nat): (b: seq<byte>)
    ensures |b| == 4
  {
    var m := n % TWO32;
    [m / 0x100_0000, m / 0x1_0000 % 256, m / 256 % 256, m % 256]
  }

  /** `u32::from_be_bytes` of the first four bytes. */
  function U32At(b: seq<byte>): (n: nat)
    requires |b| >= 4
    ensures n < TWO32
  {
    b[0] as int * 0x100_0000 + b[1] as int * 0x1_0000 + b[2] as int * 256 + b[3] as int
  }

  /** Reading what was written gives the value modulo 2^32, whatever follows it. */
  lemma U32Decodes(n: nat, tail: seq<byte>)
    ensures U32At(U32Bytes(n) + tail) == n % TWO32
  {
    var m := n % TWO32;
    var b := U32Bytes(n) + tail;
    assert b[0] == m / 0x100_0000 && b[1] == m / 0x1_0000 % 256 && b[2] == m / 256 % 256 && b[3] == m % 256;
    assert m / 0x1_0000 == (m / 256) / 256 && m / 0x100_0000 == (m / 0x1_0000) / 256;
  }

  /** Four bytes are the encoding of the integer they decode to. */
  lemma U32Encodes(b: seq<byte>)
    requires |b| >= 4
    ensures U32Bytes(U32At(b)) == b[..4]
  {
    var n := U32At(b);
    var b0: int, b1: int, b2: int, b3: int := b[0], b[1], b[2], b[3];
    assert n == 256 * (256 * (256 * b0 + b1) + b2) + b3;
    assert n / 256 == 256 * (256 * b0 + b1) + b2;
    assert n / 0x1_0000 == (n / 256) / 256 == 256 * b0 + b1;
    assert n / 0x100_0000 == (n / 0x1_0000) / 256 == b0;
  }

  // ---------------------------------------------------------------------------
  // SSH string
  // ---------------------------------------------------------------------------

  /** What `write_string` appends to its buffer. */
  function EncodeString(bytes: seq<byte>): seq<byte> {
    U32Bytes(|bytes|) + bytes
  }

  function ReadString(input: seq<byte>): Option<(seq<byte>, seq<byte>)> {
    if |input| < 4 then None
    else
      var len := U32At(input);
      if |input| < 4 + len then None else Some((input[4..4 + len], input[4 + len..]))
  }

  /**
   A written string is read back, with everything after it left over, exactly when its length
   fits the 32-bit prefix.
   */
  lemma StringRoundTripIff(bytes: seq<byte>, tail: seq<byte>)
    ensures ReadString(EncodeString(bytes) + tail) == Some((bytes, tail)) <==> |bytes| < TWO32
  {
    var input := EncodeString(bytes) + tail;
    assert input == U32Bytes(|bytes|) + (bytes + tail);
    U32Decodes(|bytes|, bytes + tail);
    if |bytes| < TWO32 {
      assert input[4..4 + |bytes|] == bytes;
      assert input[4 + |bytes|..] == tail;
    }
  }

  /** Any successful parse re-encodes to exactly its input. */
  lemma StringParseIsEncoding(input: seq<byte>)
    ensures match ReadString(input)
            case Some((value, rest)) => |value| < TWO32 && input == EncodeString(value) + rest
            case None => forall value, rest ::
              input == EncodeString(value) + rest ==> |value| >= TWO32
  {
    match ReadString(input) {
      case Some((value, rest)) =>
        U32Encodes(input);
        assert input == input[..4] + (value + rest);
      case None =>
        forall value, rest | input == EncodeString(value) + rest ensures |value| >= TWO32 {
          StringRoundTripIff(value, rest);
        }
    }
  }

  // ---------------------------------------------------------------------------
  // Frames
  // ---------------------------------------------------------------------------

  const MAX_FRAME_LEN: nat := 256 * 1024

  function WriteFrame(payload: seq<byte>): seq<byte> {
    U32Bytes(|payload|) + payload
  }

  /**
   `read_frame` on the bytes a peer sends before closing. `Closed` is its `Ok(None)`: any header
   shorter than four bytes. `Broken` is its `Err`: a length over the cap or a truncated payload.
   */
  datatype FrameRead = Closed | Broken | Frame(payload: seq<byte>, rest: seq<byte>)

  function ReadFrame(input: seq<byte>): (r: FrameRead)
    ensures r.Frame? ==> |r.rest| < |input|
  {
    if |input| < 4 then Closed
    else
      var len := U32At(input);
      if len > MAX_FRAME_LEN then Broken
      else if len == 0 then Frame([], input[4..])
      else if |input| < 4 + len then Broken
      else Frame(input[4..4 + len], input[4 + len..])
  }

  /** The requests a connection delivers: complete frames up to the first header that stops it. */
  function Requests(input: seq<byte>): seq<seq<byte>>
    decreases |input|
  {
    match ReadFrame(input)
    case Frame(payload, rest) => [payload] + Requests(rest)
    case _ => []
  }

  /** A byte stream made of the given payloads, each written by `write_frame`. */
  function Framed(payloads: seq<seq<byte>>): seq<byte> {
    if payloads == [] then [] else WriteFrame(payloads[0]) + Framed(payloads[1..])
  }

  /** The stream ends here: no complete frame within the cap can be taken from `tail`. */
  predicate Stops(tail: seq<byte>) {
    |tail| < 4 || U32At(tail) > MAX_FRAME_LEN || |tail| < 4 + U32At(tail)
  }

  predicate AllWithinCap(payloads: seq<seq<byte>>) {
    forall p | p in payloads :: |p| <= MAX_FRAME_LEN
  }

  lemma FrameRoundTrip(payload: seq<byte>, tail: seq<byte>)
    requires |payload| <= MAX_FRAME_LEN
    ensures ReadFrame(WriteFrame(payload) + tail) == Frame(payload, tail)
  {
    var input := WriteFrame(payload) + tail;
    assert input == U32Bytes(|payload|) + (payload + tail);
    U32Decodes(|payload|, payload + tail);
    assert input[4..4 + |payload|] == payload;
    assert input[4 + |payload|..] == tail;
  }

  lemma FrameParseIsEncoding(input: seq<byte>)
    ensures ReadFrame(input).Frame? <==> !Stops(input)
    ensures match ReadFrame(input)
            case Frame(payload, rest) => |payload| <= MAX_FRAME_LEN && input == WriteFrame(payload) + rest
            case _ => true
  {
    match ReadFrame(input) {
      case Frame(payload, rest) =>
        U32Encodes(input);
        assert input == input[..4] + (payload + rest);
      case _ =>
    }
  }

  /** Every stream splits as the frames delivered followed by a tail at which reading stops. */
  lemma {:induction false} RequestsSplitStream(input: seq<byte>) returns (tail: seq<byte>)
    ensures AllWithinCap(Requests(input))
    ensures Stops(tail)
    ensures input == Framed(Requests(input)) + tail
    decreases |input|
  {
    FrameParseIsEncoding(input);
    hide ReadFrame, WriteFrame, Stops;
    match ReadFrame(input) {
      case Frame(payload, rest) =>
        tail := RequestsSplitStream(rest);
        assert Requests(input) == [payload] + Requests(rest);
        assert Framed(Requests(input)) == WriteFrame(payload) + Framed(Requests(rest));
      case _ =>
        tail := input;
    }
  }

  /**
   That split is the only one: for payloads within the cap and a tail at which reading stops, the
   connection delivers exactly those payloads.
   */
  lemma {:induction false} RequestsOfFramed(payloads: seq<seq<byte>>, tail: seq<byte>)
    requires AllWithinCap(payloads) && Stops(tail)
    ensures Requests(Framed(payloads) + tail) == payloads
  {
    if payloads == [] {
      assert Framed(payloads) + tail == tail;
      FrameParseIsEncoding(tail);
    } else {
      var rest := Framed(payloads[1..]) + tail;
      assert Framed(payloads) + tail == WriteFrame(payloads[0]) + rest;
      FrameRoundTrip(payloads[0], rest);
      RequestsOfFramed(payloads[1..], tail);
    }
  }
}

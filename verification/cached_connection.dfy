/** The pure parts of the newer crate's connection (cached/src/connection.rs): the byte
    layout written by `write_frame`, the buffer-draining `parse_frame`, and the read
    loop of `read_frame`, with the socket replaced by the chunks it delivers. */
module CachedConnection {
  import opened Wrappers
  import opened BigEndian
  import opened Utf8
  import opened CachedError
  import opened CachedDomain
  import opened CachedPrimitives
  import opened CachedFrameHeader
  import opened CachedFrameMod

  /** The bytes `write_frame` writes, in order: opcode, status or padding, key length,
      the TTL as a big-endian u128, the total length as a big-endian u32, the key, the value. */
  function Encode(f: Frame): (r: seq<U8>)
    ensures |r| == HEADER_SIZE_BYTES + |PartBytes(f.key)| + |PartBytes(f.value)|
    ensures && r[0] == OpCodeToByte(f.header.OpCodeOf())
            && r[1] == f.header.StatusOrPadding()
            && r[2] == f.header.KeyLength()
            && FromBigEndian(r[3..19]) == IntoInner(f.header.TtlOf())
            && FromBigEndian(r[19..23]) == f.TotalFrameLength()
    ensures r[HEADER_SIZE_BYTES..] == PartBytes(f.key) + PartBytes(f.value)
  {
    var fixed := [OpCodeToByte(f.header.OpCodeOf()), f.header.StatusOrPadding(), f.header.KeyLength()];
    var ttl := U128ToBytes(IntoInner(f.header.TtlOf()));
    var total := U32ToBytes(f.TotalFrameLength());
    var r := fixed + ttl + total + PartBytes(f.key) + PartBytes(f.value);
    assert r[3..19] == ttl && r[19..23] == total;
    assert r[HEADER_SIZE_BYTES..] == PartBytes(f.key) + PartBytes(f.value);
    r
  }

  /** A frame whose header agrees with its parts, as `RequestFrame::new` and
      `ResponseFrame::new` build them, and whose parts are present only when non-empty. */
  predicate Consistent(f: Frame) {
    && (f.key.Some? ==> |f.key.value| > 0)
    && (f.value.Some? ==> |f.value.value| > 0)
    && f.header.KeyLength() == |PartBytes(f.key)|
    && f.TotalFrameLength() == HEADER_SIZE_BYTES + |PartBytes(f.key)| + |PartBytes(f.value)|
  }

  /** The key and value are text, as Rust strings always are. */
  predicate IsText(f: Frame) {
    ValidUtf8(PartBytes(f.key)) && ValidUtf8(PartBytes(f.value))
  }

  /** The encoding of a consistent frame is exactly its total frame length long. */
  lemma EncodedLengthIsTotal(f: Frame)
    requires Consistent(f)
    ensures |Encode(f)| == f.TotalFrameLength()
  {
  }

  /** The free function `parse_frame`: on a complete frame, parse it off the front of
      the buffer; on `Incomplete`, report nothing and leave the buffer alone. */
  function ParseFrame(kind: FrameKind, buffer: seq<U8>): (r: Consumed<Option<Frame>>)
    ensures r.result == Success(None) <==> Check(buffer).Failure?
    ensures r.result == Success(None) ==> r.rest == buffer
    ensures r.result.Success? && r.result.value.Some? ==>
              && Check(buffer).Success?
              && r.result.value.value.Kind() == kind
              && r.rest == buffer[Check(buffer).value..]
    ensures r.result.Failure? ==> Check(buffer).Success? && FrameParse(kind, buffer).result.Failure?
    ensures Check(buffer).Success? ==> (r.result.Success? <==> FrameParse(kind, buffer).result.Success?)
    ensures r.result.Success? && r.result.value.Some? ==> r.result.value.value == FrameParse(kind, buffer).result.value
    ensures r.result.Failure? ==>
              && r.result.error == FrameParse(kind, buffer).result.error
              && r.result.error in {Error.Frame(InvalidOpCode), Error.Frame(InvalidStatusCode), Panic(SubtractOverflow)}
              && r.rest == buffer[HEADER_SIZE_BYTES..]
  {
    match Check(buffer)
    case Success(_) =>
      var p := FrameParse(kind, buffer);
      CheckedParseConsumesCheckedLength(kind, buffer);
      (match p.result
       case Success(frame) => Consumed(Success(Some(frame)), p.rest)
       case Failure(e) => Consumed(Failure(e), p.rest))
    case Failure(e) =>
      if e == Error.Frame(Incomplete) then Consumed(Success(None), buffer)
      else Consumed(Failure(e), buffer)
  }

  /** The header bytes of an encoding decode to the header that was encoded. */
  lemma DecodeEncodedHeader(f: Frame, tail: seq<U8>)
    ensures DecodeHeader(f.Kind(), (Encode(f) + tail)[..HEADER_SIZE_BYTES]) == Success(f.header)
  {
    var h := (Encode(f) + tail)[..HEADER_SIZE_BYTES];
    var e := Encode(f);
    assert h[3..19] == e[3..19] && h[19..23] == e[19..23];
    CodesRoundTrip(StatusCode.Ok, f.header.OpCodeOf());
    if f.header.ResponseKind? {
      CodesRoundTrip(f.header.response.status, f.header.OpCodeOf());
      var d := DecodeResponseHeader(h);
      CodesInjective(d.value.status, f.header.response.status, d.value.opCode, f.header.OpCodeOf());
      assert d.value.ttl == f.header.response.ttl;
    } else {
      var d := DecodeRequestHeader(h);
      CodesInjective(StatusCode.Ok, StatusCode.Ok, d.value.opCode, f.header.OpCodeOf());
      assert d.value.ttl == f.header.request.ttl;
    }
  }

  /** `parse` inverts `write_frame`: it gives back the frame and consumes exactly its bytes. */
  lemma ParseOfEncode(f: Frame, tail: seq<U8>)
    requires Consistent(f) && IsText(f)
    ensures FrameParse(f.Kind(), Encode(f) + tail) == Consumed(Success(f), tail)
  {
    var e := Encode(f);
    var b := e + tail;
    DecodeEncodedHeader(f, tail);
    var key := PartBytes(f.key);
    var value := PartBytes(f.value);
    var keyEnd := HEADER_SIZE_BYTES + |key|;
    var total := keyEnd + |value|;
    assert b[2] == |key| && b[19..23] == e[19..23];
    assert b[HEADER_SIZE_BYTES..keyEnd] == key && b[keyEnd..total] == value && b[total..] == tail;
    LossyOfValid(key);
    LossyOfValid(value);
  }

  /** `parse_frame` on an encoded frame followed by anything returns that frame and
      leaves exactly what followed it. */
  lemma ParseFrameOfEncode(f: Frame, tail: seq<U8>)
    requires Consistent(f) && IsText(f)
    ensures ParseFrame(f.Kind(), Encode(f) + tail) == Consumed(Success(Some(f)), tail)
  {
    var b := Encode(f) + tail;
    assert b[19..23] == Encode(f)[19..23];
    assert Check(b).Success?;
    ParseOfEncode(f, tail);
  }

  /** Every proper prefix of an encoded frame is `Incomplete`: nothing is reported and
      nothing is consumed. */
  lemma ParseFrameOfProperPrefix(f: Frame, n: nat)
    requires Consistent(f) && n < |Encode(f)|
    ensures ParseFrame(f.Kind(), Encode(f)[..n]) == Consumed(Success(None), Encode(f)[..n])
  {
    var p := Encode(f)[..n];
    if n >= HEADER_SIZE_BYTES {
      assert p[19..23] == Encode(f)[19..23];
    }
  }

  /** Back-to-back frames come out one at a time, in order. */
  lemma PipelinedFrames(f: Frame, g: Frame, tail: seq<U8>)
    requires Consistent(f) && IsText(f) && Consistent(g) && IsText(g)
    ensures ParseFrame(f.Kind(), Encode(f) + Encode(g) + tail) == Consumed(Success(Some(f)), Encode(g) + tail)
    ensures ParseFrame(g.Kind(), Encode(g) + tail) == Consumed(Success(Some(g)), tail)
  {
    assert Encode(f) + Encode(g) + tail == Encode(f) + (Encode(g) + tail);
    ParseFrameOfEncode(f, Encode(g) + tail);
    ParseFrameOfEncode(g, tail);
  }

  /** The request `Set "ABC" = "1234"` without TTL, as it appears on the wire. */
  const SET_ABC_1234: seq<U8> :=
    [1, 0, 3] + seq(16, _ => 0) + [0, 0, 0, 0x1E] + [0x41, 0x42, 0x43] + [0x31, 0x32, 0x33, 0x34]

  /** The frame the vector encodes. */
  const SET_ABC_1234_FRAME: Frame :=
    Frame.Frame(RequestKind(RequestHeader(Set, 3, Ttl(0), 30)), Some([0x41, 0x42, 0x43]), Some([0x31, 0x32, 0x33, 0x34]))

  lemma SetVectorEncodes()
    ensures Encode(SET_ABC_1234_FRAME) == SET_ABC_1234
  {
    Pow256Widths();
    assert U128ToBytes(0) == seq(16, _ => 0) by {
      FromBigEndianZeros(seq(16, _ => 0));
      ToFromBigEndian(seq(16, _ => 0));
    }
    assert U32ToBytes(30) == [0, 0, 0, 0x1E] by {
      var s: seq<U8> := [0, 0, 0, 0x1E];
      FromBigEndianZeros(s[..3]);
      assert BytesToU32(s) == 30;
    }
  }

  lemma SetVectorParses()
    ensures ParseFrame(RequestFrameKind, SET_ABC_1234) == Consumed(Success(Some(SET_ABC_1234_FRAME)), [])
  {
    SetVectorEncodes();
    AsciiValid([0x41, 0x42, 0x43]);
    AsciiValid([0x31, 0x32, 0x33, 0x34]);
    ParseFrameOfEncode(SET_ABC_1234_FRAME, []);
    assert SET_ABC_1234 + [] == SET_ABC_1234;
  }

  /** What `read_buf` appends, read after read, before the peer closes; an empty
      read is the end of the stream, as a zero return of `read_buf` is. */
  function Flatten(chunks: seq<seq<U8>>): seq<U8> {
    if |chunks| == 0 then [] else chunks[0] + Flatten(chunks[1..])
  }

  /** `read_frame`: parse what is buffered; if no frame is there, read more; at the end
      of the stream an empty buffer means a clean close and anything else a reset. */
  function ReadFrame(kind: FrameKind, buffer: seq<U8>, chunks: seq<seq<U8>>): (r: Consumed<Option<Frame>>)
    decreases |chunks|
    ensures r.result == Success(None) ==> r.rest == []
    ensures r.result == Failure(Connection(ResetByPeer)) ==> |r.rest| > 0
    ensures r.result.Success? && r.result.value.Some? ==> r.result.value.value.Kind() == kind
    ensures ParseFrame(kind, buffer).result.Failure? || ParseFrame(kind, buffer).result.value.Some? ==>
              r == ParseFrame(kind, buffer)
    ensures ParseFrame(kind, buffer).result == Success(None) && (|chunks| == 0 || |chunks[0]| == 0) ==>
              r.rest == buffer && (r.result.Success? <==> |buffer| == 0)
  {
    var p := ParseFrame(kind, buffer);
    if p.result.Failure? || p.result.value.Some? then p
    else if |chunks| == 0 || |chunks[0]| == 0 then EndOfStream(buffer)
    else ReadFrame(kind, buffer + chunks[0], chunks[1..])
  }

  /** The end-of-stream rule of `read_frame`. */
  function EndOfStream(buffer: seq<U8>): (r: Consumed<Option<Frame>>)
    ensures r.rest == buffer
    ensures r.result.Success? <==> |buffer| == 0
    ensures r.result.Success? ==> r.result.value.None?
    ensures r.result.Failure? ==> r.result.error == Connection(ResetByPeer)
  {
    if |buffer| == 0 then Consumed(Success(None), buffer)
    else Consumed(Failure(Connection(ResetByPeer)), buffer)
  }

  /** However the bytes of a frame are split across chunks, `read_frame` delivers it. */
  lemma {:induction false} ReadFrameDelivers(f: Frame, buffer: seq<U8>, chunks: seq<seq<U8>>)
    requires Consistent(f) && IsText(f)
    requires forall i | 0 <= i < |chunks| :: |chunks[i]| > 0
    requires Encode(f) <= buffer + Flatten(chunks)
    ensures ReadFrame(f.Kind(), buffer, chunks).result == Success(Some(f))
    decreases |chunks|
  {
    var e := Encode(f);
    if |buffer| >= |e| {
      assert buffer == e + buffer[|e|..];
      ParseFrameOfEncode(f, buffer[|e|..]);
    } else {
      assert buffer == e[..|buffer|];
      ParseFrameOfProperPrefix(f, |buffer|);
      assert |chunks| > 0;
      assert buffer + Flatten(chunks) == (buffer + chunks[0]) + Flatten(chunks[1..]);
      ReadFrameDelivers(f, buffer + chunks[0], chunks[1..]);
    }
  }
}

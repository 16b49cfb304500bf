/** The pure parts of the older tree's connection (src/connection.rs): the 7-byte
    layout written by `write_frame`, the `check`/`parse`/advance step of
    `parse_frame`, and the read loop of `read_frame` with the socket replaced by
    the chunks it delivers. */
module LegacyConnection {
  import opened Wrappers
  import opened BigEndian
  import opened Utf8
  import opened CachedError
  import opened CachedPrimitives
  import opened LegacyFrame
  import M = CachedFrameMod

  /** The bytes `write_frame` writes, in order: opcode, status or blank, key length,
      the total length as a big-endian u32, the key, the value. */
  function Encode(f: Frame): (r: seq<U8>)
    ensures |r| == HEADER_SIZE_BYTES + |M.PartBytes(f.key)| + |M.PartBytes(f.value)|
    ensures && r[0] == OpCodeToByte(f.header.OpCodeOf())
            && r[1] == f.header.StatusOrBlank()
            && r[2] == f.header.KeyLength()
            && FromBigEndian(r[3..7]) == f.TotalFrameLength()
    ensures r[HEADER_SIZE_BYTES..] == M.PartBytes(f.key) + M.PartBytes(f.value)
  {
    var fixed := [OpCodeToByte(f.header.OpCodeOf()), f.header.StatusOrBlank(), f.header.KeyLength()];
    var total := U32ToBytes(f.TotalFrameLength());
    var r := fixed + total + M.PartBytes(f.key) + M.PartBytes(f.value);
    assert r[3..7] == total;
    assert r[HEADER_SIZE_BYTES..] == M.PartBytes(f.key) + M.PartBytes(f.value);
    r
  }

  /** A frame whose header agrees with its parts, as `RequestHeader::parse` and
      `ResponseHeader::parse` make them, and whose parts are present only when non-empty. */
  predicate Consistent(f: Frame) {
    && (f.key.Some? ==> |f.key.value| > 0)
    && (f.value.Some? ==> |f.value.value| > 0)
    && f.header.KeyLength() == |M.PartBytes(f.key)|
    && f.TotalFrameLength() == HEADER_SIZE_BYTES + |M.PartBytes(f.key)| + |M.PartBytes(f.value)|
  }

  /** The key and value are text, as Rust strings always are. */
  predicate IsText(f: Frame) {
    ValidUtf8(M.PartBytes(f.key)) && ValidUtf8(M.PartBytes(f.value))
  }

  /** Headers built by the `parse` constructors make frames whose encoding is exactly
      their total frame length long. */
  lemma EncodedLengthOfParsedHeaders(op: OpCode, status: StatusCode, key: Option<seq<U8>>, value: Option<seq<U8>>)
    requires RequestHeaderParse(op, key, value).Success?
    ensures var f := Frame.Frame(RequestKind(RequestHeaderParse(op, key, value).value), key, value);
            |Encode(f)| == f.TotalFrameLength()
    ensures var f := Frame.Frame(ResponseKind(ResponseHeaderParse(op, status, key, value).value), key, value);
            |Encode(f)| == f.TotalFrameLength()
  {
  }

  /** `Connection::parse_frame`: `check` the buffer; on success parse from its start and
      advance it by the checked length; on `Incomplete` report nothing; every other
      error, from `check` or from `parse`, propagates with the buffer left as it was. */
  function ParseFrame(kind: M.FrameKind, buffer: seq<U8>): (r: M.Consumed<Option<Frame>>)
    ensures r.result == Success(None) <==> Check(kind, buffer) == Failure(Error.Frame(Incomplete))
    ensures r.result.Failure? ==> r.rest == buffer
    ensures r.result == Success(None) ==> r.rest == buffer
    ensures r.result.Success? && r.result.value.Some? ==>
              && Check(kind, buffer).Success?
              && r.result.value.value.Kind() == kind
              && r.rest == buffer[Check(kind, buffer).value..]
    ensures Check(kind, buffer).Failure? && Check(kind, buffer) != Failure(Error.Frame(Incomplete)) ==>
              r.result == Check(kind, buffer).PropagateFailure()
    ensures Check(kind, buffer).Success? ==>
              && (r.result.Success? <==> HEADER_SIZE_BYTES + buffer[2] <= Check(kind, buffer).value)
              && (r.result.Success? ==> r.result.value == Some(FrameParse(kind, buffer).result.value))
              && (r.result.Failure? ==> r.result.error == Panic(SubtractOverflow))
  {
    match Check(kind, buffer)
    case Success(frameLength) =>
      CheckedParseConsumesCheckedLength(kind, buffer);
      var p := FrameParse(kind, buffer);
      (match p.result
       case Success(frame) => M.Consumed(Success(Some(frame)), buffer[frameLength..])
       case Failure(e) => M.Consumed(Failure(e), buffer))
    case Failure(e) =>
      if e == Error.Frame(Incomplete) then M.Consumed(Success(None), buffer)
      else M.Consumed(Failure(e), buffer)
  }

  /** An invalid opcode is reported as soon as the seven header bytes are buffered. */
  lemma BadOpCodeFailsEarly(kind: M.FrameKind, buffer: seq<U8>)
    requires |buffer| >= HEADER_SIZE_BYTES && !(1 <= buffer[0] <= 4)
    ensures ParseFrame(kind, buffer) == M.Consumed(Failure(Error.Frame(InvalidOpCode)), buffer)
  {
    assert buffer[..HEADER_SIZE_BYTES][0] == buffer[0];
  }

  /** The header bytes of an encoding decode to the header that was encoded. */
  lemma DecodeEncodedHeader(f: Frame, tail: seq<U8>)
    ensures DecodeHeader(f.Kind(), (Encode(f) + tail)[..HEADER_SIZE_BYTES]) == Success(f.header)
  {
    var h := (Encode(f) + tail)[..HEADER_SIZE_BYTES];
    var e := Encode(f);
    assert h[3..7] == e[3..7];
    CodesRoundTrip(StatusCode.Ok, f.header.OpCodeOf());
    if f.header.ResponseKind? {
      CodesRoundTrip(f.header.response.status, f.header.OpCodeOf());
      var d := DecodeResponseHeader(h);
      CodesInjective(d.value.status, f.header.response.status, d.value.opCode, f.header.OpCodeOf());
    } else {
      var d := DecodeRequestHeader(h);
      CodesInjective(StatusCode.Ok, StatusCode.Ok, d.value.opCode, f.header.OpCodeOf());
    }
  }

  /** `check` accepts an encoded consistent frame, whatever follows it, with its length. */
  lemma CheckOfEncode(f: Frame, tail: seq<U8>)
    requires Consistent(f)
    ensures Check(f.Kind(), Encode(f) + tail) == Success(f.TotalFrameLength())
  {
    var b := Encode(f) + tail;
    DecodeEncodedHeader(f, tail);
    assert b[3..7] == Encode(f)[3..7];
  }

  /** `parse` inverts `write_frame`: it gives back the frame and consumes exactly its bytes. */
  lemma ParseOfEncode(f: Frame, tail: seq<U8>)
    requires Consistent(f) && IsText(f)
    ensures FrameParse(f.Kind(), Encode(f) + tail) == M.Consumed(Success(f), tail)
  {
    var e := Encode(f);
    var b := e + tail;
    DecodeEncodedHeader(f, tail);
    var key := M.PartBytes(f.key);
    var value := M.PartBytes(f.value);
    var keyEnd := HEADER_SIZE_BYTES + |key|;
    var total := keyEnd + |value|;
    assert b[2] == |key| && b[3..7] == e[3..7];
    assert b[HEADER_SIZE_BYTES..keyEnd] == key && b[keyEnd..total] == value && b[total..] == tail;
    LossyOfValid(key);
    LossyOfValid(value);
  }

  /** `parse_frame` on an encoded frame followed by anything returns that frame and
      leaves exactly what followed it. */
  lemma ParseFrameOfEncode(f: Frame, tail: seq<U8>)
    requires Consistent(f) && IsText(f)
    ensures ParseFrame(f.Kind(), Encode(f) + tail) == M.Consumed(Success(Some(f)), tail)
  {
    var b := Encode(f) + tail;
    CheckOfEncode(f, tail);
    ParseOfEncode(f, tail);
    assert b[|Encode(f)|..] == tail;
  }

  /** Every proper prefix of an encoded frame is `Incomplete`: nothing is reported and
      nothing is consumed. */
  lemma ParseFrameOfProperPrefix(f: Frame, n: nat)
    requires Consistent(f) && n < |Encode(f)|
    ensures ParseFrame(f.Kind(), Encode(f)[..n]) == M.Consumed(Success(None), Encode(f)[..n])
  {
    var e := Encode(f);
    var p := e[..n];
    if n >= HEADER_SIZE_BYTES {
      assert p[..HEADER_SIZE_BYTES] == e[..HEADER_SIZE_BYTES] && p[3..7] == e[3..7];
      assert e + [] == e;
      DecodeEncodedHeader(f, []);
    }
    assert Check(f.Kind(), p) == Failure(Error.Frame(Incomplete));
  }

  /** Back-to-back frames come out one at a time, in order. */
  lemma PipelinedFrames(f: Frame, g: Frame, tail: seq<U8>)
    requires Consistent(f) && IsText(f) && Consistent(g) && IsText(g)
    ensures ParseFrame(f.Kind(), Encode(f) + Encode(g) + tail) == M.Consumed(Success(Some(f)), Encode(g) + tail)
    ensures ParseFrame(g.Kind(), Encode(g) + tail) == M.Consumed(Success(Some(g)), tail)
  {
    var rest := Encode(g) + tail;
    assert ParseFrame(f.Kind(), Encode(f) + rest) == M.Consumed(Success(Some(f)), rest) by {
      ParseFrameOfEncode(f, rest);
    }
    assert Encode(f) + Encode(g) + tail == Encode(f) + rest;
    ParseFrameOfEncode(g, tail);
  }

  /** What `read_buf` appends, read after read, before the peer closes. */
  function Flatten(chunks: seq<seq<U8>>): seq<U8> {
    if |chunks| == 0 then [] else chunks[0] + Flatten(chunks[1..])
  }

  /** The end-of-stream rule of `read_frame`: a clean close only with an empty buffer. */
  function EndOfStream(buffer: seq<U8>): (r: M.Consumed<Option<Frame>>)
    ensures r.rest == buffer
    ensures r.result.Success? <==> |buffer| == 0
    ensures r.result.Success? ==> r.result.value.None?
    ensures r.result.Failure? ==> r.result.error == Connection(ResetByPeer)
  {
    if |buffer| == 0 then M.Consumed(Success(None), buffer)
    else M.Consumed(Failure(Connection(ResetByPeer)), buffer)
  }

  /** `read_frame`: parse what is buffered; if no frame is there, read more; an empty
      read (or no further read) is the end of the stream. */
  function ReadFrame(kind: M.FrameKind, buffer: seq<U8>, chunks: seq<seq<U8>>): (r: M.Consumed<Option<Frame>>)
    decreases |chunks|
    ensures r.result == Success(None) ==> r.rest == []
    ensures r.result == Failure(Connection(ResetByPeer)) ==> |r.rest| > 0
    ensures r.result.Success? && r.result.value.Some? ==> r.result.value.value.Kind() == kind
    ensures ParseFrame(kind, buffer).result.Failure? || ParseFrame(kind, buffer).result.value.Some? ==>
              r == ParseFrame(kind, buffer)
    ensures ParseFrame(kind, buffer).result == Success(None) && (|chunks| == 0 || |chunks[0]| == 0) ==>
              r.rest == buffer && (r.result.Success? <==> |buffer| == 0)
  {
    var p := ParseFrame(kind, buffer);
    if p.result.Failure? || p.result.value.Some? then p
    else if |chunks| == 0 || |chunks[0]| == 0 then EndOfStream(buffer)
    else ReadFrame(kind, buffer + chunks[0], chunks[1..])
  }

  /** However the bytes of a frame are split across chunks, `read_frame` delivers it. */
  lemma {:induction false} ReadFrameDelivers(f: Frame, buffer: seq<U8>, chunks: seq<seq<U8>>)
    requires Consistent(f) && IsText(f)
    requires forall i | 0 <= i < |chunks| :: |chunks[i]| > 0
    requires Encode(f) <= buffer + Flatten(chunks)
    ensures ReadFrame(f.Kind(), buffer, chunks).result == Success(Some(f))
    decreases |chunks|
  {
    var e := Encode(f);
    if |buffer| >= |e| {
      assert buffer == e + buffer[|e|..];
      ParseFrameOfEncode(f, buffer[|e|..]);
    } else {
      assert buffer == e[..|buffer|];
      ParseFrameOfProperPrefix(f, |buffer|);
      assert |chunks| > 0;
      assert buffer + Flatten(chunks) == (buffer + chunks[0]) + Flatten(chunks[1..]);
      ReadFrameDelivers(f, buffer + chunks[0], chunks[1..]);
    }
  }
}

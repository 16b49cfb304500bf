/** Requests of the older tree and their conversions to and from request frames of
    the 7-byte codec (src/request.rs). Keys and values are unvalidated strings, so
    building a frame can fail on their lengths; there is no TTL. */
module LegacyRequest {
  import opened Wrappers
  import opened BigEndian
  import opened Utf8
  import opened CachedError
  import opened CachedDomain
  import opened CachedPrimitives
  import opened LegacyFrame
  import M = CachedFrameMod
  import CachedRequest
  import LegacyConnection

  datatype Request =
    | Get(key: seq<U8>)
    | Set(key: seq<U8>, value: seq<U8>)
    | Delete(key: seq<U8>)
    | Flush

  /** The opcode that goes with each request. */
  function OpCodeOf(req: Request): OpCode {
    match req
    case Get(_) => OpCode.Get
    case Set(_, _) => OpCode.Set
    case Delete(_) => OpCode.Delete
    case Flush => OpCode.Flush
  }

  /** `RequestHeader::parse` followed by `RequestFrame::new`. */
  function NewRequestFrame(opCode: OpCode, key: Option<seq<U8>>, value: Option<seq<U8>>): (r: Result<RequestFrame, Error>)
    ensures r.Success? <==> RequestHeaderParse(opCode, key, value).Success?
    ensures r.Failure? ==> r.error == RequestHeaderParse(opCode, key, value).error
    ensures r.Success? ==> r.value.header.request.opCode == opCode && r.value.key == key && r.value.value == value
  {
    var header :- RequestHeaderParse(opCode, key, value);
    Success(Frame.Frame(RequestKind(header), key, value))
  }

  /** `TryFrom<Request> for RequestFrame`: fails when the key exceeds 255 bytes (checked
      first) or a `Set` value exceeds 1 MiB. */
  function RequestToFrame(req: Request): (r: Result<RequestFrame, Error>)
    ensures r.Success? <==> (!req.Flush? ==> |req.key| <= MAX_KEY_LENGTH) && (req.Set? ==> |req.value| <= MAX_VALUE_LENGTH)
    ensures !req.Flush? && |req.key| > MAX_KEY_LENGTH ==> r == Failure(Error.Frame(KeyTooLong))
    ensures req.Set? && |req.key| <= MAX_KEY_LENGTH && |req.value| > MAX_VALUE_LENGTH ==> r == Failure(Error.Frame(ValueTooLong))
    ensures r.Success? ==>
              && r.value.header.request.opCode == OpCodeOf(req)
              && CachedRequest.WellShaped(OpCodeOf(req), r.value.key.Some?, r.value.value.Some?)
              && (!req.Flush? ==> r.value.key == Some(req.key))
              && (req.Set? ==> r.value.value == Some(req.value))
              && r.value.header.request.blank == 0
              && r.value.header.KeyLength() == |M.PartBytes(r.value.key)|
              && r.value.TotalFrameLength() == HEADER_SIZE_BYTES + |M.PartBytes(r.value.key)| + |M.PartBytes(r.value.value)|
  {
    match req
    case Get(key) => NewRequestFrame(OpCode.Get, Some(key), None)
    case Set(key, value) => NewRequestFrame(OpCode.Set, Some(key), Some(value))
    case Delete(key) => NewRequestFrame(OpCode.Delete, Some(key), None)
    case Flush => NewRequestFrame(OpCode.Flush, None, None)
  }

  /** `TryFrom<RequestFrame> for Request`: `Set` needs key then value; `Get`/`Delete`
      refuse a value before requiring a key; `Flush` refuses a key, then a value. */
  function FrameToRequest(frame: RequestFrame): (r: Result<Request, Error>)
    ensures r.Success? <==> CachedRequest.WellShaped(frame.header.request.opCode, frame.key.Some?, frame.value.Some?)
    ensures r.Success? ==> && OpCodeOf(r.value) == frame.header.request.opCode
                           && (!r.value.Flush? ==> frame.key == Some(r.value.key))
                           && (r.value.Set? ==> frame.value == Some(r.value.value))
    ensures r.Failure? ==> r.error == Parse(match frame.header.request.opCode
                                             case Set => if frame.key.None? then KeyMissing else ValueMissing
                                             case Get => if frame.value.Some? then UnexpectedValue else KeyMissing
                                             case Delete => if frame.value.Some? then UnexpectedValue else KeyMissing
                                             case Flush => if frame.key.Some? then UnexpectedKey else UnexpectedValue)
  {
    match frame.header.request.opCode
    case Set =>
      if frame.key.None? then Failure(Parse(KeyMissing))
      else if frame.value.None? then Failure(Parse(ValueMissing))
      else Success(Request.Set(frame.key.value, frame.value.value))
    case Get =>
      if frame.value.Some? then Failure(Parse(UnexpectedValue))
      else if frame.key.None? then Failure(Parse(KeyMissing))
      else Success(Request.Get(frame.key.value))
    case Delete =>
      if frame.value.Some? then Failure(Parse(UnexpectedValue))
      else if frame.key.None? then Failure(Parse(KeyMissing))
      else Success(Request.Delete(frame.key.value))
    case Flush =>
      if frame.key.Some? then Failure(Parse(UnexpectedKey))
      else if frame.value.Some? then Failure(Parse(UnexpectedValue))
      else Success(Request.Flush)
  }

  /** Within the length limits, a request survives the trip through a frame. */
  lemma RequestRoundTrip(req: Request)
    requires RequestToFrame(req).Success?
    ensures FrameToRequest(RequestToFrame(req).value) == Success(req)
  {
  }

  /** Conversely, a frame built from its opcode and parts that converts to a request is
      rebuilt exactly by converting that request back. */
  lemma FrameRoundTrip(opCode: OpCode, key: Option<seq<U8>>, value: Option<seq<U8>>)
    requires NewRequestFrame(opCode, key, value).Success?
    requires FrameToRequest(NewRequestFrame(opCode, key, value).value).Success?
    ensures var frame := NewRequestFrame(opCode, key, value).value;
            RequestToFrame(FrameToRequest(frame).value) == Success(frame)
  {
  }

  /** The invalid frames of the conversion tests, all refused. */
  lemma InvalidFramesOfConversionTests(k: seq<U8>, v: seq<U8>)
    requires |k| <= MAX_KEY_LENGTH && |v| <= MAX_VALUE_LENGTH
    ensures FrameToRequest(NewRequestFrame(OpCode.Get, None, None).value) == Failure(Parse(KeyMissing))
    ensures FrameToRequest(NewRequestFrame(OpCode.Get, None, Some(v)).value) == Failure(Parse(UnexpectedValue))
    ensures FrameToRequest(NewRequestFrame(OpCode.Get, Some(k), Some(v)).value) == Failure(Parse(UnexpectedValue))
    ensures FrameToRequest(NewRequestFrame(OpCode.Set, Some(k), None).value) == Failure(Parse(ValueMissing))
    ensures FrameToRequest(NewRequestFrame(OpCode.Set, None, Some(v)).value) == Failure(Parse(KeyMissing))
    ensures FrameToRequest(NewRequestFrame(OpCode.Set, None, None).value) == Failure(Parse(KeyMissing))
    ensures FrameToRequest(NewRequestFrame(OpCode.Delete, None, None).value) == Failure(Parse(KeyMissing))
    ensures FrameToRequest(NewRequestFrame(OpCode.Delete, None, Some(v)).value) == Failure(Parse(UnexpectedValue))
    ensures FrameToRequest(NewRequestFrame(OpCode.Flush, Some(k), Some(v)).value) == Failure(Parse(UnexpectedKey))
    ensures FrameToRequest(NewRequestFrame(OpCode.Flush, Some(k), None).value) == Failure(Parse(UnexpectedKey))
    ensures FrameToRequest(NewRequestFrame(OpCode.Flush, None, Some(v)).value) == Failure(Parse(UnexpectedValue))
  {
  }

  /** The request a parsed frame converts to, when the frame is a request frame. */
  function ParsedRequest(p: M.Consumed<Option<Frame>>): Result<Request, Error>
    requires p.result.Success? && p.result.value.Some? && p.result.value.value.header.RequestKind?
  {
    FrameToRequest(p.result.value.value)
  }

  /** End to end: a request with a non-empty text key (and non-empty text value, for
      `Set`) within the limits is written, parsed back off the wire and converted to the
      same request, leaving what followed it in the buffer. */
  lemma {:induction false} WireRoundTrip(req: Request, tail: seq<U8>)
    requires RequestToFrame(req).Success?
    requires !req.Flush? ==> |req.key| > 0 && ValidUtf8(req.key)
    requires req.Set? ==> |req.value| > 0 && ValidUtf8(req.value)
    ensures var frame := RequestToFrame(req).value;
            var p := LegacyConnection.ParseFrame(M.RequestFrameKind, LegacyConnection.Encode(frame) + tail);
            && p == M.Consumed(Success(Some(frame)), tail)
            && ParsedRequest(p) == Success(req)
  {
    var frame := RequestToFrame(req).value;
    LegacyConnection.ParseFrameOfEncode(frame, tail);
  }

  /** A `Get` with an empty key does not survive the wire: its key length is 0, so the
      parsed frame has no key and the conversion reports it missing. */
  lemma EmptyKeyLostOnTheWire()
    ensures var frame := RequestToFrame(Request.Get([])).value;
            var p := LegacyConnection.ParseFrame(M.RequestFrameKind, LegacyConnection.Encode(frame));
            && p.result == Success(Some(frame.(key := None)))
            && ParsedRequest(p) == Failure(Parse(KeyMissing))
  {
    var frame := RequestToFrame(Request.Get([])).value;
    var g := frame.(key := None);
    assert LegacyConnection.Encode(frame) == LegacyConnection.Encode(g);
    LegacyConnection.ParseFrameOfEncode(g, []);
    assert LegacyConnection.Encode(g) + [] == LegacyConnection.Encode(g);
  }
}

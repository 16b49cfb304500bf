/** Requests of the newer crate and their conversions to and from typed request
    frames (cached/src/request.rs). */
module CachedRequest {
  import opened Wrappers
  import opened BigEndian
  import opened CachedError
  import opened CachedDomain
  import opened CachedPrimitives
  import opened CachedFrameHeader
  import opened CachedFrame

  datatype Request =
    | Get(key: Key)
    | Set(key: Key, value: Value, ttl: Option<U128>)
    | Delete(key: Key)
    | Flush

  /** The opcode that goes with each request. */
  function OpCodeOf(req: Request): OpCode {
    match req
    case Get(_) => OpCode.Get
    case Set(_, _, _) => OpCode.Set
    case Delete(_) => OpCode.Delete
    case Flush => OpCode.Flush
  }

  /** The key and value a frame of the given opcode must carry, and must not carry. */
  predicate WellShaped(op: OpCode, hasKey: bool, hasValue: bool) {
    match op
    case Set => hasKey && hasValue
    case Get => hasKey && !hasValue
    case Delete => hasKey && !hasValue
    case Flush => !hasKey && !hasValue
  }

  /** `TryFrom<Request> for RequestFrame`: never fails; only `Set` carries a value or a TTL. */
  function RequestToFrame(req: Request): (r: Result<RequestFrame, Error>)
    ensures r.Success?
    ensures r.value.header.opCode == OpCodeOf(req)
    ensures WellShaped(OpCodeOf(req), r.value.key.Some?, r.value.value.Some?)
    ensures !req.Flush? ==> r.value.key == Some(req.key)
    ensures req.Set? ==> r.value.value == Some(req.value) && r.value.header.ttl == TtlParse(req.ttl)
    ensures !req.Set? ==> IntoTtl(r.value.header.ttl) == None
  {
    var (opCode, ttl, key, value) :=
      match req
      case Get(key) => (OpCode.Get, None, Some(key), None)
      case Set(key, value, ttl) => (OpCode.Set, ttl, Some(key), Some(value))
      case Delete(key) => (OpCode.Delete, None, Some(key), None)
      case Flush => (OpCode.Flush, None, None, None);
    NewRequestFrame(opCode, TtlParse(ttl), key, value)
  }

  /** `TryFrom<RequestFrame> for Request`. */
  function FrameToRequest(frame: RequestFrame): (r: Result<Request, Error>)
    ensures r.Success? <==> WellShaped(frame.header.opCode, frame.key.Some?, frame.value.Some?)
    ensures r.Success? ==> && OpCodeOf(r.value) == frame.header.opCode
                           && (!r.value.Flush? ==> frame.key == Some(r.value.key))
                           && (r.value.Set? ==> frame.value == Some(r.value.value)
                                                && r.value.ttl == IntoTtl(frame.header.ttl))
    ensures r.Failure? ==> r.error == Parse(match frame.header.opCode
                                             case Set => if frame.key.None? then KeyMissing else ValueMissing
                                             case Get => if frame.value.Some? then UnexpectedValue else KeyMissing
                                             case Delete => if frame.value.Some? then UnexpectedValue else KeyMissing
                                             case Flush => if frame.key.Some? then UnexpectedKey else UnexpectedValue)
  {
    match frame.header.opCode
    case Set =>
      if frame.key.None? then Failure(Parse(KeyMissing))
      else if frame.value.None? then Failure(Parse(ValueMissing))
      else Success(Request.Set(frame.key.value, frame.value.value, IntoTtl(frame.header.ttl)))
    case Get =>
      if frame.value.Some? then Failure(Parse(UnexpectedValue))
      else if frame.key.None? then Failure(Parse(KeyMissing))
      else Success(Request.Get(frame.key.value))
    case Delete =>
      if frame.value.Some? then Failure(Parse(UnexpectedValue))
      else if frame.key.None? then Failure(Parse(KeyMissing))
      else Success(Request.Delete(frame.key.value))
    case Flush =>
      if frame.key.Some? then Failure(Parse(UnexpectedKey))
      else if frame.value.Some? then Failure(Parse(UnexpectedValue))
      else Success(Request.Flush)
  }

  /** A request survives the trip through a frame, except that a TTL of `Some(0)`
      comes back as `None`. */
  lemma RequestRoundTrip(req: Request)
    ensures FrameToRequest(RequestToFrame(req).value)
            == Success(if req.Set? && req.ttl == Some(0) then req.(ttl := None) else req)
  {
    IntoTtlOfParse(if req.Set? then req.ttl else None);
  }

  /** Conversely, a frame built by `RequestFrame::new` that converts to a request is
      rebuilt exactly by converting that request back, when its TTL is one the
      request can carry: any TTL for `Set`, none otherwise. */
  lemma FrameRoundTrip(opCode: OpCode, ttl: Ttl, key: Option<Key>, value: Option<Value>)
    requires opCode == OpCode.Set || ttl.inner == NO_TTL_INDICATOR
    requires FrameToRequest(NewRequestFrame(opCode, ttl, key, value).value).Success?
    ensures var frame := NewRequestFrame(opCode, ttl, key, value).value;
            RequestToFrame(FrameToRequest(frame).value) == Success(frame)
  {
    var frame := NewRequestFrame(opCode, ttl, key, value).value;
    var req := FrameToRequest(frame).value;
    if req.Set? {
      assert TtlParse(IntoTtl(ttl)) == ttl;
    }
  }

  /** The invalid frames of the conversion tests, all refused. */
  lemma InvalidFramesOfConversionTests(k: Key, v: Value, ttl: Ttl)
    ensures FrameToRequest(NewRequestFrame(OpCode.Get, ttl, None, None).value) == Failure(Parse(KeyMissing))
    ensures FrameToRequest(NewRequestFrame(OpCode.Get, ttl, None, Some(v)).value) == Failure(Parse(UnexpectedValue))
    ensures FrameToRequest(NewRequestFrame(OpCode.Get, ttl, Some(k), Some(v)).value) == Failure(Parse(UnexpectedValue))
    ensures FrameToRequest(NewRequestFrame(OpCode.Set, ttl, Some(k), None).value) == Failure(Parse(ValueMissing))
    ensures FrameToRequest(NewRequestFrame(OpCode.Set, ttl, None, Some(v)).value) == Failure(Parse(KeyMissing))
    ensures FrameToRequest(NewRequestFrame(OpCode.Set, ttl, None, None).value) == Failure(Parse(KeyMissing))
    ensures FrameToRequest(NewRequestFrame(OpCode.Delete, ttl, None, None).value) == Failure(Parse(KeyMissing))
    ensures FrameToRequest(NewRequestFrame(OpCode.Delete, ttl, None, Some(v)).value) == Failure(Parse(UnexpectedValue))
    ensures FrameToRequest(NewRequestFrame(OpCode.Flush, ttl, Some(k), Some(v)).value) == Failure(Parse(UnexpectedKey))
    ensures FrameToRequest(NewRequestFrame(OpCode.Flush, ttl, Some(k), None).value) == Failure(Parse(UnexpectedKey))
    ensures FrameToRequest(NewRequestFrame(OpCode.Flush, ttl, None, Some(v)).value) == Failure(Parse(UnexpectedValue))
  {
  }
}

/** Responses of the newer crate and their conversions to and from typed response
    frames (cached/src/response.rs). */
module CachedResponse {
  import opened Wrappers
  import opened BigEndian
  import opened CachedError
  import opened CachedDomain
  import opened CachedPrimitives
  import opened CachedFrameHeader
  import opened CachedFrame

  datatype ResponseBodyGet = ResponseBodyGet(key: Key, value: Value, ttl: Option<U128>)

  datatype ResponseBody = Get(found: Option<ResponseBodyGet>) | Set | Delete | Flush

  datatype Response = Response(status: StatusCode, body: ResponseBody)

  /** The opcode that goes with each body. */
  function OpCodeOf(body: ResponseBody): OpCode {
    match body
    case Get(_) => OpCode.Get
    case Set => OpCode.Set
    case Delete => OpCode.Delete
    case Flush => OpCode.Flush
  }

  /** `TryFrom<Response> for ResponseFrame`: only a found `Get` carries key, value and TTL. */
  function ResponseToFrame(resp: Response): (r: Result<ResponseFrame, Error>)
    ensures r.Success?
    ensures r.value.header.opCode == OpCodeOf(resp.body) && r.value.header.status == resp.status
    ensures r.value.key.Some? == r.value.value.Some? == (resp.body.Get? && resp.body.found.Some?)
    ensures resp.body.Get? && resp.body.found.Some? ==>
              && r.value.key == Some(resp.body.found.value.key)
              && r.value.value == Some(resp.body.found.value.value)
              && r.value.header.ttl == TtlParse(resp.body.found.value.ttl)
    ensures !(resp.body.Get? && resp.body.found.Some?) ==> r.value.header.ttl.inner == NO_TTL_INDICATOR
  {
    var (opCode, key, value, ttl) :=
      match resp.body
      case Get(found) =>
        (OpCode.Get,
         if found.Some? then Some(found.value.key) else None,
         if found.Some? then Some(found.value.value) else None,
         if found.Some? then found.value.ttl else None)
      case Set => (OpCode.Set, None, None, None)
      case Delete => (OpCode.Delete, None, None, None)
      case Flush => (OpCode.Flush, None, None, None);
    NewResponseFrame(opCode, resp.status, TtlParse(ttl), key, value)
  }

  /** `ensure_key_and_value_are_none` (the same in both trees): a key is reported before
      a value. */
  function EnsureKeyAndValueAreNone(key: Option<seq<U8>>, value: Option<seq<U8>>): (r: Result<(), Error>)
    ensures r.Success? <==> key.None? && value.None?
    ensures key.Some? ==> r == Failure(Parse(UnexpectedKey))
    ensures key.None? && value.Some? ==> r == Failure(Parse(UnexpectedValue))
  {
    if key.Some? then Failure(Parse(UnexpectedKey))
    else if value.Some? then Failure(Parse(UnexpectedValue))
    else Success(())
  }

  /** What is missing from a `Get` frame that lacks its key, its value or both. */
  function GetPartsMissing(hasKey: bool, hasValue: bool): ParseError
    requires !(hasKey && hasValue)
  {
    if hasKey then ValueMissing else if hasValue then KeyMissing else KeyAndValueMissing
  }

  /** `TryFrom<ResponseFrame> for Response`. A `Get` frame without both parts is an
      error only under status `Ok`; under any other status it reads as "not found". */
  function FrameToResponse(frame: ResponseFrame): (r: Result<Response, Error>)
    ensures r.Success? <==>
              if frame.header.opCode == OpCode.Get
              then (frame.key.Some? && frame.value.Some?) || frame.header.status != StatusCode.Ok
              else frame.key.None? && frame.value.None?
    ensures r.Success? ==> && r.value.status == frame.header.status
                           && OpCodeOf(r.value.body) == frame.header.opCode
    ensures r.Success? && r.value.body.Get? ==>
              if frame.key.Some? && frame.value.Some?
              then r.value.body.found == Some(ResponseBodyGet(frame.key.value, frame.value.value, IntoTtl(frame.header.ttl)))
              else r.value.body.found == None
    ensures r.Failure? && frame.header.opCode == OpCode.Get ==>
              r.error == Parse(GetPartsMissing(frame.key.Some?, frame.value.Some?))
    ensures r.Failure? && frame.header.opCode != OpCode.Get ==>
              r == Failure(EnsureKeyAndValueAreNone(frame.key, frame.value).error)
  {
    var body :-
      match frame.header.opCode
      case Get =>
        if frame.key.Some? && frame.value.Some? then
          Success(ResponseBody.Get(Some(ResponseBodyGet(frame.key.value, frame.value.value, IntoTtl(frame.header.ttl)))))
        else if frame.header.status == StatusCode.Ok then
          Failure(Parse(GetPartsMissing(frame.key.Some?, frame.value.Some?)))
        else Success(ResponseBody.Get(None))
      case Set =>
        var _ :- EnsureKeyAndValueAreNone(frame.key, frame.value);
        Success(ResponseBody.Set)
      case Delete =>
        var _ :- EnsureKeyAndValueAreNone(frame.key, frame.value);
        Success(ResponseBody.Delete)
      case Flush =>
        var _ :- EnsureKeyAndValueAreNone(frame.key, frame.value);
        Success(ResponseBody.Flush);
    Success(Response(frame.header.status, body))
  }

  /** A response survives the trip through a frame, with two exceptions: a found
      entry's TTL of `Some(0)` comes back as `None`, and "not found" under status
      `Ok` cannot be read back at all. */
  lemma ResponseRoundTrip(resp: Response)
    ensures resp.status == StatusCode.Ok && resp.body == ResponseBody.Get(None) ==>
              FrameToResponse(ResponseToFrame(resp).value) == Failure(Parse(KeyAndValueMissing))
    ensures resp.body.Get? && resp.body.found.Some? && resp.body.found.value.ttl == Some(0) ==>
              FrameToResponse(ResponseToFrame(resp).value)
              == Success(resp.(body := ResponseBody.Get(Some(resp.body.found.value.(ttl := None)))))
    ensures !(resp.status == StatusCode.Ok && resp.body == ResponseBody.Get(None)) &&
            !(resp.body.Get? && resp.body.found.Some? && resp.body.found.value.ttl == Some(0)) ==>
              FrameToResponse(ResponseToFrame(resp).value) == Success(resp)
  {
    if resp.body.Get? && resp.body.found.Some? {
      IntoTtlOfParse(resp.body.found.value.ttl);
    }
  }
}

/** Responses of the older tree and their conversions to and from response frames of
    the 7-byte codec (src/response.rs). A found entry carries key and value only;
    there is no TTL. */
module LegacyResponse {
  import opened Wrappers
  import opened BigEndian
  import opened CachedError
  import opened CachedDomain
  import opened CachedPrimitives
  import opened LegacyFrame
  import M = CachedFrameMod
  import CachedResponse

  datatype ResponseBodyGet = ResponseBodyGet(key: seq<U8>, value: seq<U8>)

  datatype ResponseBody = Get(found: Option<ResponseBodyGet>) | Set | Delete | Flush

  datatype Response = Response(status: StatusCode, body: ResponseBody)

  /** The opcode that goes with each body. */
  function OpCodeOf(body: ResponseBody): OpCode {
    match body
    case Get(_) => OpCode.Get
    case Set => OpCode.Set
    case Delete => OpCode.Delete
    case Flush => OpCode.Flush
  }

  /** A `Get` body that found an entry: the only body with a key and a value. */
  predicate Found(body: ResponseBody) {
    body.Get? && body.found.Some?
  }

  /** `TryFrom<Response> for ResponseFrame`: a found entry's key and value go into the
      frame, whose header must accept their lengths (key first); every other body
      makes a frame with neither. */
  function ResponseToFrame(resp: Response): (r: Result<ResponseFrame, Error>)
    ensures r.Success? <==>
              (Found(resp.body) ==> |resp.body.found.value.key| <= MAX_KEY_LENGTH && |resp.body.found.value.value| <= MAX_VALUE_LENGTH)
    ensures Found(resp.body) && |resp.body.found.value.key| > MAX_KEY_LENGTH ==> r == Failure(Error.Frame(KeyTooLong))
    ensures Found(resp.body) && |resp.body.found.value.key| <= MAX_KEY_LENGTH && |resp.body.found.value.value| > MAX_VALUE_LENGTH ==>
              r == Failure(Error.Frame(ValueTooLong))
    ensures r.Success? ==>
              && r.value.header.response.opCode == OpCodeOf(resp.body)
              && r.value.header.response.status == resp.status
              && r.value.key.Some? == r.value.value.Some? == Found(resp.body)
              && (Found(resp.body) ==> && r.value.key == Some(resp.body.found.value.key)
                                       && r.value.value == Some(resp.body.found.value.value))
              && r.value.header.KeyLength() == |M.PartBytes(r.value.key)|
              && r.value.TotalFrameLength() == HEADER_SIZE_BYTES + |M.PartBytes(r.value.key)| + |M.PartBytes(r.value.value)|
  {
    var (opCode, key, value) :=
      match resp.body
      case Get(found) =>
        (OpCode.Get,
         if found.Some? then Some(found.value.key) else None,
         if found.Some? then Some(found.value.value) else None)
      case Set => (OpCode.Set, None, None)
      case Delete => (OpCode.Delete, None, None)
      case Flush => (OpCode.Flush, None, None);
    var header :- ResponseHeaderParse(opCode, resp.status, key, value);
    Success(Frame.Frame(ResponseKind(header), key, value))
  }

  /** `TryFrom<ResponseFrame> for Response`. A `Get` frame without both parts is an
      error only under status `Ok`; under any other status it reads as "not found". */
  function FrameToResponse(frame: ResponseFrame): (r: Result<Response, Error>)
    ensures r.Success? <==>
              if frame.header.response.opCode == OpCode.Get
              then (frame.key.Some? && frame.value.Some?) || frame.header.response.status != StatusCode.Ok
              else frame.key.None? && frame.value.None?
    ensures r.Success? ==> && r.value.status == frame.header.response.status
                           && OpCodeOf(r.value.body) == frame.header.response.opCode
    ensures r.Success? && r.value.body.Get? ==>
              if frame.key.Some? && frame.value.Some?
              then r.value.body.found == Some(ResponseBodyGet(frame.key.value, frame.value.value))
              else r.value.body.found == None
    ensures r.Failure? && frame.header.response.opCode == OpCode.Get ==>
              r.error == Parse(CachedResponse.GetPartsMissing(frame.key.Some?, frame.value.Some?))
    ensures r.Failure? && frame.header.response.opCode != OpCode.Get ==>
              r == Failure(CachedResponse.EnsureKeyAndValueAreNone(frame.key, frame.value).error)
  {
    var body :-
      match frame.header.response.opCode
      case Get =>
        if frame.key.Some? && frame.value.Some? then
          Success(ResponseBody.Get(Some(ResponseBodyGet(frame.key.value, frame.value.value))))
        else if frame.header.response.status == StatusCode.Ok then
          Failure(Parse(CachedResponse.GetPartsMissing(frame.key.Some?, frame.value.Some?)))
        else Success(ResponseBody.Get(None))
      case Set =>
        var _ :- CachedResponse.EnsureKeyAndValueAreNone(frame.key, frame.value);
        Success(ResponseBody.Set)
      case Delete =>
        var _ :- CachedResponse.EnsureKeyAndValueAreNone(frame.key, frame.value);
        Success(ResponseBody.Delete)
      case Flush =>
        var _ :- CachedResponse.EnsureKeyAndValueAreNone(frame.key, frame.value);
        Success(ResponseBody.Flush);
    Success(Response(frame.header.response.status, body))
  }

  /** Within the length limits a response survives the trip through a frame, except
      "not found" under status `Ok`, which cannot be read back. */
  lemma ResponseRoundTrip(resp: Response)
    requires ResponseToFrame(resp).Success?
    ensures FrameToResponse(ResponseToFrame(resp).value)
            == if resp.status == StatusCode.Ok && resp.body == ResponseBody.Get(None)
               then Failure(Parse(KeyAndValueMissing))
               else Success(resp)
  {
  }
}

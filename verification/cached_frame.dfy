/** Typed request and response frames of the newer crate (cached/src/frame.rs):
    a header plus an optional validated key and value. Its header structs and their
    byte decoders are the same as those of cached/src/frame/header.rs and are taken
    from CachedFrameHeader. */
module CachedFrame {
  import opened Wrappers
  import opened BigEndian
  import opened CachedError
  import opened CachedDomain
  import opened CachedPrimitives
  import opened CachedFrameHeader

  datatype RequestFrame = RequestFrame(header: RequestHeader, key: Option<Key>, value: Option<Value>)

  datatype ResponseFrame = ResponseFrame(header: ResponseHeader, key: Option<Key>, value: Option<Value>)

  /** Largest total length a frame built from a `Key` and a `Value` can declare. */
  const MAX_TOTAL_FRAME_LENGTH: nat := HEADER_SIZE_BYTES + MAX_KEY_LENGTH + MAX_VALUE_LENGTH

  /** `key.map_or(0, |k| k.len())` */
  function KeyLengthOf(key: Option<Key>): (n: U8)
    ensures key.None? ==> n == 0
    ensures key.Some? ==> n == |key.value|
  {
    match key
    case None => 0
    case Some(k) => KeyLen(k)
  }

  /** `value.map_or(0, |v| v.len())` */
  function ValueLengthOf(value: Option<Value>): (n: U32)
    ensures value.None? ==> n == 0
    ensures value.Some? ==> n == |value.value|
  {
    match value
    case None => 0
    case Some(v) => ValueLen(v)
  }

  /** `RequestFrame::new`: never fails, and the u32 sum for the total length cannot
      overflow because keys and values are bounded. */
  function NewRequestFrame(opCode: OpCode, ttl: Ttl, key: Option<Key>, value: Option<Value>)
    : (r: Result<RequestFrame, Error>)
    ensures r.Success?
    ensures r.value.key == key && r.value.value == value
    ensures r.value.header.opCode == opCode && r.value.header.ttl == ttl
    ensures r.value.header.keyLength == KeyLengthOf(key)
    ensures r.value.header.totalFrameLength == HEADER_SIZE_BYTES + KeyLengthOf(key) + ValueLengthOf(value)
    ensures HEADER_SIZE_BYTES <= r.value.header.totalFrameLength <= MAX_TOTAL_FRAME_LENGTH
  {
    var keyLength := KeyLengthOf(key);
    var valueLength := ValueLengthOf(value);
    var totalFrameLength := HEADER_SIZE_BYTES + keyLength + valueLength;
    Success(RequestFrame(RequestHeader(opCode, keyLength, ttl, totalFrameLength), key, value))
  }

  /** `ResponseFrame::new`: the same length arithmetic, plus the status. */
  function NewResponseFrame(opCode: OpCode, status: StatusCode, ttl: Ttl, key: Option<Key>, value: Option<Value>)
    : (r: Result<ResponseFrame, Error>)
    ensures r.Success?
    ensures r.value.key == key && r.value.value == value
    ensures r.value.header.opCode == opCode && r.value.header.status == status && r.value.header.ttl == ttl
    ensures r.value.header.keyLength == KeyLengthOf(key)
    ensures r.value.header.totalFrameLength == HEADER_SIZE_BYTES + KeyLengthOf(key) + ValueLengthOf(value)
    ensures HEADER_SIZE_BYTES <= r.value.header.totalFrameLength <= MAX_TOTAL_FRAME_LENGTH
  {
    var keyLength := KeyLengthOf(key);
    var valueLength := ValueLengthOf(value);
    var totalFrameLength := HEADER_SIZE_BYTES + keyLength + valueLength;
    Success(ResponseFrame(ResponseHeader(opCode, status, keyLength, ttl, totalFrameLength), key, value))
  }

  /** A TTL field of sixteen zero bytes decodes to "no TTL". */
  lemma ZeroTtlFieldMeansNoTtl(b: seq<U8>)
    requires |b| >= HEADER_SIZE_BYTES && 1 <= b[0] <= 4
    requires forall i | 3 <= i < 19 :: b[i] == 0
    ensures DecodeRequestHeader(b).Success?
    ensures IntoTtl(DecodeRequestHeader(b).value.ttl) == None
    ensures b[1] < 4 ==> IntoTtl(DecodeResponseHeader(b).value.ttl) == None
  {
    FromBigEndianZeros(b[3..19]);
  }
}

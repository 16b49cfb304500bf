/** The 23-byte header of the older tree's src/frame/header.rs, which sits beside the
    7-byte codec of src/frame.rs: opcode, padding or status, key length, a big-endian
    u128 TTL and a big-endian u32 total frame length. Its length validators are the
    same as those of src/frame.rs; only the header size in the total differs. */
module LegacyFrameHeader {
  import opened Wrappers
  import opened BigEndian
  import opened CachedError
  import opened CachedDomain
  import opened CachedPrimitives
  import LegacyFrame
  import M = CachedFrameMod

  const HEADER_SIZE_BYTES: nat := 23

  datatype RequestHeader = RequestHeader(opCode: OpCode, padding: U8, keyLength: U8, ttl: Ttl, totalFrameLength: U32)

  datatype ResponseHeader = ResponseHeader(opCode: OpCode, status: StatusCode, keyLength: U8, ttl: Ttl, totalFrameLength: U32)

  /** `get_key_and_total_frame_length`: the key is validated before the value; the
      total counts the 23 header bytes, the key and the value. */
  function KeyAndTotalFrameLength(key: Option<seq<U8>>, value: Option<seq<U8>>): (r: Result<(U8, U32), Error>)
    ensures r.Success? <==> |M.PartBytes(key)| <= MAX_KEY_LENGTH && |M.PartBytes(value)| <= MAX_VALUE_LENGTH
    ensures |M.PartBytes(key)| > MAX_KEY_LENGTH ==> r == Failure(Error.Frame(KeyTooLong))
    ensures |M.PartBytes(key)| <= MAX_KEY_LENGTH && |M.PartBytes(value)| > MAX_VALUE_LENGTH ==>
              r == Failure(Error.Frame(ValueTooLong))
    ensures r.Success? ==>
              && r.value.0 == |M.PartBytes(key)|
              && r.value.1 == HEADER_SIZE_BYTES + |M.PartBytes(key)| + |M.PartBytes(value)|
  {
    var keyLength :- LegacyFrame.ValidateKeyLength(key);
    var valueLength :- LegacyFrame.ValidateValueLength(value);
    Success((keyLength, HEADER_SIZE_BYTES + keyLength + valueLength))
  }

  /** `RequestHeader::parse`: padding 0, the lengths of the parts, and the TTL with
      `Some(0)` folded into "no TTL". */
  function RequestHeaderParse(opCode: OpCode, key: Option<seq<U8>>, value: Option<seq<U8>>, ttl: Option<U128>): (r: Result<RequestHeader, Error>)
    ensures r.Success? <==> KeyAndTotalFrameLength(key, value).Success?
    ensures r.Failure? ==> r.error == KeyAndTotalFrameLength(key, value).error
    ensures r.Success? ==>
              && r.value.opCode == opCode
              && r.value.padding == 0
              && r.value.keyLength == |M.PartBytes(key)|
              && r.value.totalFrameLength == HEADER_SIZE_BYTES + |M.PartBytes(key)| + |M.PartBytes(value)|
              && IntoTtl(r.value.ttl) == (if ttl == Some(0) then None else ttl)
  {
    var (keyLength, totalFrameLength) :- KeyAndTotalFrameLength(key, value);
    IntoTtlOfParse(ttl);
    Success(RequestHeader(opCode, 0, keyLength, TtlParse(ttl), totalFrameLength))
  }

  /** `ResponseHeader::parse`: the TTL is always stored as "no TTL", so a response
      built this way never carries one. */
  function ResponseHeaderParse(opCode: OpCode, status: StatusCode, key: Option<seq<U8>>, value: Option<seq<U8>>): (r: Result<ResponseHeader, Error>)
    ensures r.Success? <==> KeyAndTotalFrameLength(key, value).Success?
    ensures r.Failure? ==> r.error == KeyAndTotalFrameLength(key, value).error
    ensures r.Success? ==>
              && r.value.opCode == opCode
              && r.value.status == status
              && r.value.keyLength == |M.PartBytes(key)|
              && r.value.totalFrameLength == HEADER_SIZE_BYTES + |M.PartBytes(key)| + |M.PartBytes(value)|
              && IntoTtl(r.value.ttl).None?
  {
    var (keyLength, totalFrameLength) :- KeyAndTotalFrameLength(key, value);
    Success(ResponseHeader(opCode, status, keyLength, TtlParse(Some(0)), totalFrameLength))
  }

  /** `TryFrom<Bytes> for RequestHeader`. */
  function DecodeRequestHeader(b: seq<U8>): (r: Result<RequestHeader, Error>)
    ensures |b| < HEADER_SIZE_BYTES ==> r == Failure(Error.Frame(Incomplete))
    ensures |b| >= HEADER_SIZE_BYTES ==> (r.Success? <==> 1 <= b[0] <= 4)
    ensures |b| >= HEADER_SIZE_BYTES && r.Failure? ==> r.error == Error.Frame(InvalidOpCode)
    ensures r.Success? ==>
              && OpCodeToByte(r.value.opCode) == b[0]
              && r.value.padding == b[1]
              && r.value.keyLength == b[2]
              && r.value.ttl.inner == FromBigEndian(b[3..19])
              && r.value.totalFrameLength == FromBigEndian(b[19..23])
  {
    if |b| < HEADER_SIZE_BYTES then Failure(Error.Frame(Incomplete))
    else
      var opCode :- OpCodeFromByte(b[0]);
      var ttl := TtlParse(Some(BytesToU128(b[3..19])));
      Success(RequestHeader(opCode, b[1], b[2], ttl, BytesToU32(b[19..23])))
  }

  /** `TryFrom<Bytes> for ResponseHeader`: byte 1 must also be a status code. */
  function DecodeResponseHeader(b: seq<U8>): (r: Result<ResponseHeader, Error>)
    ensures |b| < HEADER_SIZE_BYTES ==> r == Failure(Error.Frame(Incomplete))
    ensures |b| >= HEADER_SIZE_BYTES ==> (r.Success? <==> 1 <= b[0] <= 4 && b[1] < 4)
    ensures |b| >= HEADER_SIZE_BYTES && !(1 <= b[0] <= 4) ==> r == Failure(Error.Frame(InvalidOpCode))
    ensures |b| >= HEADER_SIZE_BYTES && 1 <= b[0] <= 4 && b[1] >= 4 ==> r == Failure(Error.Frame(InvalidStatusCode))
    ensures r.Success? ==>
              && OpCodeToByte(r.value.opCode) == b[0]
              && StatusToByte(r.value.status) == b[1]
              && r.value.keyLength == b[2]
              && r.value.ttl.inner == FromBigEndian(b[3..19])
              && r.value.totalFrameLength == FromBigEndian(b[19..23])
  {
    if |b| < HEADER_SIZE_BYTES then Failure(Error.Frame(Incomplete))
    else
      var opCode :- OpCodeFromByte(b[0]);
      var status :- StatusFromByte(b[1]);
      var ttl := TtlParse(Some(BytesToU128(b[3..19])));
      Success(ResponseHeader(opCode, status, b[2], ttl, BytesToU32(b[19..23])))
  }

  /** The 1/1/1/16/4 byte layout the decoders read: a reference encoding of a request
      header (the tree has no writer for this header). */
  function RequestHeaderBytes(h: RequestHeader): (r: seq<U8>)
    ensures |r| == HEADER_SIZE_BYTES
  {
    [OpCodeToByte(h.opCode), h.padding, h.keyLength] + U128ToBytes(h.ttl.inner) + U32ToBytes(h.totalFrameLength)
  }

  /** The same layout for a response header, with the status in byte 1. */
  function ResponseHeaderBytes(h: ResponseHeader): (r: seq<U8>)
    ensures |r| == HEADER_SIZE_BYTES
  {
    [OpCodeToByte(h.opCode), StatusToByte(h.status), h.keyLength] + U128ToBytes(h.ttl.inner) + U32ToBytes(h.totalFrameLength)
  }

  /** Decoding the layout gives back the header, and bytes after it are ignored. */
  lemma {:induction false} DecodeRequestHeaderOfBytes(h: RequestHeader, tail: seq<U8>)
    ensures DecodeRequestHeader(RequestHeaderBytes(h) + tail) == Success(h)
  {
    var b := RequestHeaderBytes(h) + tail;
    assert b[3..19] == U128ToBytes(h.ttl.inner);
    assert b[19..23] == U32ToBytes(h.totalFrameLength);
    CodesRoundTrip(StatusCode.Ok, h.opCode);
    var d := DecodeRequestHeader(b);
    CodesInjective(StatusCode.Ok, StatusCode.Ok, d.value.opCode, h.opCode);
  }

  lemma {:induction false} DecodeResponseHeaderOfBytes(h: ResponseHeader, tail: seq<U8>)
    ensures DecodeResponseHeader(ResponseHeaderBytes(h) + tail) == Success(h)
  {
    var b := ResponseHeaderBytes(h) + tail;
    assert b[3..19] == U128ToBytes(h.ttl.inner);
    assert b[19..23] == U32ToBytes(h.totalFrameLength);
    CodesRoundTrip(h.status, h.opCode);
    var d := DecodeResponseHeader(b);
    CodesInjective(d.value.status, h.status, d.value.opCode, h.opCode);
  }

  /** A wire TTL of zero decodes to a header without a TTL. */
  lemma ZeroTtlFieldMeansNoTtl(b: seq<U8>)
    requires DecodeRequestHeader(b).Success?
    requires forall i | 3 <= i < 19 :: b[i] == 0
    ensures IntoTtl(DecodeRequestHeader(b).value.ttl).None?
  {
    FromBigEndianZeros(b[3..19]);
  }

  /** Boundary cases: 255-byte keys and 1 MiB values are accepted, one more byte is not. */
  lemma LengthLimits(k: seq<U8>, v: seq<U8>)
    ensures |k| == 255 && |v| == 1048576 ==> KeyAndTotalFrameLength(Some(k), Some(v)) == Success((255, 1048854))
    ensures |k| == 256 ==> KeyAndTotalFrameLength(Some(k), Some(v)) == Failure(Error.Frame(KeyTooLong))
    ensures |k| <= 255 && |v| == 1048577 ==> KeyAndTotalFrameLength(Some(k), Some(v)) == Failure(Error.Frame(ValueTooLong))
  {
  }
}

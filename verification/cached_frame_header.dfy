/** The 23-byte frame header of the newer crate (cached/src/frame/header.rs):
    opcode (1 byte), status or padding (1), key length (1), TTL (16, big-endian),
    total frame length (4, big-endian). */
module CachedFrameHeader {
  import opened Wrappers
  import opened BigEndian
  import opened CachedError
  import opened CachedDomain
  import opened CachedPrimitives

  const HEADER_SIZE_BYTES: nat := 23

  /** `RequestHeader::new` is this constructor: it stores its arguments unchanged. */
  datatype RequestHeader = RequestHeader(opCode: OpCode, keyLength: U8, ttl: Ttl, totalFrameLength: U32)

  /** `ResponseHeader::new` is this constructor. */
  datatype ResponseHeader =
    ResponseHeader(opCode: OpCode, status: StatusCode, keyLength: U8, ttl: Ttl, totalFrameLength: U32)

  /** Either header, seen through the accessors of the `Header` trait that the frame
      code and the writer are generic over. */
  datatype Header = RequestKind(request: RequestHeader) | ResponseKind(response: ResponseHeader) {

    function OpCodeOf(): OpCode {
      if RequestKind? then request.opCode else response.opCode
    }

    /** The second header byte: the status of a response, zero padding for a request. */
    function StatusOrPadding(): U8 {
      if RequestKind? then 0 else StatusToByte(response.status)
    }

    function KeyLength(): U8 {
      if RequestKind? then request.keyLength else response.keyLength
    }

    function TtlOf(): Ttl {
      if RequestKind? then request.ttl else response.ttl
    }

    function TotalFrameLength(): U32 {
      if RequestKind? then request.totalFrameLength else response.totalFrameLength
    }
  }

  /** `TryFrom<Bytes> for RequestHeader`. */
  function DecodeRequestHeader(b: seq<U8>): (r: Result<RequestHeader, Error>)
    ensures |b| < HEADER_SIZE_BYTES ==> r == Failure(Frame(Incomplete))
    ensures |b| >= HEADER_SIZE_BYTES ==> (r.Success? <==> 1 <= b[0] <= 4)
    ensures |b| >= HEADER_SIZE_BYTES && r.Failure? ==> r.error == Frame(InvalidOpCode)
    ensures r.Success? ==>
              && OpCodeToByte(r.value.opCode) == b[0]
              && r.value.keyLength == b[2]
              && r.value.ttl.inner == FromBigEndian(b[3..19])
              && r.value.totalFrameLength == FromBigEndian(b[19..23])
  {
    if |b| < HEADER_SIZE_BYTES then Failure(Frame(Incomplete))
    else
      var opCode :- OpCodeFromByte(b[0]);
      var keyLength := b[2];
      var ttl := TtlParse(Some(BytesToU128(b[3..19])));
      var totalFrameLength := BytesToU32(b[19..23]);
      Success(RequestHeader(opCode, keyLength, ttl, totalFrameLength))
  }

  /** `TryFrom<Bytes> for ResponseHeader`: as for requests, but byte 1 must be a status code. */
  function DecodeResponseHeader(b: seq<U8>): (r: Result<ResponseHeader, Error>)
    ensures |b| < HEADER_SIZE_BYTES ==> r == Failure(Frame(Incomplete))
    ensures |b| >= HEADER_SIZE_BYTES ==> (r.Success? <==> 1 <= b[0] <= 4 && b[1] < 4)
    ensures |b| >= HEADER_SIZE_BYTES && !(1 <= b[0] <= 4) ==> r == Failure(Frame(InvalidOpCode))
    ensures |b| >= HEADER_SIZE_BYTES && 1 <= b[0] <= 4 && b[1] >= 4 ==> r == Failure(Frame(InvalidStatusCode))
    ensures r.Success? ==>
              && OpCodeToByte(r.value.opCode) == b[0]
              && StatusToByte(r.value.status) == b[1]
              && r.value.keyLength == b[2]
              && r.value.ttl.inner == FromBigEndian(b[3..19])
              && r.value.totalFrameLength == FromBigEndian(b[19..23])
  {
    if |b| < HEADER_SIZE_BYTES then Failure(Frame(Incomplete))
    else
      var opCode :- OpCodeFromByte(b[0]);
      var status :- StatusFromByte(b[1]);
      var keyLength := b[2];
      var ttl := TtlParse(Some(BytesToU128(b[3..19])));
      var totalFrameLength := BytesToU32(b[19..23]);
      Success(ResponseHeader(opCode, status, keyLength, ttl, totalFrameLength))
  }

  /** A request header ignores its second byte altogether. */
  lemma RequestHeaderIgnoresByteOne(b: seq<U8>, x: U8)
    requires |b| >= HEADER_SIZE_BYTES
    ensures DecodeRequestHeader(b[1 := x]) == DecodeRequestHeader(b)
  {
    var c := b[1 := x];
    assert c[3..19] == b[3..19] && c[19..23] == b[19..23];
  }

  /** Bytes past the 23rd play no part in decoding either header. */
  lemma HeaderDecodeReadsOnlyHeaderBytes(b: seq<U8>, tail: seq<U8>)
    requires |b| >= HEADER_SIZE_BYTES
    ensures DecodeRequestHeader(b + tail) == DecodeRequestHeader(b)
    ensures DecodeResponseHeader(b + tail) == DecodeResponseHeader(b)
  {
    var c := b + tail;
    assert c[3..19] == b[3..19] && c[19..23] == b[19..23];
  }
}

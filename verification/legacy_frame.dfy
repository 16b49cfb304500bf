/** The frame codec of the older tree (src/frame.rs): a 7-byte header of opcode,
    blank or status, key length and a big-endian u32 total frame length, followed by
    the key and the value. The file's own `OpCode`/`Status` tables and `get_string`
    are the same code as the newer crate's and are taken from there; its local
    `FrameError` has the same five variants as the crate-wide one and is wrapped in
    `Error.Frame` here. */
module LegacyFrame {
  import opened Wrappers
  import opened BigEndian
  import opened Utf8
  import opened CachedError
  import opened CachedDomain
  import opened CachedPrimitives
  import M = CachedFrameMod

  const HEADER_SIZE_BYTES: nat := 7

  /** The second byte of a request header is read and kept, but means nothing. */
  datatype RequestHeader = RequestHeader(opCode: OpCode, blank: U8, keyLength: U8, totalFrameLength: U32)

  datatype ResponseHeader = ResponseHeader(opCode: OpCode, status: StatusCode, keyLength: U8, totalFrameLength: U32)

  /** Either header, seen through the accessors of the `Header` trait. */
  datatype Header = RequestKind(request: RequestHeader) | ResponseKind(response: ResponseHeader) {

    function OpCodeOf(): OpCode {
      if RequestKind? then request.opCode else response.opCode
    }

    /** `get_status_or_blank`: the stored blank byte of a request, the status of a response. */
    function StatusOrBlank(): U8 {
      if RequestKind? then request.blank else StatusToByte(response.status)
    }

    function KeyLength(): U8 {
      if RequestKind? then request.keyLength else response.keyLength
    }

    function TotalFrameLength(): U32 {
      if RequestKind? then request.totalFrameLength else response.totalFrameLength
    }
  }

  datatype Frame = Frame(header: Header, key: Option<seq<U8>>, value: Option<seq<U8>>)
  {
    function TotalFrameLength(): U32 {
      header.TotalFrameLength()
    }

    function Kind(): M.FrameKind {
      if header.RequestKind? then M.RequestFrameKind else M.ResponseFrameKind
    }
  }

  type RequestFrame = f: Frame | f.header.RequestKind?
    witness Frame.Frame(RequestKind(RequestHeader(Flush, 0, 0, 7)), None, None)

  type ResponseFrame = f: Frame | f.header.ResponseKind?
    witness Frame.Frame(ResponseKind(ResponseHeader(Flush, StatusCode.Ok, 0, 7)), None, None)

  /** `validate_key_length`: an absent key counts as empty; more than `u8::MAX` bytes fail. */
  function ValidateKeyLength(key: Option<seq<U8>>): (r: Result<U8, Error>)
    ensures r.Success? <==> |M.PartBytes(key)| <= MAX_KEY_LENGTH
    ensures r.Success? ==> r.value == |M.PartBytes(key)|
    ensures r.Failure? ==> r.error == Error.Frame(KeyTooLong)
  {
    var keyLength := |M.PartBytes(key)|;
    if keyLength > MAX_KEY_LENGTH then Failure(Error.Frame(KeyTooLong)) else Success(keyLength)
  }

  /** `validate_value_length`: more than 1 MiB fails. */
  function ValidateValueLength(value: Option<seq<U8>>): (r: Result<U32, Error>)
    ensures r.Success? <==> |M.PartBytes(value)| <= MAX_VALUE_LENGTH
    ensures r.Success? ==> r.value == |M.PartBytes(value)|
    ensures r.Failure? ==> r.error == Error.Frame(ValueTooLong)
  {
    var valueLength := |M.PartBytes(value)|;
    if valueLength > MAX_VALUE_LENGTH then Failure(Error.Frame(ValueTooLong)) else Success(valueLength)
  }

  /** `get_key_and_total_frame_length`: the key is validated before the value; the total
      counts the 7 header bytes, the key and the value. */
  function KeyAndTotalFrameLength(key: Option<seq<U8>>, value: Option<seq<U8>>): (r: Result<(U8, U32), Error>)
    ensures r.Success? <==> |M.PartBytes(key)| <= MAX_KEY_LENGTH && |M.PartBytes(value)| <= MAX_VALUE_LENGTH
    ensures |M.PartBytes(key)| > MAX_KEY_LENGTH ==> r == Failure(Error.Frame(KeyTooLong))
    ensures |M.PartBytes(key)| <= MAX_KEY_LENGTH && |M.PartBytes(value)| > MAX_VALUE_LENGTH ==>
              r == Failure(Error.Frame(ValueTooLong))
    ensures r.Success? ==>
              && r.value.0 == |M.PartBytes(key)|
              && r.value.1 == HEADER_SIZE_BYTES + |M.PartBytes(key)| + |M.PartBytes(value)|
  {
    var keyLength :- ValidateKeyLength(key);
    var valueLength :- ValidateValueLength(value);
    Success((keyLength, HEADER_SIZE_BYTES + keyLength + valueLength))
  }

  /** `RequestHeader::parse`: blank byte 0 and the lengths of the given parts. */
  function RequestHeaderParse(opCode: OpCode, key: Option<seq<U8>>, value: Option<seq<U8>>): (r: Result<RequestHeader, Error>)
    ensures r.Success? <==> KeyAndTotalFrameLength(key, value).Success?
    ensures r.Failure? ==> r.error == KeyAndTotalFrameLength(key, value).error
    ensures r.Success? ==>
              && r.value.opCode == opCode
              && r.value.blank == 0
              && r.value.keyLength == |M.PartBytes(key)|
              && r.value.totalFrameLength == HEADER_SIZE_BYTES + |M.PartBytes(key)| + |M.PartBytes(value)|
  {
    var (keyLength, totalFrameLength) :- KeyAndTotalFrameLength(key, value);
    Success(RequestHeader(opCode, 0, keyLength, totalFrameLength))
  }

  /** `ResponseHeader::parse`: as for requests, with the status in place of the blank byte. */
  function ResponseHeaderParse(opCode: OpCode, status: StatusCode, key: Option<seq<U8>>, value: Option<seq<U8>>): (r: Result<ResponseHeader, Error>)
    ensures r.Success? <==> KeyAndTotalFrameLength(key, value).Success?
    ensures r.Failure? ==> r.error == KeyAndTotalFrameLength(key, value).error
    ensures r.Success? ==>
              && r.value.opCode == opCode
              && r.value.status == status
              && r.value.keyLength == |M.PartBytes(key)|
              && r.value.totalFrameLength == HEADER_SIZE_BYTES + |M.PartBytes(key)| + |M.PartBytes(value)|
  {
    var (keyLength, totalFrameLength) :- KeyAndTotalFrameLength(key, value);
    Success(ResponseHeader(opCode, status, keyLength, totalFrameLength))
  }

  /** Boundary cases of the validators: 255-byte keys and 1 MiB values pass, one more
      byte fails, and the key is judged first. */
  lemma LengthLimits(k: seq<U8>, v: seq<U8>)
    ensures |k| == 255 && |v| == 1048576 ==> KeyAndTotalFrameLength(Some(k), Some(v)) == Success((255, 1048838))
    ensures |k| == 256 ==> KeyAndTotalFrameLength(Some(k), Some(v)) == Failure(Error.Frame(KeyTooLong))
    ensures |k| <= 255 && |v| == 1048577 ==> KeyAndTotalFrameLength(Some(k), Some(v)) == Failure(Error.Frame(ValueTooLong))
  {
  }

  /** `TryFrom<Bytes> for RequestHeader`. */
  function DecodeRequestHeader(b: seq<U8>): (r: Result<RequestHeader, Error>)
    ensures |b| < HEADER_SIZE_BYTES ==> r == Failure(Error.Frame(Incomplete))
    ensures |b| >= HEADER_SIZE_BYTES ==> (r.Success? <==> 1 <= b[0] <= 4)
    ensures |b| >= HEADER_SIZE_BYTES && r.Failure? ==> r.error == Error.Frame(InvalidOpCode)
    ensures r.Success? ==>
              && OpCodeToByte(r.value.opCode) == b[0]
              && r.value.blank == b[1]
              && r.value.keyLength == b[2]
              && r.value.totalFrameLength == FromBigEndian(b[3..7])
  {
    if |b| < HEADER_SIZE_BYTES then Failure(Error.Frame(Incomplete))
    else
      var opCode :- OpCodeFromByte(b[0]);
      Success(RequestHeader(opCode, b[1], b[2], BytesToU32(b[3..7])))
  }

  /** `TryFrom<Bytes> for ResponseHeader`: byte 1 must also be a status code. */
  function DecodeResponseHeader(b: seq<U8>): (r: Result<ResponseHeader, Error>)
    ensures |b| < HEADER_SIZE_BYTES ==> r == Failure(Error.Frame(Incomplete))
    ensures |b| >= HEADER_SIZE_BYTES ==> (r.Success? <==> 1 <= b[0] <= 4 && b[1] < 4)
    ensures |b| >= HEADER_SIZE_BYTES && !(1 <= b[0] <= 4) ==> r == Failure(Error.Frame(InvalidOpCode))
    ensures |b| >= HEADER_SIZE_BYTES && 1 <= b[0] <= 4 && b[1] >= 4 ==> r == Failure(Error.Frame(InvalidStatusCode))
    ensures r.Success? ==>
              && OpCodeToByte(r.value.opCode) == b[0]
              && StatusToByte(r.value.status) == b[1]
              && r.value.keyLength == b[2]
              && r.value.totalFrameLength == FromBigEndian(b[3..7])
  {
    if |b| < HEADER_SIZE_BYTES then Failure(Error.Frame(Incomplete))
    else
      var opCode :- OpCodeFromByte(b[0]);
      var status :- StatusFromByte(b[1]);
      Success(ResponseHeader(opCode, status, b[2], BytesToU32(b[3..7])))
  }

  /** `Self::Header::try_from`, for either kind. */
  function DecodeHeader(kind: M.FrameKind, b: seq<U8>): (r: Result<Header, Error>)
    ensures r.Success? ==> r.value.RequestKind? == (kind == M.RequestFrameKind)
    ensures r.Success? ==> |b| >= HEADER_SIZE_BYTES && r.value.KeyLength() == b[2] && r.value.TotalFrameLength() == FromBigEndian(b[3..7])
    ensures r.Failure? <==> (match kind
                             case RequestFrameKind => DecodeRequestHeader(b).Failure?
                             case ResponseFrameKind => DecodeResponseHeader(b).Failure?)
  {
    match kind
    case RequestFrameKind =>
      var h :- DecodeRequestHeader(b);
      Success(RequestKind(h))
    case ResponseFrameKind =>
      var h :- DecodeResponseHeader(b);
      Success(ResponseKind(h))
  }

  /** `Frame::check`. Unlike the newer crate's check it decodes the header, so a bad
      opcode or status surfaces here; a stated total below 7 makes the unsigned
      subtraction `total - 7` abort. */
  function Check(kind: M.FrameKind, src: seq<U8>): (r: Result<nat, Error>)
    ensures |src| < HEADER_SIZE_BYTES ==> r == Failure(Error.Frame(Incomplete))
    ensures |src| >= HEADER_SIZE_BYTES && DecodeHeader(kind, src[..HEADER_SIZE_BYTES]).Failure? ==>
              r == Failure(DecodeHeader(kind, src[..HEADER_SIZE_BYTES]).error)
    ensures |src| >= HEADER_SIZE_BYTES && DecodeHeader(kind, src[..HEADER_SIZE_BYTES]).Success? ==>
              var total := FromBigEndian(src[3..7]);
              && (total < HEADER_SIZE_BYTES ==> r == Failure(Panic(SubtractOverflow)))
              && (HEADER_SIZE_BYTES <= total ==> (r.Success? <==> total <= |src|))
              && (HEADER_SIZE_BYTES <= total && |src| < total ==> r == Failure(Error.Frame(Incomplete)))
    ensures r.Success? ==> HEADER_SIZE_BYTES <= r.value == FromBigEndian(src[3..7]) <= |src|
  {
    if |src| < HEADER_SIZE_BYTES then Failure(Error.Frame(Incomplete))
    else
      var header :- DecodeHeader(kind, src[..HEADER_SIZE_BYTES]);
      var total := header.TotalFrameLength();
      assert src[..HEADER_SIZE_BYTES][3..7] == src[3..7];
      if total < HEADER_SIZE_BYTES then Failure(Panic(SubtractOverflow))
      else if |src| - HEADER_SIZE_BYTES < total - HEADER_SIZE_BYTES then Failure(Error.Frame(Incomplete))
      else Success(total)
  }

  /** `Frame::parse`: decode the 7 header bytes, then read the key and the value, each
      `None` when its length is zero. */
  function FrameParse(kind: M.FrameKind, src: seq<U8>): (r: M.Consumed<Frame>)
    ensures |src| < HEADER_SIZE_BYTES ==> r.result == Failure(Panic(BufferUnderrun))
    ensures r.result.Success? ==>
              && r.result.value.Kind() == kind
              && HEADER_SIZE_BYTES + r.result.value.header.KeyLength() <= r.result.value.TotalFrameLength() <= |src|
              && r.rest == src[r.result.value.TotalFrameLength()..]
              && (r.result.value.key.None? <==> r.result.value.header.KeyLength() == 0)
              && (r.result.value.value.None? <==> r.result.value.TotalFrameLength() == HEADER_SIZE_BYTES + r.result.value.header.KeyLength())
    ensures |src| >= HEADER_SIZE_BYTES && r.result.Failure? ==>
              r.result.error in {Error.Frame(InvalidOpCode), Error.Frame(InvalidStatusCode), Error.Frame(Incomplete), Panic(SubtractOverflow)}
    ensures |src| >= HEADER_SIZE_BYTES ==>
              var d := DecodeHeader(kind, src[..HEADER_SIZE_BYTES]);
              var keyEnd := HEADER_SIZE_BYTES + src[2];
              var total := FromBigEndian(src[3..7]);
              && (d.Failure? ==> r == M.Consumed(Failure(d.error), src[HEADER_SIZE_BYTES..]))
              && (d.Success? && total < keyEnd ==> r == M.Consumed(Failure(Panic(SubtractOverflow)), src[HEADER_SIZE_BYTES..]))
              && (d.Success? && keyEnd <= total && |src| < keyEnd ==>
                    r == M.Consumed(Failure(Error.Frame(Incomplete)), src[HEADER_SIZE_BYTES..]))
              && (d.Success? && keyEnd <= |src| < total ==>
                    r == M.Consumed(Failure(Error.Frame(Incomplete)), src[keyEnd..]))
              && (d.Success? && keyEnd <= total <= |src| ==>
                    r == M.Consumed(Success(Frame.Frame(d.value, M.LossyPart(src[HEADER_SIZE_BYTES..keyEnd]), M.LossyPart(src[keyEnd..total]))),
                                    src[total..]))
  {
    if |src| < HEADER_SIZE_BYTES then M.Consumed(Failure(Panic(BufferUnderrun)), src)
    else
      assert src[..HEADER_SIZE_BYTES][3..7] == src[3..7];
      match DecodeHeader(kind, src[..HEADER_SIZE_BYTES])
      case Failure(e) => M.Consumed(Failure(e), src[HEADER_SIZE_BYTES..])
      case Success(header) => ParseParts(header, src)
  }

  /** The rest of `parse` once the header is decoded: the key, then the value, whose
      length is what the total leaves after the header and the key. */
  function ParseParts(header: Header, src: seq<U8>): (r: M.Consumed<Frame>)
    requires |src| >= HEADER_SIZE_BYTES && header.KeyLength() == src[2] && header.TotalFrameLength() == FromBigEndian(src[3..7])
    ensures var keyEnd := HEADER_SIZE_BYTES + src[2];
            var total := FromBigEndian(src[3..7]);
            && (total < keyEnd ==> r == M.Consumed(Failure(Panic(SubtractOverflow)), src[HEADER_SIZE_BYTES..]))
            && (keyEnd <= total && |src| < keyEnd ==> r == M.Consumed(Failure(Error.Frame(Incomplete)), src[HEADER_SIZE_BYTES..]))
            && (keyEnd <= |src| < total ==> r == M.Consumed(Failure(Error.Frame(Incomplete)), src[keyEnd..]))
            && (keyEnd <= total <= |src| ==>
                  r == M.Consumed(Success(Frame.Frame(header, M.LossyPart(src[HEADER_SIZE_BYTES..keyEnd]), M.LossyPart(src[keyEnd..total]))),
                           src[total..]))
  {
    var afterHeader := src[HEADER_SIZE_BYTES..];
    var keyLength := header.KeyLength();
    var total := header.TotalFrameLength();
    if total < HEADER_SIZE_BYTES + keyLength then M.Consumed(Failure(Panic(SubtractOverflow)), afterHeader)
    else
      var valueLength := total - HEADER_SIZE_BYTES - keyLength;
      var k := M.GetPart(afterHeader, keyLength);
      match k.result
      case Failure(e) => M.Consumed(Failure(e), k.rest)
      case Success(key) =>
        var v := M.GetPart(k.rest, valueLength);
        match v.result
        case Failure(e) => M.Consumed(Failure(e), v.rest)
        case Success(value) =>
          assert afterHeader[..keyLength] == src[HEADER_SIZE_BYTES..HEADER_SIZE_BYTES + keyLength];
          assert k.rest[..valueLength] == src[HEADER_SIZE_BYTES + keyLength..total];
          M.Consumed(Success(Frame.Frame(header, key, value)), v.rest)
  }

  /** Bytes past the 7th play no part in decoding a header. */
  lemma HeaderDecodeReadsOnlyHeaderBytes(kind: M.FrameKind, b: seq<U8>, tail: seq<U8>)
    requires |b| >= HEADER_SIZE_BYTES
    ensures DecodeHeader(kind, (b + tail)[..HEADER_SIZE_BYTES]) == DecodeHeader(kind, b[..HEADER_SIZE_BYTES])
  {
    assert (b + tail)[..HEADER_SIZE_BYTES] == b[..HEADER_SIZE_BYTES];
  }

  /** `check` is prefix-stable: more data behind a complete frame does not change it. */
  lemma CheckPrefixStable(kind: M.FrameKind, b: seq<U8>, c: seq<U8>)
    requires Check(kind, b).Success?
    ensures Check(kind, b + c) == Check(kind, b)
  {
    HeaderDecodeReadsOnlyHeaderBytes(kind, b, c);
    assert (b + c)[3..7] == b[3..7];
  }

  /** Once `check` has accepted a buffer, `parse` succeeds unless the key length does
      not fit the stated total, and then consumes exactly the checked length. */
  lemma CheckedParseConsumesCheckedLength(kind: M.FrameKind, src: seq<U8>)
    requires Check(kind, src).Success?
    ensures FrameParse(kind, src).result.Success? <==> HEADER_SIZE_BYTES + src[2] <= Check(kind, src).value
    ensures FrameParse(kind, src).result.Failure? ==> FrameParse(kind, src).result == Failure(Panic(SubtractOverflow))
    ensures FrameParse(kind, src).result.Success? ==> FrameParse(kind, src).rest == src[Check(kind, src).value..]
  {
    var h := src[..HEADER_SIZE_BYTES];
    assert h[3..7] == src[3..7];
    var d := DecodeHeader(kind, h);
    assert d.Success?;
    var keyLength := d.value.KeyLength();
    var total := d.value.TotalFrameLength();
    if total >= HEADER_SIZE_BYTES + keyLength {
      var afterHeader := src[HEADER_SIZE_BYTES..];
      var k := M.GetPart(afterHeader, keyLength);
      assert k.result.Success?;
      var v := M.GetPart(k.rest, total - HEADER_SIZE_BYTES - keyLength);
      assert v.result.Success?;
    }
  }
}

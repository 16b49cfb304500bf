/** The `Frame` trait of the newer crate (cached/src/frame/mod.rs): frames whose key
    and value are plain strings, the prefix check `check`, the consuming `parse` and
    `get_string`. A buffer is a byte sequence; consuming bytes from its front is
    modelled by returning what is left of it. */
module CachedFrameMod {
  import opened Wrappers
  import opened BigEndian
  import opened Utf8
  import opened CachedError
  import opened CachedPrimitives
  import opened CachedFrameHeader

  /** Which implementor of `Frame` a generic call is made for. */
  datatype FrameKind = RequestFrameKind | ResponseFrameKind

  /** `RequestFrame` or `ResponseFrame` of this file: the kind is that of the header. */
  datatype Frame = Frame(header: Header, key: Option<seq<U8>>, value: Option<seq<U8>>)
  {
    function TotalFrameLength(): U32 {
      header.TotalFrameLength()
    }

    function Kind(): FrameKind {
      if header.RequestKind? then RequestFrameKind else ResponseFrameKind
    }
  }

  /** The outcome of an operation on a buffer, with what is left of the buffer. */
  datatype Consumed<T> = Consumed(result: Result<T, Error>, rest: seq<U8>)

  /** The bytes of an optional key or value: nothing when absent. */
  function PartBytes(part: Option<seq<U8>>): seq<U8> {
    if part.Some? then part.value else []
  }

  /** `Self::Header::try_from`, for either kind. */
  function DecodeHeader(kind: FrameKind, b: seq<U8>): (r: Result<Header, Error>)
    ensures r.Success? ==> r.value.RequestKind? == (kind == RequestFrameKind)
    ensures r.Success? ==> |b| >= HEADER_SIZE_BYTES && r.value.KeyLength() == b[2] && r.value.TotalFrameLength() == FromBigEndian(b[19..23])
    ensures r.Failure? <==> (match kind
                             case RequestFrameKind => DecodeRequestHeader(b).Failure?
                             case ResponseFrameKind => DecodeResponseHeader(b).Failure?)
  {
    match kind
    case RequestFrameKind =>
      var h :- DecodeRequestHeader(b);
      Success(RequestKind(h))
    case ResponseFrameKind =>
      var h :- DecodeResponseHeader(b);
      Success(ResponseKind(h))
  }

  /** The total length stated by a buffer's header bytes. */
  function StatedLength(src: seq<U8>): U32
    requires |src| >= HEADER_SIZE_BYTES
  {
    BytesToU32(src[19..23])
  }

  /** `Frame::check`: is a whole frame at the front of src, and how long is it? Only
      the length field is read; opcode and status are left to `parse`. */
  function Check(src: seq<U8>): (r: Result<nat, Error>)
    ensures r.Failure? ==> r.error == Error.Frame(Incomplete)
    ensures r.Success? <==> |src| >= HEADER_SIZE_BYTES && |src| >= FromBigEndian(src[19..23])
    ensures r.Success? ==> r.value == FromBigEndian(src[19..23]) <= |src|
  {
    if |src| < HEADER_SIZE_BYTES then Failure(Error.Frame(Incomplete))
    else
      var totalFrameLength := StatedLength(src);
      if |src| < totalFrameLength then Failure(Error.Frame(Incomplete))
      else Success(totalFrameLength)
  }

  /** The key or value a frame holds for the given bytes: none when there are none,
      otherwise their lossy decoding. */
  function LossyPart(b: seq<U8>): Option<seq<U8>> {
    if |b| == 0 then None else Some(Lossy(b))
  }

  /** `get_string`: take len bytes off the front and decode them lossily. */
  function GetString(src: seq<U8>, len: nat): (r: Consumed<seq<U8>>)
    ensures r.result.Failure? <==> |src| < len
    ensures r.result.Failure? ==> r.result.error == Error.Frame(Incomplete) && r.rest == src
    ensures r.result.Success? ==> && |src| == len + |r.rest|
                                  && r.rest == src[len..]
                                  && r.result.value == Lossy(src[..len])
                                  && ValidUtf8(r.result.value)
  {
    if |src| < len then Consumed(Failure(Error.Frame(Incomplete)), src)
    else
      LossyIsValid(src[..len]);
      Consumed(Success(Lossy(src[..len])), src[len..])
  }

  /** `get_string` returns well-formed text exactly as it was sent. */
  lemma GetStringOfValid(s: seq<U8>, rest: seq<U8>)
    requires ValidUtf8(s)
    ensures GetString(s + rest, |s|) == Consumed(Success(s), rest)
  {
    assert (s + rest)[..|s|] == s;
    assert (s + rest)[|s|..] == rest;
    LossyOfValid(s);
  }

  /** A key or value of the given length: `None` when the length is zero. */
  function GetPart(src: seq<U8>, len: nat): (r: Consumed<Option<seq<U8>>>)
    ensures len == 0 ==> r == Consumed(Success(None), src)
    ensures len > 0 ==> r.result.Failure? == GetString(src, len).result.Failure?
    ensures r.result.Success? ==> && r.rest == src[len..]
                                  && (r.result.value.Some? <==> len > 0)
                                  && r.result.value == LossyPart(src[..len])
  {
    if len == 0 then Consumed(Success(None), src)
    else
      var s := GetString(src, len);
      match s.result
      case Success(text) => Consumed(Success(Some(text)), s.rest)
      case Failure(e) => Consumed(Failure(e), s.rest)
  }

  /** `Frame::parse`: consume the 23 header bytes, decode them, then consume the key
      and the value. `copy_to_bytes` on a short buffer and the unsigned subtraction
      `total - 23 - key_length` abort instead of returning an error. */
  function FrameParse(kind: FrameKind, src: seq<U8>): (r: Consumed<Frame>)
    ensures |src| < HEADER_SIZE_BYTES ==> r.result == Failure(Panic(BufferUnderrun))
    ensures r.result.Success? ==>
              && r.result.value.Kind() == kind
              && HEADER_SIZE_BYTES + r.result.value.header.KeyLength() <= r.result.value.TotalFrameLength() <= |src|
              && r.rest == src[r.result.value.TotalFrameLength()..]
              && (r.result.value.key.None? <==> r.result.value.header.KeyLength() == 0)
              && (r.result.value.value.None? <==> r.result.value.TotalFrameLength() == HEADER_SIZE_BYTES + r.result.value.header.KeyLength())
    ensures |src| >= HEADER_SIZE_BYTES && r.result.Failure? ==>
              r.result.error in {Error.Frame(InvalidOpCode), Error.Frame(InvalidStatusCode), Error.Frame(Incomplete), Panic(SubtractOverflow)}
    ensures |src| >= HEADER_SIZE_BYTES ==>
              var d := DecodeHeader(kind, src[..HEADER_SIZE_BYTES]);
              var keyEnd := HEADER_SIZE_BYTES + src[2];
              var total := FromBigEndian(src[19..23]);
              && (d.Failure? ==> r == Consumed(Failure(d.error), src[HEADER_SIZE_BYTES..]))
              && (d.Success? && total < keyEnd ==> r == Consumed(Failure(Panic(SubtractOverflow)), src[HEADER_SIZE_BYTES..]))
              && (d.Success? && keyEnd <= total && |src| < keyEnd ==>
                    r == Consumed(Failure(Error.Frame(Incomplete)), src[HEADER_SIZE_BYTES..]))
              && (d.Success? && keyEnd <= |src| < total ==>
                    r == Consumed(Failure(Error.Frame(Incomplete)), src[keyEnd..]))
              && (d.Success? && keyEnd <= total <= |src| ==>
                    r == Consumed(Success(Frame.Frame(d.value, LossyPart(src[HEADER_SIZE_BYTES..keyEnd]), LossyPart(src[keyEnd..total]))),
                                  src[total..]))
  {
    if |src| < HEADER_SIZE_BYTES then Consumed(Failure(Panic(BufferUnderrun)), src)
    else
      assert src[..HEADER_SIZE_BYTES][19..23] == src[19..23];
      match DecodeHeader(kind, src[..HEADER_SIZE_BYTES])
      case Failure(e) => Consumed(Failure(e), src[HEADER_SIZE_BYTES..])
      case Success(header) => ParseParts(header, src)
  }

  /** The rest of `parse` once the header is decoded: the key, then the value, whose
      length is what the total leaves after the header and the key. */
  function ParseParts(header: Header, src: seq<U8>): (r: Consumed<Frame>)
    requires |src| >= HEADER_SIZE_BYTES && header.KeyLength() == src[2] && header.TotalFrameLength() == FromBigEndian(src[19..23])
    ensures var keyEnd := HEADER_SIZE_BYTES + src[2];
            var total := FromBigEndian(src[19..23]);
            && (total < keyEnd ==> r == Consumed(Failure(Panic(SubtractOverflow)), src[HEADER_SIZE_BYTES..]))
            && (keyEnd <= total && |src| < keyEnd ==> r == Consumed(Failure(Error.Frame(Incomplete)), src[HEADER_SIZE_BYTES..]))
            && (keyEnd <= |src| < total ==> r == Consumed(Failure(Error.Frame(Incomplete)), src[keyEnd..]))
            && (keyEnd <= total <= |src| ==>
                  r == Consumed(Success(Frame.Frame(header, LossyPart(src[HEADER_SIZE_BYTES..keyEnd]), LossyPart(src[keyEnd..total]))),
                           src[total..]))
  {
    var afterHeader := src[HEADER_SIZE_BYTES..];
    var keyLength := header.KeyLength();
    var total := header.TotalFrameLength();
    if total < HEADER_SIZE_BYTES + keyLength then Consumed(Failure(Panic(SubtractOverflow)), afterHeader)
    else
      var valueLength := total - HEADER_SIZE_BYTES - keyLength;
      var k := GetPart(afterHeader, keyLength);
      match k.result
      case Failure(e) => Consumed(Failure(e), k.rest)
      case Success(key) =>
        var v := GetPart(k.rest, valueLength);
        match v.result
        case Failure(e) => Consumed(Failure(e), v.rest)
        case Success(value) =>
          assert afterHeader[..keyLength] == src[HEADER_SIZE_BYTES..HEADER_SIZE_BYTES + keyLength];
          assert k.rest[..valueLength] == src[HEADER_SIZE_BYTES + keyLength..total];
          Consumed(Success(Frame.Frame(header, key, value)), v.rest)
  }

  /** `check` is prefix-stable: more data behind a complete frame does not change it. */
  lemma CheckPrefixStable(b: seq<U8>, c: seq<U8>)
    requires Check(b).Success?
    ensures Check(b + c) == Check(b)
  {
    assert (b + c)[19..23] == b[19..23];
  }

  /** `check` never looks at the opcode or the status byte. */
  lemma CheckIgnoresCodes(b: seq<U8>, op: U8, status: U8)
    requires |b| >= 2
    ensures Check(b[0 := op][1 := status]) == Check(b)
  {
    var c := b[0 := op][1 := status];
    if |b| >= HEADER_SIZE_BYTES {
      assert c[19..23] == b[19..23];
    }
  }

  /** Once `check` has accepted a buffer, `parse` cannot run out of bytes: it either
      fails on the header's codes or lengths, or consumes exactly the checked length. */
  lemma CheckedParseConsumesCheckedLength(kind: FrameKind, src: seq<U8>)
    requires Check(src).Success?
    ensures FrameParse(kind, src).result != Failure(Error.Frame(Incomplete))
    ensures FrameParse(kind, src).result.Success? ==> FrameParse(kind, src).rest == src[Check(src).value..]
    ensures FrameParse(kind, src).result.Success? <==>
              && DecodeHeader(kind, src[..HEADER_SIZE_BYTES]).Success?
              && HEADER_SIZE_BYTES + src[2] <= Check(src).value
  {
    var h := src[..HEADER_SIZE_BYTES];
    assert h[19..23] == src[19..23];
    var d := DecodeHeader(kind, h);
    if d.Success? {
      var keyLength := d.value.KeyLength();
      var total := d.value.TotalFrameLength();
      if total >= HEADER_SIZE_BYTES + keyLength {
        var afterHeader := src[HEADER_SIZE_BYTES..];
        var k := GetPart(afterHeader, keyLength);
        assert k.result.Success?;
        var v := GetPart(k.rest, total - HEADER_SIZE_BYTES - keyLength);
        assert v.result.Success?;
      }
    }
  }
}

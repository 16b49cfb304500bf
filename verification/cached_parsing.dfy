/** The nom-based frame parser of the newer crate (cached/src/parsing.rs). Its
    combinators (`u8`, `be_u128`, `be_u32`, `take`) are the streaming ones: running out
    of input is `Incomplete`, a rejected byte is an error, and the unsigned subtraction
    for the value length aborts when it would go below zero. */
module CachedParsing {
  import opened Wrappers
  import opened BigEndian
  import opened Utf8
  import opened CachedError
  import opened CachedDomain
  import opened CachedPrimitives
  import opened CachedFrameHeader
  import opened CachedFrame
  import CachedFrameMod
  import CachedConnection

  /** The outcome of a nom parser: what is left and what was parsed, or one of the
      ways it can stop. */
  datatype Nom<T> = Done(rest: seq<U8>, output: T) | NomIncomplete | NomError | Aborted(kind: PanicKind)

  datatype RequestPrimitive = RequestPrimitive(opCode: OpCode, ttl: U128, keyBytes: seq<U8>, valueBytes: seq<U8>)

  datatype ResponsePrimitive =
    ResponsePrimitive(opCode: OpCode, status: StatusCode, ttl: U128, keyBytes: seq<U8>, valueBytes: seq<U8>)

  /** The fields after the codes: key length, TTL, total length, key and value, read
      in that order. `restAfterValue` says whether the remainder handed back starts
      after the value (requests) or already after the key (responses, whose parser
      drops the remainder left by the value). */
  function ParseLengthsAndParts(input: seq<U8>, restAfterValue: bool): (r: Nom<(U128, seq<U8>, seq<U8>)>)
    requires |input| >= 2
    ensures r.Done? <==> && |input| >= HEADER_SIZE_BYTES
                         && HEADER_SIZE_BYTES + input[2] <= FromBigEndian(input[19..23]) <= |input|
    ensures r.NomError? == false
    ensures r.Aborted? ==> r.kind == SubtractOverflow
    ensures r.Aborted? <==> && |input| >= HEADER_SIZE_BYTES && |input| >= HEADER_SIZE_BYTES + input[2]
                            && FromBigEndian(input[19..23]) < HEADER_SIZE_BYTES + input[2]
    ensures r.Done? ==>
              && r.output.0 == FromBigEndian(input[3..19])
              && r.output.1 == input[HEADER_SIZE_BYTES..HEADER_SIZE_BYTES + input[2]]
              && r.output.2 == input[HEADER_SIZE_BYTES + input[2]..FromBigEndian(input[19..23])]
              && r.rest == (if restAfterValue then input[FromBigEndian(input[19..23])..]
                            else input[HEADER_SIZE_BYTES + input[2]..])
  {
    if |input| < HEADER_SIZE_BYTES then NomIncomplete
    else
      var keyLength := input[2];
      var ttl := BytesToU128(input[3..19]);
      var totalFrameLength := BytesToU32(input[19..23]);
      if |input| < HEADER_SIZE_BYTES + keyLength then NomIncomplete
      else
        var keyBytes := input[HEADER_SIZE_BYTES..HEADER_SIZE_BYTES + keyLength];
        var afterKey := input[HEADER_SIZE_BYTES + keyLength..];
        if totalFrameLength < HEADER_SIZE_BYTES + keyLength then Aborted(SubtractOverflow)
        else
          var valueLength := totalFrameLength - HEADER_SIZE_BYTES - keyLength;
          if |afterKey| < valueLength then NomIncomplete
          else
            var valueBytes := afterKey[..valueLength];
            assert valueBytes == input[HEADER_SIZE_BYTES + keyLength..totalFrameLength];
            var rest := if restAfterValue then afterKey[valueLength..] else afterKey;
            Done(rest, (ttl, keyBytes, valueBytes))
  }

  /** `parse_request_primitives`. */
  function ParseRequestPrimitives(input: seq<U8>): (r: Nom<RequestPrimitive>)
    ensures |input| == 0 ==> r.NomIncomplete?
    ensures |input| > 0 ==> (r.NomError? <==> OpCodeFromByte(input[0]).Failure?)
    ensures r.Aborted? <==> && |input| >= HEADER_SIZE_BYTES && OpCodeFromByte(input[0]).Success?
                            && |input| >= HEADER_SIZE_BYTES + input[2]
                            && FromBigEndian(input[19..23]) < HEADER_SIZE_BYTES + input[2]
    ensures r.Done? ==> && |input| >= HEADER_SIZE_BYTES
                        && OpCodeToByte(r.output.opCode) == input[0]
                        && HEADER_SIZE_BYTES + input[2] <= FromBigEndian(input[19..23]) <= |input|
                        && r.output.ttl == FromBigEndian(input[3..19])
                        && r.output.keyBytes == input[HEADER_SIZE_BYTES..HEADER_SIZE_BYTES + input[2]]
                        && r.output.valueBytes == input[HEADER_SIZE_BYTES + input[2]..FromBigEndian(input[19..23])]
                        && r.rest == input[FromBigEndian(input[19..23])..]
  {
    if |input| == 0 then NomIncomplete
    else
      match OpCodeFromByte(input[0])
      case Failure(_) => NomError
      case Success(opCode) =>
        if |input| < 2 then NomIncomplete
        else
          match ParseLengthsAndParts(input, true)
          case Done(rest, parts) => Done(rest, RequestPrimitive(opCode, parts.0, parts.1, parts.2))
          case NomIncomplete => NomIncomplete
          case NomError => NomError
          case Aborted(k) => Aborted(k)
  }

  /** `parse_response_primitives`: the status byte is validated too. */
  function ParseResponsePrimitives(input: seq<U8>): (r: Nom<ResponsePrimitive>)
    ensures |input| == 0 ==> r.NomIncomplete?
    ensures |input| > 0 && OpCodeFromByte(input[0]).Failure? ==> r.NomError?
    ensures |input| > 1 ==> (r.NomError? <==> OpCodeFromByte(input[0]).Failure? || StatusFromByte(input[1]).Failure?)
    ensures r.Aborted? <==> && |input| >= HEADER_SIZE_BYTES && OpCodeFromByte(input[0]).Success? && StatusFromByte(input[1]).Success?
                            && |input| >= HEADER_SIZE_BYTES + input[2]
                            && FromBigEndian(input[19..23]) < HEADER_SIZE_BYTES + input[2]
    ensures r.Done? ==> && |input| >= HEADER_SIZE_BYTES
                        && OpCodeToByte(r.output.opCode) == input[0]
                        && StatusToByte(r.output.status) == input[1]
                        && HEADER_SIZE_BYTES + input[2] <= FromBigEndian(input[19..23]) <= |input|
                        && r.output.ttl == FromBigEndian(input[3..19])
                        && r.output.keyBytes == input[HEADER_SIZE_BYTES..HEADER_SIZE_BYTES + input[2]]
                        && r.output.valueBytes == input[HEADER_SIZE_BYTES + input[2]..FromBigEndian(input[19..23])]
                        && r.rest == input[HEADER_SIZE_BYTES + input[2]..]
  {
    if |input| == 0 then NomIncomplete
    else
      match OpCodeFromByte(input[0])
      case Failure(_) => NomError
      case Success(opCode) =>
        if |input| < 2 then NomIncomplete
        else
          match StatusFromByte(input[1])
          case Failure(_) => NomError
          case Success(status) =>
            match ParseLengthsAndParts(input, false)
            case Done(rest, parts) => Done(rest, ResponsePrimitive(opCode, status, parts.0, parts.1, parts.2))
            case NomIncomplete => NomIncomplete
            case NomError => NomError
            case Aborted(k) => Aborted(k)
  }

  /** The `map_err` of both frame parsers: `Incomplete` stays a frame error, anything
      else nom reports becomes `Parse::String`. */
  function NomFailure<T>(n: Nom<T>): (e: Error)
    requires !n.Done?
    ensures n.NomIncomplete? <==> e == Error.Frame(Incomplete)
    ensures n.NomError? <==> e == Parse(StringConversion)
  {
    match n
    case NomIncomplete => Error.Frame(Incomplete)
    case NomError => Parse(StringConversion)
    case Aborted(k) => Panic(k)
  }

  /** An empty slice is no key; otherwise strict UTF-8 decoding, then `Key::parse`. */
  function KeyFromBytes(b: seq<U8>): (r: Result<Option<Key>, Error>)
    ensures r.Success? <==> |b| == 0 || (ValidUtf8(b) && |b| <= MAX_KEY_LENGTH)
    ensures r.Success? ==> r.value == (if |b| == 0 then None else Some(b))
    ensures r.Failure? && !ValidUtf8(b) ==> r.error == Parse(StringConversion)
    ensures r.Failure? && ValidUtf8(b) ==> r.error == Error.Frame(KeyTooLong)
  {
    if |b| == 0 then Success(None)
    else if !ValidUtf8(b) then Failure(Parse(StringConversion))
    else
      var key :- KeyParse(b);
      Success(Some(key))
  }

  /** The same for the value, with `Value::parse`. */
  function ValueFromBytes(b: seq<U8>): (r: Result<Option<Value>, Error>)
    ensures r.Success? <==> |b| == 0 || (ValidUtf8(b) && |b| <= MAX_VALUE_LENGTH)
    ensures r.Success? ==> r.value == (if |b| == 0 then None else Some(b))
    ensures r.Failure? && !ValidUtf8(b) ==> r.error == Parse(StringConversion)
    ensures r.Failure? && ValidUtf8(b) ==> r.error == Error.Frame(ValueTooLong)
  {
    if |b| == 0 then Success(None)
    else if !ValidUtf8(b) then Failure(Parse(StringConversion))
    else
      var value :- ValueParse(b);
      Success(Some(value))
  }

  /** What a complete frame's key and value bytes decode to: the frame is built exactly
      when both are acceptable, its parts are those bytes (none when there are none),
      and otherwise the error is the key's, or failing that the value's. */
  predicate PartsDecoded(input: seq<U8>, ok: bool, key: Option<Key>, value: Option<Value>, error: Error)
    requires |input| >= HEADER_SIZE_BYTES && HEADER_SIZE_BYTES + input[2] <= FromBigEndian(input[19..23]) <= |input|
  {
    var keyBytes := input[HEADER_SIZE_BYTES..HEADER_SIZE_BYTES + input[2]];
    var valueBytes := input[HEADER_SIZE_BYTES + input[2]..FromBigEndian(input[19..23])];
    && (ok <==> KeyFromBytes(keyBytes).Success? && ValueFromBytes(valueBytes).Success?)
    && (ok ==> && key == (if |keyBytes| == 0 then None else Some(keyBytes))
               && value == (if |valueBytes| == 0 then None else Some(valueBytes)))
    && (KeyFromBytes(keyBytes).Failure? ==> error == KeyFromBytes(keyBytes).error)
    && (KeyFromBytes(keyBytes).Success? && ValueFromBytes(valueBytes).Failure? ==> error == ValueFromBytes(valueBytes).error)
  }

  /** `parse_request_frame`: the remainder after the frame is dropped. */
  function ParseRequestFrame(input: seq<U8>): (r: Result<RequestFrame, Error>)
    ensures ParseRequestPrimitives(input).NomIncomplete? <==> r == Failure(Error.Frame(Incomplete))
    ensures ParseRequestPrimitives(input).NomError? ==> r == Failure(Parse(StringConversion))
    ensures ParseRequestPrimitives(input).Aborted? ==> r == Failure(Panic(SubtractOverflow))
    ensures ParseRequestPrimitives(input).Done? ==>
              PartsDecoded(input, r.Success?, if r.Success? then r.value.key else None,
                           if r.Success? then r.value.value else None, if r.Failure? then r.error else Parse(StringConversion))
    ensures r.Success? ==> && ParseRequestPrimitives(input).Done?
                           && OpCodeToByte(r.value.header.opCode) == input[0]
                           && r.value.header.keyLength == input[2]
                           && r.value.header.ttl.inner == FromBigEndian(input[3..19])
                           && r.value.header.totalFrameLength == FromBigEndian(input[19..23])
  {
    match ParseRequestPrimitives(input)
    case Done(_, p) =>
      var key :- KeyFromBytes(p.keyBytes);
      var value :- ValueFromBytes(p.valueBytes);
      var ttl := TtlParse(Some(p.ttl));
      NewRequestFrame(p.opCode, ttl, key, value)
    case stopped => Failure(NomFailure(stopped))
  }

  /** `parse_response_frame`. */
  function ParseResponseFrame(input: seq<U8>): (r: Result<ResponseFrame, Error>)
    ensures ParseResponsePrimitives(input).NomIncomplete? <==> r == Failure(Error.Frame(Incomplete))
    ensures ParseResponsePrimitives(input).NomError? ==> r == Failure(Parse(StringConversion))
    ensures ParseResponsePrimitives(input).Aborted? ==> r == Failure(Panic(SubtractOverflow))
    ensures ParseResponsePrimitives(input).Done? ==>
              PartsDecoded(input, r.Success?, if r.Success? then r.value.key else None,
                           if r.Success? then r.value.value else None, if r.Failure? then r.error else Parse(StringConversion))
    ensures r.Success? ==> && ParseResponsePrimitives(input).Done?
                           && OpCodeToByte(r.value.header.opCode) == input[0]
                           && StatusToByte(r.value.header.status) == input[1]
                           && r.value.header.keyLength == input[2]
                           && r.value.header.ttl.inner == FromBigEndian(input[3..19])
                           && r.value.header.totalFrameLength == FromBigEndian(input[19..23])
  {
    match ParseResponsePrimitives(input)
    case Done(_, p) =>
      var key :- KeyFromBytes(p.keyBytes);
      var value :- ValueFromBytes(p.valueBytes);
      var ttl := TtlParse(Some(p.ttl));
      NewResponseFrame(p.opCode, p.status, ttl, key, value)
    case stopped => Failure(NomFailure(stopped))
  }

  /** An opcode byte outside 1..4 is reported as `Parse::String`, not `InvalidOpCode`. */
  lemma BadOpCodeIsStringError(input: seq<U8>)
    requires |input| > 0 && !(1 <= input[0] <= 4)
    ensures ParseRequestFrame(input) == Failure(Parse(StringConversion))
    ensures ParseResponseFrame(input) == Failure(Parse(StringConversion))
  {
  }

  /** So is a status byte of 4 or more in a response. */
  lemma BadStatusIsStringError(input: seq<U8>)
    requires |input| > 1 && 1 <= input[0] <= 4 && input[1] >= 4
    ensures ParseResponseFrame(input) == Failure(Parse(StringConversion))
  {
  }

  /** Bytes after a complete frame change nothing. */
  lemma TrailingBytesIgnored(input: seq<U8>, tail: seq<U8>)
    requires ParseRequestPrimitives(input).Done?
    ensures ParseRequestFrame(input + tail) == ParseRequestFrame(input)
  {
    var b := input + tail;
    assert ParseRequestPrimitives(b).Done? && ParseRequestPrimitives(b).output == ParseRequestPrimitives(input).output by {
      assert b[..HEADER_SIZE_BYTES] == input[..HEADER_SIZE_BYTES];
      assert b[3..19] == input[3..19] && b[19..23] == input[19..23];
      var total := FromBigEndian(input[19..23]);
      assert b[HEADER_SIZE_BYTES..HEADER_SIZE_BYTES + input[2]] == input[HEADER_SIZE_BYTES..HEADER_SIZE_BYTES + input[2]];
      assert b[HEADER_SIZE_BYTES + input[2]..total] == input[HEADER_SIZE_BYTES + input[2]..total];
    }
  }

  /** The same for responses. */
  lemma ResponseTrailingBytesIgnored(input: seq<U8>, tail: seq<U8>)
    requires ParseResponsePrimitives(input).Done?
    ensures ParseResponseFrame(input + tail) == ParseResponseFrame(input)
  {
    var b := input + tail;
    assert ParseResponsePrimitives(b).Done? && ParseResponsePrimitives(b).output == ParseResponsePrimitives(input).output by {
      assert b[..HEADER_SIZE_BYTES] == input[..HEADER_SIZE_BYTES];
      assert b[3..19] == input[3..19] && b[19..23] == input[19..23];
      var total := FromBigEndian(input[19..23]);
      assert b[HEADER_SIZE_BYTES..HEADER_SIZE_BYTES + input[2]] == input[HEADER_SIZE_BYTES..HEADER_SIZE_BYTES + input[2]];
      assert b[HEADER_SIZE_BYTES + input[2]..total] == input[HEADER_SIZE_BYTES + input[2]..total];
    }
  }

  /** Every proper prefix of a complete request frame is `Incomplete`. */
  lemma ProperPrefixIncomplete(input: seq<U8>, n: nat)
    requires ParseRequestPrimitives(input).Done?
    requires n < FromBigEndian(input[19..23])
    ensures ParseRequestFrame(input[..n]) == Failure(Error.Frame(Incomplete))
  {
    var p := input[..n];
    if n >= HEADER_SIZE_BYTES {
      assert p[19..23] == input[19..23];
    }
  }

  /** A value longer than 1 MiB is refused even when all of it has arrived. */
  lemma OverlongValueRejected(input: seq<U8>)
    requires ParseRequestPrimitives(input).Done?
    requires ValidUtf8(ParseRequestPrimitives(input).output.keyBytes)
    requires ValidUtf8(ParseRequestPrimitives(input).output.valueBytes)
    requires |ParseRequestPrimitives(input).output.valueBytes| > MAX_VALUE_LENGTH
    ensures ParseRequestFrame(input) == Failure(Error.Frame(ValueTooLong))
  {
  }

  /** A TTL field of zero gives a frame with no TTL. */
  lemma ZeroTtlMeansNone(input: seq<U8>)
    requires ParseRequestFrame(input).Success?
    requires FromBigEndian(input[3..19]) == 0
    ensures IntoTtl(ParseRequestFrame(input).value.header.ttl) == None
  {
  }

  /** A typed request frame as the generic writer sees it. */
  function ToWire(f: RequestFrame): CachedFrameMod.Frame {
    CachedFrameMod.Frame.Frame(RequestKind(f.header), f.key, f.value)
  }

  /** The primitives of an encoded request frame are its fields and parts. */
  lemma PrimitivesOfEncode(f: RequestFrame, tail: seq<U8>)
    requires f.header.keyLength == |CachedFrameMod.PartBytes(f.key)|
    requires f.header.totalFrameLength == HEADER_SIZE_BYTES + |CachedFrameMod.PartBytes(f.key)| + |CachedFrameMod.PartBytes(f.value)|
    ensures ParseRequestPrimitives(CachedConnection.Encode(ToWire(f)) + tail)
            == Done(tail, RequestPrimitive(f.header.opCode, f.header.ttl.inner,
                                           CachedFrameMod.PartBytes(f.key), CachedFrameMod.PartBytes(f.value)))
  {
    var key := CachedFrameMod.PartBytes(f.key);
    var value := CachedFrameMod.PartBytes(f.value);
    var e := CachedConnection.Encode(ToWire(f));
    var b := e + tail;
    var total := f.header.totalFrameLength;
    assert |e| == total;
    assert b[0] == OpCodeToByte(f.header.opCode) && b[2] == |key|;
    assert b[3..19] == e[3..19] && b[19..23] == e[19..23];
    assert FromBigEndian(b[19..23]) == total;
    assert b[HEADER_SIZE_BYTES..total] == e[HEADER_SIZE_BYTES..] == key + value;
    assert b[HEADER_SIZE_BYTES..HEADER_SIZE_BYTES + |key|] == key;
    assert b[HEADER_SIZE_BYTES + |key|..total] == value;
    assert b[total..] == tail;
    var q := ParseLengthsAndParts(b, true);
    assert q == Done(tail, (f.header.ttl.inner, key, value));
    CodesRoundTrip(StatusCode.Ok, f.header.opCode);
  }

  /** The nom parser reads back what the connection writes, for every frame built by
      `RequestFrame::new` from text parts that are absent or non-empty, whatever follows it. */
  lemma ParseRequestFrameOfEncode(opCode: OpCode, ttl: Ttl, key: Option<Key>, value: Option<Value>, tail: seq<U8>)
    requires key.Some? ==> |key.value| > 0 && ValidUtf8(key.value)
    requires value.Some? ==> |value.value| > 0 && ValidUtf8(value.value)
    ensures var f := NewRequestFrame(opCode, ttl, key, value).value;
            ParseRequestFrame(CachedConnection.Encode(ToWire(f)) + tail) == Success(f)
  {
    var f := NewRequestFrame(opCode, ttl, key, value).value;
    PrimitivesOfEncode(f, tail);
    assert KeyFromBytes(CachedFrameMod.PartBytes(key)) == Success(key);
    assert ValueFromBytes(CachedFrameMod.PartBytes(value)) == Success(value);
    assert TtlParse(Some(ttl.inner)) == ttl;
  }

  /** A typed response frame as the generic writer sees it. */
  function ResponseToWire(f: ResponseFrame): CachedFrameMod.Frame {
    CachedFrameMod.Frame.Frame(ResponseKind(f.header), f.key, f.value)
  }

  /** The primitives of an encoded response frame are its fields and parts; the rest
      handed back starts after the key. */
  lemma ResponsePrimitivesOfEncode(f: ResponseFrame, tail: seq<U8>)
    requires f.header.keyLength == |CachedFrameMod.PartBytes(f.key)|
    requires f.header.totalFrameLength == HEADER_SIZE_BYTES + |CachedFrameMod.PartBytes(f.key)| + |CachedFrameMod.PartBytes(f.value)|
    ensures ParseResponsePrimitives(CachedConnection.Encode(ResponseToWire(f)) + tail)
            == Done(CachedFrameMod.PartBytes(f.value) + tail,
                    ResponsePrimitive(f.header.opCode, f.header.status, f.header.ttl.inner,
                                      CachedFrameMod.PartBytes(f.key), CachedFrameMod.PartBytes(f.value)))
  {
    var key := CachedFrameMod.PartBytes(f.key);
    var value := CachedFrameMod.PartBytes(f.value);
    var e := CachedConnection.Encode(ResponseToWire(f));
    var b := e + tail;
    var total := f.header.totalFrameLength;
    assert |e| == total;
    assert b[0] == OpCodeToByte(f.header.opCode) && b[1] == StatusToByte(f.header.status) && b[2] == |key|;
    assert b[3..19] == e[3..19] && b[19..23] == e[19..23];
    assert FromBigEndian(b[19..23]) == total;
    assert b[HEADER_SIZE_BYTES..total] == e[HEADER_SIZE_BYTES..] == key + value;
    assert b[HEADER_SIZE_BYTES..HEADER_SIZE_BYTES + |key|] == key;
    assert b[HEADER_SIZE_BYTES + |key|..total] == value;
    assert b[HEADER_SIZE_BYTES + |key|..] == value + tail;
    var q := ParseLengthsAndParts(b, false);
    assert q == Done(value + tail, (f.header.ttl.inner, key, value));
    CodesRoundTrip(f.header.status, f.header.opCode);
  }

  /** The same round trip for responses, as the client reads what the server writes. */
  lemma ParseResponseFrameOfEncode(opCode: OpCode, status: StatusCode, ttl: Ttl, key: Option<Key>, value: Option<Value>,
                                   tail: seq<U8>)
    requires key.Some? ==> |key.value| > 0 && ValidUtf8(key.value)
    requires value.Some? ==> |value.value| > 0 && ValidUtf8(value.value)
    ensures var f := NewResponseFrame(opCode, status, ttl, key, value).value;
            ParseResponseFrame(CachedConnection.Encode(ResponseToWire(f)) + tail) == Success(f)
  {
    var f := NewResponseFrame(opCode, status, ttl, key, value).value;
    ResponsePrimitivesOfEncode(f, tail);
    assert KeyFromBytes(CachedFrameMod.PartBytes(key)) == Success(key);
    assert ValueFromBytes(CachedFrameMod.PartBytes(value)) == Success(value);
    assert TtlParse(Some(ttl.inner)) == ttl;
  }
}

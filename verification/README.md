# cached — a Dafny model of the key/value cache's protocol and stores

`cached` is a small in-memory key/value cache server with a binary, length-prefixed
wire protocol and an interactive command-line client. This project models, in Dafny,
the parts of it that decide what goes over the wire and what the stores do with it.
It covers two generations of the code:

* the newer crate (`cached/`):
  * the 23-byte frame header (opcode, status or padding, key length, a big-endian
    u128 TTL in milliseconds since the Unix epoch, a big-endian u32 total frame length);
  * frame `check`/`parse`, and the nom-based parser of the same frames;
  * the request/response conversions;
  * the connection's `write_frame`, `parse_frame` and `read_frame`;
  * the `MainDB` store with its TTL expiry, and the server's request dispatch;
* the older tree (`src/`):
  * the 7-byte frame codec of `src/frame.rs` (no TTL) and the 23-byte header of
    `src/frame/header.rs`;
  * its request/response conversions, its connection;
  * its TTL-aware `Db`, and its server's dispatch over a plain map;
* the client shell's command parser (`cached-client/src/input_parsing.rs`).

## Representation

* A Rust `String` on the wire is its UTF-8 bytes, `seq<U8>`; the client's input lines
  are `string`.
* `Key` and `Value` are subset types of byte sequences, at most 255 bytes and at most
  1 MiB; only `Key::parse` and `Value::parse` (`CachedDomain.KeyParse`,
  `CachedDomain.ValueParse`) produce them.
* Fixed-width integers are `U8`, `U32` and `U128` subset types. Big-endian encoding
  is `BigEndian`.
* Strict and lossy UTF-8 decoding (`String::from_utf8`, `String::from_utf8_lossy`,
  with the maximal-subpart replacement rule of the Unicode Standard, section 3.9) is
  `Utf8`.
* Every fallible operation returns `Result<T, Error>`. `Error` mirrors
  `cached/src/error.rs`:
  * it adds the `Parse::String` variant (`StringConversion`), which
    `cached/src/parsing.rs` uses but the error file does not declare;
  * it adds a `Panic` variant for the places where the code would abort: an unsigned
    subtraction below zero, or `copy_to_bytes` on a too-short buffer. Debug-build
    behaviour is modelled.
* A read from a buffer returns `Consumed(result, rest)`: what it produced and what is
  left of the buffer.
* The clock is a parameter `now` (milliseconds since the Unix epoch). Socket reads
  are a sequence of chunks.
* `src/error.rs`, `src/domain.rs` and `src/primitives.rs` are the same code as their
  counterparts in `cached/src/`, so the `Cached*` modules serve both trees:
  * the old `Status` enum is `StatusCode`;
  * the old error enums lack `Parse::String` and some connection errors, which the old
    code never produces.
* `src/frame.rs` reports its own local `FrameError`, while `src/connection.rs` matches
  on `crate::error`'s `Error::Frame`. The model treats both as `Error.Frame`, which is
  what the connection evidently intends.
* Two behaviours of the server worth knowing up front:
  * `Set` of a key that is already stored answers `KeyExists` and leaves the stored
    value alone;
  * a TTL field of 0 in a request means the entry has no TTL.

## Model

| member | source | states |
|---|---|---|
| BigEndian.FromToBigEndian | cached/src/connection.rs:127-139 | decoding the width-byte big-endian encoding of a number that fits gives the number back |
| BigEndian.ToFromBigEndian | cached/src/frame/header.rs:78-81 | re-encoding the number read from a byte string gives the same bytes |
| BigEndian.FromBigEndianZeros | cached/src/frame/header.rs:79-80 | an all-zero field reads as 0 |
| BigEndian.ToBigEndianInjective | cached/src/connection.rs:127-139 | distinct numbers that fit the width have distinct encodings |
| BigEndian.U32ToBytes | cached/src/connection.rs:136-139 | `write_u32` gives four bytes that `get_u32` reads back as the same number |
| BigEndian.U128ToBytes | cached/src/connection.rs:127-135 | `write_u128` gives sixteen bytes that `get_u128` reads back as the same number |
| BigEndian.BytesToU32 | cached/src/frame/header.rs:81 | `get_u32` is the big-endian number of the four bytes, and writing it back gives those bytes |
| BigEndian.BytesToU128 | cached/src/frame/header.rs:79-80 | `get_u128` is the big-endian number of the sixteen bytes, and writing it back gives those bytes |
| Utf8.MaximalSubpart | cached/src/frame/mod.rs:114 | the span `from_utf8_lossy` treats as one unit: never longer than the input or than its lead byte's sequence width, and the full width exactly when a complete well-formed scalar starts the input |
| Utf8.ValidConcat | cached/src/parsing.rs:31-44 | well-formed text followed by well-formed text is well-formed |
| Utf8.SingleScalarValid | cached/src/parsing.rs:31-44 | one complete well-formed scalar encoding is valid UTF-8 |
| Utf8.AsciiValid | cached/src/connection.rs:187-211 | ASCII bytes, such as the key and value of the connection's `Set` test frame, are valid UTF-8 |
| Utf8.LossyIsValid | cached/src/frame/mod.rs:110-116 | whatever bytes arrive, `get_string` yields well-formed text |
| Utf8.LossyOfValid | cached/src/frame/mod.rs:110-116 | `from_utf8_lossy` leaves well-formed text unchanged |
| Utf8.LossyIdentityIffValid | cached/src/frame/mod.rs:114 | the lossy decoding is the identity exactly on valid UTF-8 (both directions) |
| Utf8.LossyExamples | src/frame.rs:124 | a lone continuation byte and a truncated lead each become a single U+FFFD |
| CachedDomain.KeyParse | cached/src/domain.rs:57-63 | succeeds iff the key has at most 255 bytes, returning it unchanged; otherwise `KeyTooLong` |
| CachedDomain.ValueParse | cached/src/domain.rs:35-40 | succeeds iff the value has at most 1 MiB, returning it unchanged; otherwise `ValueTooLong` |
| CachedDomain.KeyLen | cached/src/domain.rs:69-72 | the `as u8` length equals the byte length, with no truncation |
| CachedDomain.ValueLen | cached/src/domain.rs:46-49 | the `as u32` length equals the byte length, with no truncation |
| CachedDomain.TtlParse | cached/src/domain.rs:96-104 | `None` is stored as 0 and `Some(t)` as t |
| CachedDomain.IntoTtl | cached/src/domain.rs:110-115 | 0 reads as "no TTL", any other value as itself |
| CachedDomain.IntoTtlOfParse | cached/src/domain.rs:96-115 | parse then `into_ttl` returns the TTL, except that `Some(0)` comes back as `None` |
| CachedDomain.IntoInnerOfParse | cached/src/domain.rs:96-108 | parse of `Some(t)` then `into_inner` returns t |
| CachedDomain.LengthLimits | cached/src/frame.rs:186-220 | 255-byte keys and 1 MiB values are accepted; one byte more is refused |
| CachedPrimitives.StatusToByte | cached/src/primitives.rs:9-14 | every status is written as a byte below 4, the range `try_from` accepts |
| CachedPrimitives.StatusFromByte | cached/src/primitives.rs:27-39 | succeeds iff the byte is below 4, inverting the discriminant; otherwise `InvalidStatusCode` |
| CachedPrimitives.OpCodeToByte | cached/src/primitives.rs:44-49 | every opcode is written as a byte in 1..4, the range `try_from` accepts |
| CachedPrimitives.OpCodeFromByte | cached/src/primitives.rs:51-63 | succeeds iff the byte is 1..4, inverting the discriminant; otherwise `InvalidOpCode` |
| CachedPrimitives.CodesRoundTrip | cached/src/primitives.rs:27-63 | decoding a code's byte gives the code back |
| CachedPrimitives.CodesInjective | cached/src/primitives.rs:9-14 | different codes have different bytes |
| CachedFrameHeader.DecodeRequestHeader | cached/src/frame/header.rs:69-90 | fewer than 23 bytes is `Incomplete`; a bad opcode is `InvalidOpCode`; otherwise the fields are the bytes at their offsets, big-endian |
| CachedFrameHeader.DecodeResponseHeader | cached/src/frame/header.rs:92-114 | as for requests; byte 1 must also be a status code, checked after the opcode |
| CachedFrameHeader.RequestHeaderIgnoresByteOne | cached/src/frame/header.rs:72-77 | a request header decodes the same whatever its second byte |
| CachedFrameHeader.HeaderDecodeReadsOnlyHeaderBytes | cached/src/frame/header.rs:69-114 | bytes after the 23rd do not affect either decoder |
| CachedFrame.KeyLengthOf | cached/src/frame.rs:26 | the key length is the key's byte count, 0 when absent |
| CachedFrame.ValueLengthOf | cached/src/frame.rs:27 | the value length is the value's byte count, 0 when absent |
| CachedFrame.NewRequestFrame | cached/src/frame.rs:51-69 | never fails; the header holds the opcode, TTL, key length and total 23 + key + value, and the parts are kept |
| CachedFrame.NewResponseFrame | cached/src/frame.rs:19-39 | never fails; the same lengths, plus the status |
| CachedFrame.ZeroTtlFieldMeansNoTtl | cached/src/frame.rs:133-154 | a TTL field of sixteen zero bytes decodes to "no TTL" |
| CachedFrameMod.DecodeHeader | cached/src/frame/mod.rs:39 | the header decoder of the frame's kind: the result has that kind and agrees with the kind's decoder |
| CachedFrameMod.Check | cached/src/frame/mod.rs:23-32 | `Incomplete` below 23 bytes or below the stated total; otherwise the stated total, with no look at opcode or status |
| CachedFrameMod.GetString | cached/src/frame/mod.rs:110-116 | short input is `Incomplete` and consumes nothing; otherwise exactly len bytes are taken and the result is their lossy decoding |
| CachedFrameMod.GetStringOfValid | cached/src/frame/mod.rs:110-116 | well-formed text comes back exactly as sent |
| CachedFrameMod.GetPart | cached/src/frame/mod.rs:43-50 | length 0 is `None` and takes nothing; otherwise `get_string`: the lossy decoding of the next len bytes |
| CachedFrameMod.FrameParse | cached/src/frame/mod.rs:35-52 | a short header aborts; otherwise the 23 header bytes are consumed whatever follows: a bad header fails with the decoder's error, a total below 23 + key length aborts, a short key or value is `Incomplete`; on success the frame is the decoded header with the lossy decodings of the key and value byte ranges (`None` when empty), and the rest starts at the total length |
| CachedFrameMod.ParseParts | cached/src/frame/mod.rs:40-51 | with the header decoded: a total below 23 + key length aborts, a short key or value is `Incomplete`, and otherwise the key and value are the lossy decodings of their byte ranges, with the rest starting at the total length |
| CachedFrameMod.CheckPrefixStable | cached/src/frame/mod.rs:23-32 | once `check` accepts a buffer, appending bytes does not change its answer |
| CachedFrameMod.CheckIgnoresCodes | cached/src/frame/mod.rs:23-32 | `check` gives the same answer whatever the opcode and status bytes |
| CachedFrameMod.CheckedParseConsumesCheckedLength | cached/src/frame/mod.rs:23-52 | after a successful check, parse cannot run short: it fails on codes or lengths, or consumes exactly the checked length |
| CachedConnection.Encode | cached/src/connection.rs:104-157 | the bytes written are the opcode, status or padding, key length, TTL (16 bytes), total (4 bytes), key and value, in that order |
| CachedConnection.EncodedLengthIsTotal | cached/src/connection.rs:104-157 | a consistent frame's encoding is exactly its total frame length long |
| CachedConnection.ParseFrame | cached/src/connection.rs:161-175 | `Incomplete` from `check` reports nothing and keeps the buffer; once `check` passes, the result is `parse`'s: a frame, with the buffer advanced by the checked length, or `parse`'s error (a bad code or `SubtractOverflow`) with the 23 header bytes already consumed |
| CachedConnection.DecodeEncodedHeader | cached/src/connection.rs:115-139 | the header bytes written decode to the frame's header |
| CachedConnection.ParseOfEncode | cached/src/frame/mod.rs:35-52 | parse inverts `write_frame` on text frames and consumes exactly the encoded bytes |
| CachedConnection.ParseFrameOfEncode | cached/src/connection.rs:161-175 | an encoded frame followed by anything parses back to that frame, leaving exactly what followed |
| CachedConnection.ParseFrameOfProperPrefix | cached/src/connection.rs:161-175 | every proper prefix of an encoded frame reports nothing and consumes nothing |
| CachedConnection.PipelinedFrames | cached/src/connection.rs:161-175 | two back-to-back frames come out one at a time, in order |
| CachedConnection.SetVectorEncodes | cached/src/connection.rs:187-211 | the byte vector of the connection test is the encoding of a `Set` frame |
| CachedConnection.SetVectorParses | cached/src/connection.rs:187-211 | that vector parses to the frame and empties the buffer |
| CachedConnection.ReadFrame | cached/src/connection.rs:68-95 | a frame or an error already in the buffer is returned without reading; at the end of the stream, an empty buffer is a clean close and anything else is `ResetByPeer`, with the buffer kept |
| CachedConnection.EndOfStream | cached/src/connection.rs:81-92 | end of stream with an empty buffer is `Ok(None)`; otherwise `ResetByPeer` |
| CachedConnection.ReadFrameDelivers | cached/src/connection.rs:68-95 | however a frame's bytes are split across non-empty reads, `read_frame` delivers it |
| CachedParsing.ParseLengthsAndParts | cached/src/parsing.rs:60-79 | succeeds iff 23 header bytes are there and 23 + key length <= total <= input length; aborts with `SubtractOverflow` exactly when the key has arrived and the total is below 23 + key length; never a nom error; the parts are the byte ranges the lengths state |
| CachedParsing.ParseRequestPrimitives | cached/src/parsing.rs:60-79 | empty input is `Incomplete`; a bad opcode is a nom error; it aborts exactly when the opcode is good and the lengths abort; on success the fields are the header bytes, the parts are the stated ranges, and the rest follows the value |
| CachedParsing.ParseResponsePrimitives | cached/src/parsing.rs:131-151 | as for requests, with a status check that is also a nom error; the rest handed back starts after the key |
| CachedParsing.NomFailure | cached/src/parsing.rs:47-50 | nom `Incomplete` maps to the frame's `Incomplete`; any other nom error maps to `Parse::String` |
| CachedParsing.KeyFromBytes | cached/src/parsing.rs:28-37 | an empty slice is no key; otherwise it must be valid UTF-8 (`Parse::String`) and at most 255 bytes (`KeyTooLong`) |
| CachedParsing.ValueFromBytes | cached/src/parsing.rs:38-47 | the same for the value, with 1 MiB and `ValueTooLong` |
| CachedParsing.ParseRequestFrame | cached/src/parsing.rs:12-51 | `Incomplete` exactly when the primitives are incomplete; other nom errors are `Parse::String` and an abort is `SubtractOverflow`; a complete frame is accepted iff its key and value bytes are acceptable, and then its parts are those bytes (`None` when empty), else the error is the key's or the value's; the header fields are the bytes at their offsets |
| CachedParsing.ParseResponseFrame | cached/src/parsing.rs:81-121 | the same for responses, including the status byte: the nom-level outcomes, acceptance iff key and value bytes are acceptable, the parts and the header fields |
| CachedParsing.BadOpCodeIsStringError | cached/src/parsing.rs:12-51 | an opcode byte outside 1..4 is reported as `Parse::String`, not `InvalidOpCode` |
| CachedParsing.BadStatusIsStringError | cached/src/parsing.rs:81-121 | a status byte of 4 or more is reported as `Parse::String` |
| CachedParsing.TrailingBytesIgnored | cached/src/parsing.rs:12-51 | bytes after a complete frame do not change the result |
| CachedParsing.ResponseTrailingBytesIgnored | cached/src/parsing.rs:81-121 | the same for responses |
| CachedParsing.ProperPrefixIncomplete | cached/src/parsing.rs:60-79 | every proper prefix of a complete request frame is `Incomplete` |
| CachedParsing.OverlongValueRejected | cached/src/parsing.rs:38-47 | a value over 1 MiB is refused with `ValueTooLong` even when it has fully arrived |
| CachedParsing.ZeroTtlMeansNone | cached/src/parsing.rs:48-49 | a zero TTL field gives a frame without a TTL |
| CachedParsing.PrimitivesOfEncode | cached/src/parsing.rs:60-79 | the primitives read from a written request frame, with or without key and value, are its fields and parts, and the rest is what followed |
| CachedParsing.ResponsePrimitivesOfEncode | cached/src/parsing.rs:131-151 | the same for a written response frame; the rest handed back starts after the key |
| CachedParsing.ParseRequestFrameOfEncode | cached/src/parsing.rs:12-51 | the nom parser reads back every request frame the connection writes, including `Get`, `Delete` and `Flush` frames, whatever follows, as long as present parts are non-empty text |
| CachedParsing.ParseResponseFrameOfEncode | cached/src/parsing.rs:81-121 | the same for response frames, as the client reads what the server writes |
| CachedRequest.RequestToFrame | cached/src/request.rs:19-42 | never fails; the frame's opcode matches the request; only `Set` carries a value and a TTL; the key and value are carried over |
| CachedRequest.FrameToRequest | cached/src/request.rs:44-84 | succeeds iff the frame has the parts its opcode needs and no others; otherwise the error named by the first missing or unexpected part |
| CachedRequest.RequestRoundTrip | cached/src/request.rs:19-84 | request to frame and back is the identity, except that a `Some(0)` TTL returns as `None` |
| CachedRequest.FrameRoundTrip | cached/src/request.rs:19-84 | a well-shaped frame with a TTL its request can carry is rebuilt exactly |
| CachedRequest.InvalidFramesOfConversionTests | cached/src/request.rs:126-168 | each invalid frame of the conversion tests is refused with its error |
| CachedResponse.ResponseToFrame | cached/src/response.rs:68-85 | never fails; only a found `Get` carries key, value and TTL; opcode and status carry over |
| CachedResponse.EnsureKeyAndValueAreNone | cached/src/response.rs:140-148 | succeeds iff neither part is present; a key is reported before a value |
| CachedResponse.FrameToResponse | cached/src/response.rs:87-138 | a `Get` frame lacking a part is an error only under status `Ok`; other opcodes must carry no parts; status and opcode carry over |
| CachedResponse.ResponseRoundTrip | cached/src/response.rs:68-138 | response to frame and back is the identity, except a `Some(0)` TTL and "not found" under status `Ok` |
| CachedDb.Empty | cached/src/db.rs:47-52 | the new store is empty and consistent |
| CachedDb.Get | cached/src/db.rs:75-97 | returns the entry iff it is present and not expired (TTL strictly before now); an expired entry is removed from both collections; otherwise nothing changes |
| CachedDb.Insert | cached/src/db.rs:99-119 | a TTL at or before now stores nothing; otherwise the entry replaces the old one and a TTL records the key; consistency is kept |
| CachedDb.Remove | cached/src/db.rs:121-124 | only the given key leaves both collections |
| CachedDb.Clear | cached/src/db.rs:126-129 | both collections become empty |
| CachedDb.ContainsKey | cached/src/db.rs:61-63 | raw presence, whether or not the entry has expired |
| CachedDb.HandleRequest | cached/src/db.rs:54-73 | only `Get` of a live key and `ContainsKey` answer; consistency is kept |
| CachedDb.TtlEqualToNow | cached/src/db.rs:81-109 | `insert` refuses a TTL equal to now, yet `get` returns a stored entry whose TTL equals now |
| CachedDb.InsertThenGet | cached/src/db.rs:75-119 | what was inserted is read back until its TTL has passed |
| CachedDb.InsertThenGetExpired | cached/src/db.rs:75-119 | once the TTL has passed, `get` answers nothing and drops the key from both collections |
| CachedDb.StaleTtlKey | cached/src/db.rs:99-119 | overwriting a TTL'd entry without a TTL leaves its key in `keys_with_ttl` |
| CachedServer.EmptyIsGood | cached/src/db.rs:47-52 | the new store satisfies the handler's invariant |
| CachedServer.HandleRequest | cached/src/server.rs:181-221 | keeps the store invariant; the response opcode matches the request; the status is Ok, KeyNotFound or KeyExists |
| CachedServer.GetAnswers | cached/src/server.rs:183-193 | `Get` answers `Ok` with the live entry and its TTL, otherwise `KeyNotFound` |
| CachedServer.SetAnswers | cached/src/server.rs:194-207 | `Set` of a present key answers `KeyExists` and changes nothing; otherwise `Ok`, storing the entry unless its TTL has passed |
| CachedServer.DeleteAnswers | cached/src/server.rs:208-215 | `Delete` of an absent key answers `KeyNotFound` and changes nothing; otherwise it removes that key and answers `Ok` |
| CachedServer.FlushAnswers | cached/src/server.rs:216-219 | `Flush` empties the store and answers `Ok` |
| CachedServer.SetOnExpiredUnreadKey | cached/src/server.rs:198-200 | an expired key nobody has read since still makes `Set` answer `KeyExists` |
| CachedServer.SetGetDeleteSequence | cached/tests/main.rs:194-226 | set then get returns the value; delete then get answers `KeyNotFound` |
| LegacyFrame.ValidateKeyLength | src/frame.rs:166-173 | an absent key counts as 0; more than 255 bytes is `KeyTooLong` |
| LegacyFrame.ValidateValueLength | src/frame.rs:175-182 | an absent value counts as 0; more than 1 MiB is `ValueTooLong` |
| LegacyFrame.KeyAndTotalFrameLength | src/frame.rs:184-192 | succeeds iff both limits hold, key judged first; the total is 7 + key + value |
| LegacyFrame.RequestHeaderParse | src/frame.rs:146-158 | blank byte 0, the opcode and the part lengths; fails exactly as the validators do |
| LegacyFrame.ResponseHeaderParse | src/frame.rs:228-241 | the same with the status |
| LegacyFrame.LengthLimits | src/frame.rs:419-515 | 255-byte keys and 1 MiB values give total 1048838; one byte more is refused |
| LegacyFrame.DecodeRequestHeader | src/frame.rs:269-288 | 7 bytes: opcode, blank, key length, big-endian total; a bad opcode is `InvalidOpCode` |
| LegacyFrame.DecodeResponseHeader | src/frame.rs:290-309 | the same with the status in byte 1 |
| LegacyFrame.DecodeHeader | src/frame.rs:38 | the decoder of the frame's kind |
| LegacyFrame.Check | src/frame.rs:34-44 | under 7 bytes is `Incomplete`; the header is decoded first, so bad codes fail here; a total below 7 aborts; too few bytes after the header is `Incomplete`; otherwise the total |
| LegacyFrame.FrameParse | src/frame.rs:46-63 | a short header aborts; otherwise a bad header fails with the decoder's error, a total below 7 + key length aborts, a short key or value is `Incomplete`; on success the frame is the decoded header with the lossy decodings of the key and value byte ranges (`None` when empty), and the rest starts at the total length |
| LegacyFrame.ParseParts | src/frame.rs:48-62 | the same after the 7-byte header |
| LegacyFrame.HeaderDecodeReadsOnlyHeaderBytes | src/frame.rs:269-309 | bytes after the 7th do not affect decoding |
| LegacyFrame.CheckPrefixStable | src/frame.rs:34-44 | once `check` accepts a buffer, appending bytes does not change its answer |
| LegacyFrame.CheckedParseConsumesCheckedLength | src/frame.rs:34-63 | after a successful check, parse succeeds iff the key fits the total, and then consumes exactly the checked length; otherwise it aborts |
| LegacyFrameHeader.KeyAndTotalFrameLength | src/frame/header.rs:205-210 | succeeds iff both limits hold, key judged first; the total is 23 + key + value |
| LegacyFrameHeader.RequestHeaderParse | src/frame/header.rs:32-47 | padding 0, the part lengths, and the TTL with `Some(0)` folded into "no TTL" |
| LegacyFrameHeader.ResponseHeaderParse | src/frame/header.rs:89-105 | the part lengths and the status; the TTL is always "no TTL" |
| LegacyFrameHeader.DecodeRequestHeader | src/frame/header.rs:138-160 | 23 bytes with the fields at their offsets; a bad opcode is `InvalidOpCode` |
| LegacyFrameHeader.DecodeResponseHeader | src/frame/header.rs:162-184 | the same, with a status check after the opcode check |
| LegacyFrameHeader.RequestHeaderBytes | src/frame/header.rs:138-160 | the reference layout is 23 bytes long |
| LegacyFrameHeader.ResponseHeaderBytes | src/frame/header.rs:162-184 | the reference layout is 23 bytes long |
| LegacyFrameHeader.DecodeRequestHeaderOfBytes | src/frame/header.rs:138-160 | decoding the layout, whatever follows, returns the header |
| LegacyFrameHeader.DecodeResponseHeaderOfBytes | src/frame/header.rs:162-184 | decoding the layout, whatever follows, returns the header |
| LegacyFrameHeader.ZeroTtlFieldMeansNoTtl | src/frame/header.rs:148-149 | a zero TTL field decodes to "no TTL" |
| LegacyFrameHeader.LengthLimits | src/frame/header.rs:216-311 | 255-byte keys and 1 MiB values give total 1048854; one byte more is refused |
| LegacyConnection.Encode | src/connection.rs:69-113 | the bytes written are the opcode, status or blank, key length, total (4 bytes), key and value |
| LegacyConnection.EncodedLengthOfParsedHeaders | src/connection.rs:69-113 | a frame made by the header constructors encodes to exactly its total length |
| LegacyConnection.ParseFrame | src/connection.rs:52-67 | `Incomplete` reports nothing and keeps the buffer; errors propagate with the buffer kept, since parsing runs on a separate cursor; once `check` passes, it succeeds iff the key length fits the total, with `parse`'s frame, and fails only with `SubtractOverflow`; on success the buffer advances by the checked length |
| LegacyConnection.BadOpCodeFailsEarly | src/frame.rs:34-38 | an invalid opcode is reported once 7 bytes are buffered, before the rest arrives |
| LegacyConnection.DecodeEncodedHeader | src/frame.rs:269-309 | the header bytes written decode to the frame's header |
| LegacyConnection.CheckOfEncode | src/frame.rs:34-44 | `check` accepts an encoded frame, whatever follows, with its length |
| LegacyConnection.ParseOfEncode | src/frame.rs:46-63 | parse inverts `write_frame` on text frames and consumes exactly the encoded bytes |
| LegacyConnection.ParseFrameOfEncode | src/connection.rs:52-67 | an encoded frame followed by anything parses back to that frame, leaving what followed |
| LegacyConnection.ParseFrameOfProperPrefix | src/connection.rs:52-67 | every proper prefix of an encoded frame reports nothing and consumes nothing |
| LegacyConnection.PipelinedFrames | src/connection.rs:52-67 | back-to-back frames come out one at a time, in order |
| LegacyConnection.EndOfStream | src/connection.rs:37-48 | end of stream with an empty buffer is `Ok(None)`; otherwise `ResetByPeer` |
| LegacyConnection.ReadFrame | src/connection.rs:24-50 | a frame or an error already in the buffer is returned without reading; at the end of the stream, an empty buffer is a clean close and anything else is `ResetByPeer`, with the buffer kept |
| LegacyConnection.ReadFrameDelivers | src/connection.rs:24-50 | however a frame's bytes are split across non-empty reads, `read_frame` delivers it |
| LegacyRequest.NewRequestFrame | src/request.rs:16-36 | the header constructor followed by the frame: fails exactly as the constructor does, otherwise keeps opcode and parts |
| LegacyRequest.RequestToFrame | src/request.rs:13-37 | succeeds iff the key has at most 255 bytes and a `Set` value at most 1 MiB (key first); the parts carry over |
| LegacyRequest.FrameToRequest | src/request.rs:39-75 | succeeds iff the frame has the parts its opcode needs and no others; otherwise the error in the source's checking order |
| LegacyRequest.RequestRoundTrip | src/request.rs:13-75 | within the limits, request to frame and back is the identity |
| LegacyRequest.FrameRoundTrip | src/request.rs:13-75 | a well-shaped frame is rebuilt exactly |
| LegacyRequest.InvalidFramesOfConversionTests | src/request.rs:117-160 | each invalid frame of the conversion tests is refused with its error |
| LegacyRequest.WireRoundTrip | src/connection.rs:52-113 | a request with a non-empty text key (and value, for `Set`) is written, parsed back and converted to the same request, leaving what followed |
| LegacyRequest.EmptyKeyLostOnTheWire | src/frame.rs:54-57 | a `Get` with an empty key comes back with no key and is refused as `KeyMissing` |
| LegacyResponse.ResponseToFrame | src/response.rs:31-46 | fails iff a found entry breaks a limit (key first); only a found `Get` carries key and value |
| LegacyResponse.FrameToResponse | src/response.rs:48-91 | a `Get` frame lacking a part is an error only under status `Ok`; other opcodes must carry no parts |
| LegacyResponse.ResponseRoundTrip | src/response.rs:31-91 | within the limits, response to frame and back is the identity, except "not found" under status `Ok` |
| LegacyDb.Insert | src/db.rs:46-55 | always stores the entry, whatever its TTL; other keys are unchanged |
| LegacyDb.Get | src/db.rs:57-78 | returns the entry iff it is present and its TTL is not strictly before now; nothing is removed |
| LegacyDb.Remove | src/db.rs:80-83 | only the given key goes |
| LegacyDb.ContainsKey | src/db.rs:85-87 | raw presence, whether or not the entry has expired |
| LegacyDb.Clear | src/db.rs:89-91 | no key is left |
| LegacyDb.InsertThenGet | src/db.rs:46-78 | an insertion is read back unless its own TTL has passed |
| LegacyDb.ExpiredStaysStored | src/db.rs:57-87 | an expired entry is hidden from `get` at that time and every later one, yet `contains_key` still sees it |
| LegacyDb.RemoveAndClearForget | src/db.rs:57-91 | after `remove` the key is gone and other keys read as before; after `clear` nothing is found |
| LegacyServer.HandleRequest | src/server.rs:138-176 | the opcode matches; the status is Ok, KeyNotFound or KeyExists; other keys are unchanged; `Get` and every non-Ok answer leave the map unchanged |
| LegacyServer.GetAnswers | src/server.rs:140-152 | `Get` answers `Ok` with the stored value, otherwise `KeyNotFound` |
| LegacyServer.SetAnswers | src/server.rs:153-161 | `Set` on a vacant key stores the value and answers `Ok`; on an occupied key it answers `KeyExists` and keeps the old value |
| LegacyServer.DeleteAnswers | src/server.rs:162-169 | `Delete` leaves the key absent and answers `Ok` iff it was present |
| LegacyServer.FlushAnswers | src/server.rs:170-173 | `Flush` empties the map and answers `Ok` |
| LegacyServer.SetGetDeleteSequence | tests/main.rs:86-129 | the delete scenarios of the integration tests: set, get, delete, get, delete give Ok, the value, Ok, KeyNotFound, KeyNotFound |
| ClientInput.TagNoCase | cached-client/src/input_parsing.rs:15 | matches iff the input begins with the tag in any case; the rest follows the tag |
| ClientInput.SpaceRun | cached-client/src/input_parsing.rs:26 | the run of spaces and tabs at the front: all blank, and followed by a non-blank or nothing |
| ClientInput.Space1 | cached-client/src/input_parsing.rs:26 | takes the whole leading run of spaces and tabs, and fails recoverably when there is none |
| ClientInput.IndexOf | cached-client/src/input_parsing.rs:72 | the position of the first occurrence, or none when the character is absent |
| ClientInput.TakeUntil1 | cached-client/src/input_parsing.rs:52 | everything before the first occurrence, which must exist and not be at the front |
| ClientInput.CutFailure | cached-client/src/input_parsing.rs:26 | a recoverable failure becomes final; anything else is unchanged |
| ClientInput.WithContext | cached-client/src/input_parsing.rs:27-30 | a failure gets the label appended; a success is unchanged |
| ClientInput.FirstLineIsWord | cached-client/src/input_parsing.rs:69-74 | the first line is a key-or-value word iff it is non-empty and has no space |
| ClientInput.ParseWordUntilNewline | cached-client/src/input_parsing.rs:69-74 | succeeds iff the first line is non-empty and space-free, leaving the newline; otherwise a final failure |
| ClientInput.ParseFlush | cached-client/src/input_parsing.rs:14-16 | `flush` in any case gives the `Flush` request |
| ClientInput.ParseExit | cached-client/src/input_parsing.rs:18-20 | `exit` in any case gives no request |
| ClientInput.ParseKeyCommand | cached-client/src/input_parsing.rs:22-45 | a failed command word backtracks, and any later failure is final; a success is the word in any case, blanks, a key word that starts with a non-blank, and a rest that starts with a newline |
| ClientInput.KeyCommandOfShape | cached-client/src/input_parsing.rs:22-45 | conversely, every input of that shape parses, to exactly that key and rest |
| ClientInput.StepsOfShape | cached-client/src/input_parsing.rs:22-45 | on an input of that shape the command word, the blanks and the key step each succeed |
| ClientInput.TagOfShape | cached-client/src/input_parsing.rs:15 | the command word of an input of that shape matches, leaving the blanks, the key and the rest |
| ClientInput.WordBeforeNewline | cached-client/src/input_parsing.rs:69-74 | a word followed by a rest that starts with a newline is what the key and value parser takes |
| ClientInput.ShapeOfParts | cached-client/src/input_parsing.rs:22-45 | the pieces the parser takes put together make the command's shape |
| ClientInput.ParseGet | cached-client/src/input_parsing.rs:22-34 | `get KEY` gives `Get(KEY)`; a missing key is a final failure labelled "Expected key" |
| ClientInput.ParseDelete | cached-client/src/input_parsing.rs:36-45 | `delete KEY` gives `Delete(KEY)`; a missing key fails without the label |
| ClientInput.ParseSet | cached-client/src/input_parsing.rs:47-67 | a failed `set` word backtracks, and any later failure is final; a success is `Set` without TTL, and the input is `set` in any case, blanks, the key (up to the first space), a gap starting with a space, the value up to the newline, and the rest |
| ClientInput.SetShapeOfParts | cached-client/src/input_parsing.rs:47-67 | the pieces `parse_set` takes put together make that shape |
| ClientInput.ParseInput | cached-client/src/input_parsing.rs:10-20 | when every command fails recoverably the error is a tag error with `Alt`; every success is one of the five command forms, with the command that form gives and the rest it leaves |
| ClientInput.ConvertError | cached-client/src/input_parsing.rs:76-83 | the label of the first context entry, or none when there is none |
| ClientInput.Space1Splits | cached-client/src/input_parsing.rs:26 | `space1` takes exactly a leading blank run followed by a non-blank |
| ClientInput.SpaceRunOf | cached-client/src/input_parsing.rs:26 | the measured run of blanks in front of a non-blank is exactly that run |
| ClientInput.WordThenNewline | cached-client/src/input_parsing.rs:69-74 | a word followed by a newline is what the key and value parser takes |
| ClientInput.IndexOfFirst | cached-client/src/input_parsing.rs:72 | the first occurrence after a stretch without it is right there |
| ClientInput.TagMismatch | cached-client/src/input_parsing.rs:15 | input that does not begin like the tag fails it recoverably |
| ClientInput.TagMatch | cached-client/src/input_parsing.rs:15 | a word equal to the tag up to case matches, leaving what follows |
| ClientInput.GetCommand | cached-client/src/input_parsing.rs:22-34 | `get`, blanks, a key and a newline give `Get(key)`, leaving the newline |
| ClientInput.DeleteCommand | cached-client/src/input_parsing.rs:36-45 | the same for `delete` |
| ClientInput.SetCommand | cached-client/src/input_parsing.rs:47-67 | `set`, blanks, a key, a gap, a value and a newline give `Set` without TTL |
| ClientInput.KeyThenGap | cached-client/src/input_parsing.rs:52 | the `set` key runs up to the first space |
| ClientInput.FlushAndExit | cached-client/src/input_parsing.rs:10-20 | `flush` and `exit` need nothing after them; whatever follows is left over |
| ClientInput.MissingNewline | cached-client/src/input_parsing.rs:22-45 | without a newline, `get` fails finally with "Expected key", and `delete` fails finally with no message |
| ClientInput.MissingNewlineCut | cached-client/src/input_parsing.rs:69-74 | input without a newline never yields a key |
| ClientInput.MissingSeparator | cached-client/src/input_parsing.rs:22-67 | a command word followed by a non-blank is a final "Expected key" failure; no other command is tried |
| ClientInput.UnknownCommand | cached-client/src/input_parsing.rs:10-12 | when no command word matches, there is nothing to report |

## Left out

- Socket I/O, the async runtime, `readable`/`writable` waits and write errors: reads are
  a sequence of byte chunks, and a write is the bytes it would send.
- The actor around `MainDB` (the channel, the spawned task, the oneshot replies):
  its messages are applied one at a time in the order they arrive, as the actor does.
- The server's accept loop, its connection semaphore, shutdown and signal handling,
  `Drop` of the handler: these decide only which connections run, not what a request
  does.
- The system clock: every operation that reads it takes `now` as a parameter.
- `DashMap` sharding and locking: each store is a map, with each operation atomic.
- Release-mode wrap-around of the unchecked subtractions: the debug-build abort is
  modelled as an error, `Error.Panic`.
- `Display` implementations and the client's printing, which are presentation only.
- nom's `VerboseError` positions and the input slices it records: errors keep only
  their kind and context labels.
- Non-ASCII case folding in `tag_no_case`: case is folded on ASCII only. No non-ASCII
  character lower-cases to a letter of the five command words.
- `cached/src/frame/header.rs` has no `Header` trait impl, so the writer's accessors
  for it are not part of this model. A request's padding byte is written as 0, as in
  `src/frame/header.rs`.
- The client and server binaries, `lib.rs` wiring, the benches, and
  `cached/src/client.rs`/`src/client.rs` (request/response round trips over a socket,
  with no logic of their own).
- Eviction and capacity limits: the code has none.
- CachedServer.HandleRequest: handles a `Set` or `Delete` as one atomic step. The
  server sends `contains_key` and then `insert` or `remove` as two separate messages to
  the store (cached/src/server.rs:199-204 and 209-212), so another connection's request
  can run in between; two concurrent `Set`s of one absent key can then both answer `Ok`,
  the second overwriting the first. Interleavings of requests are not modelled.
- LegacyServer.HandleRequest: the same for the old `Delete`, whose `contains_key` and
  `remove` (src/server.rs:164-167) are separate map operations; two concurrent
  `Delete`s of one key can both answer `Ok`.
- CachedServer.HandleRequest: requires every stored value to fit in 1 MiB
  (`ValuesFit`). This always holds for stores built by the handler, since it inserts
  only request values, but it is not enforced by the Rust types.

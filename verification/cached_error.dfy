/** The error taxonomy of the newer crate (cached/src/error.rs). */
module CachedError {

  datatype ParseError =
    | KeyMissing
    | ValueMissing
    | KeyAndValueMissing
    | UnexpectedKey
    | UnexpectedValue
      /** `Parse::String`: a nom failure or bytes that are not UTF-8 (raised by cached/src/parsing.rs). */
    | StringConversion

  datatype FrameError = Incomplete | InvalidOpCode | InvalidStatusCode | KeyTooLong | ValueTooLong

  datatype ConnectionError =
    | Read(message: string)
    | ResetByPeer
    | Write
    | Send
    | Receive
    | Accept
    | AcquireSemaphore
    | Bind
    | LocalAddr
    | NoConnection(message: string)

  /** What aborts the Rust code instead of returning an error: an unsigned subtraction
      that overflows (a panic in a debug build) or `copy_to_bytes` past the end of a buffer. */
  datatype PanicKind = SubtractOverflow | BufferUnderrun

  datatype Error =
    | Parse(parse: ParseError)
    | Frame(frame: FrameError)
    | Connection(connection: ConnectionError)
    | Panic(kind: PanicKind)
}

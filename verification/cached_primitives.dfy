/** Status and operation codes of the newer crate and their one-byte encodings
    (cached/src/primitives.rs). */
module CachedPrimitives {
  import opened Wrappers
  import opened BigEndian
  import opened CachedError

  datatype StatusCode = Ok | KeyNotFound | KeyExists | InternalError

  datatype OpCode = Set | Get | Delete | Flush

  /** `status as u8`: the `#[repr(u8)]` discriminant. */
  function StatusToByte(s: StatusCode): (b: U8)
    ensures b < 4
  {
    match s
    case Ok => 0
    case KeyNotFound => 1
    case KeyExists => 2
    case InternalError => 3
  }

  function StatusFromByte(b: U8): (r: Result<StatusCode, Error>)
    ensures r.Success? <==> b < 4
    ensures r.Success? ==> StatusToByte(r.value) == b
    ensures r.Failure? ==> r.error == Frame(InvalidStatusCode)
  {
    match b
    case 0 => Success(StatusCode.Ok)
    case 1 => Success(KeyNotFound)
    case 2 => Success(KeyExists)
    case 3 => Success(InternalError)
    case _ => Failure(Frame(InvalidStatusCode))
  }

  function OpCodeToByte(op: OpCode): (b: U8)
    ensures 1 <= b <= 4
  {
    match op
    case Set => 1
    case Get => 2
    case Delete => 3
    case Flush => 4
  }

  function OpCodeFromByte(b: U8): (r: Result<OpCode, Error>)
    ensures r.Success? <==> 1 <= b <= 4
    ensures r.Success? ==> OpCodeToByte(r.value) == b
    ensures r.Failure? ==> r.error == Frame(InvalidOpCode)
  {
    match b
    case 1 => Success(Set)
    case 2 => Success(Get)
    case 3 => Success(Delete)
    case 4 => Success(Flush)
    case _ => Failure(Frame(InvalidOpCode))
  }

  /** Decoding inverts encoding, so the two byte tables are injective. */
  lemma CodesRoundTrip(s: StatusCode, op: OpCode)
    ensures StatusFromByte(StatusToByte(s)) == Success(s)
    ensures OpCodeFromByte(OpCodeToByte(op)) == Success(op)
  {
  }

  lemma CodesInjective(s: StatusCode, t: StatusCode, p: OpCode, q: OpCode)
    ensures StatusToByte(s) == StatusToByte(t) ==> s == t
    ensures OpCodeToByte(p) == OpCodeToByte(q) ==> p == q
  {
  }
}

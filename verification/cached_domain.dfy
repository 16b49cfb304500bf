/** Validated keys, values and the TTL wrapper of the newer crate (cached/src/domain.rs).
    A Rust `String` is modelled by its UTF-8 bytes, so lengths are byte lengths. */
module CachedDomain {
  import opened Wrappers
  import opened BigEndian
  import opened CachedError

  const NO_TTL_INDICATOR: U128 := 0
  /** `MAX_VALUE_LENGTH`: a value may hold at most 1 MiB. */
  const MAX_VALUE_LENGTH: nat := 1024 * 1024
  /** A key may hold at most `u8::MAX` bytes. */
  const MAX_KEY_LENGTH: nat := U8_MAX

  /** Only `Key::parse` builds a key, so every key fits its limit. */
  type Key = s: seq<U8> | |s| <= MAX_KEY_LENGTH
  type Value = s: seq<U8> | |s| <= MAX_VALUE_LENGTH

  /** Milliseconds since the Unix epoch; 0 stands for "no TTL". */
  datatype Ttl = Ttl(inner: U128)

  function KeyParse(k: seq<U8>): (r: Result<Key, Error>)
    ensures r.Success? <==> |k| <= MAX_KEY_LENGTH
    ensures r.Success? ==> r.value == k
    ensures r.Failure? ==> r.error == Frame(KeyTooLong)
  {
    if |k| > MAX_KEY_LENGTH then Failure(Frame(KeyTooLong)) else Success(k)
  }

  function ValueParse(v: seq<U8>): (r: Result<Value, Error>)
    ensures r.Success? <==> |v| <= MAX_VALUE_LENGTH
    ensures r.Success? ==> r.value == v
    ensures r.Failure? ==> r.error == Frame(ValueTooLong)
  {
    if |v| > MAX_VALUE_LENGTH then Failure(Frame(ValueTooLong)) else Success(v)
  }

  /** `Key::len`: the `as u8` cast never truncates. */
  function KeyLen(k: Key): (r: U8)
    ensures r == |k| <= 255
  {
    |k|
  }

  /** `Value::len`: the `as u32` cast never truncates. */
  function ValueLen(v: Value): (r: U32)
    ensures r == |v| <= 1048576
  {
    |v|
  }

  function TtlParse(ttl: Option<U128>): (r: Ttl)
    ensures ttl.None? ==> r.inner == NO_TTL_INDICATOR
    ensures ttl.Some? ==> r.inner == ttl.value
  {
    match ttl
    case None => Ttl(NO_TTL_INDICATOR)
    case Some(t) => if t == NO_TTL_INDICATOR then Ttl(NO_TTL_INDICATOR) else Ttl(t)
  }

  function IntoInner(t: Ttl): U128 {
    t.inner
  }

  function IntoTtl(t: Ttl): (r: Option<U128>)
    ensures r.None? <==> t.inner == 0
    ensures r.Some? ==> r.value == t.inner
  {
    if t.inner == 0 then None else Some(t.inner)
  }

  /** A TTL survives `parse` then `into_ttl`, except `Some(0)`, which comes back as `None`. */
  lemma IntoTtlOfParse(x: Option<U128>)
    ensures IntoTtl(TtlParse(x)) == (if x == Some(0) then None else x)
  {
  }

  lemma IntoInnerOfParse(t: U128)
    ensures IntoInner(TtlParse(Some(t))) == t
  {
  }

  /** Boundary cases: 255-byte keys and 1 MiB values pass, one more byte fails. */
  lemma LengthLimits(k: seq<U8>, v: seq<U8>)
    ensures |k| == 255 ==> KeyParse(k).Success?
    ensures |k| == 256 ==> KeyParse(k) == Failure(Frame(KeyTooLong))
    ensures |v| == 1048576 ==> ValueParse(v).Success?
    ensures |v| == 1048577 ==> ValueParse(v) == Failure(Frame(ValueTooLong))
  {
  }
}

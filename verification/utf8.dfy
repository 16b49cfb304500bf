/** UTF-8 well-formedness (Table 3-7 of the Unicode Standard, section 3.9) and the lossy
    decoding of `String::from_utf8_lossy`, which replaces every maximal subpart of an
    ill-formed sequence by U+FFFD. Rust strings are modelled as their UTF-8 bytes, so
    both conversions map bytes to bytes. */
module Utf8 {
  import opened BigEndian

  /** Bytes taken by the scalar encoding that starts with lead; 0 when lead starts none. */
  function SequenceWidth(lead: U8): nat {
    if lead < 0x80 then 1
    else if 0xC2 <= lead <= 0xDF then 2
    else if 0xE0 <= lead <= 0xEF then 3
    else if 0xF0 <= lead <= 0xF4 then 4
    else 0
  }

  /** Whether b may stand at offset i (1 <= i) of a sequence led by lead. */
  predicate ContinuationOk(lead: U8, i: nat, b: U8) {
    if i == 1 then
      if lead == 0xE0 then 0xA0 <= b <= 0xBF
      else if lead == 0xED then 0x80 <= b <= 0x9F
      else if lead == 0xF0 then 0x90 <= b <= 0xBF
      else if lead == 0xF4 then 0x80 <= b <= 0x8F
      else 0x80 <= b <= 0xBF
    else 0x80 <= b <= 0xBF
  }

  /** s starts with one complete, well-formed scalar encoding. */
  predicate StartsWithScalar(s: seq<U8>) {
    && |s| > 0
    && 0 < SequenceWidth(s[0]) <= |s|
    && forall i | 1 <= i < SequenceWidth(s[0]) :: ContinuationOk(s[0], i, s[i])
  }

  predicate ValidUtf8(s: seq<U8>)
    decreases |s|
  {
    |s| == 0 || (StartsWithScalar(s) && ValidUtf8(s[SequenceWidth(s[0])..]))
  }

  /** Length of the longest prefix of s that starts some well-formed scalar encoding. */
  function MaximalSubpart(s: seq<U8>): (n: nat)
    requires |s| > 0
    ensures n <= |s| && n <= SequenceWidth(s[0])
    ensures StartsWithScalar(s) <==> n == SequenceWidth(s[0]) > 0
  {
    if SequenceWidth(s[0]) == 0 then 0 else MatchedFrom(s, 1)
  }

  function MatchedFrom(s: seq<U8>, i: nat): (n: nat)
    requires 1 <= i <= |s| && i <= SequenceWidth(s[0])
    requires forall j | 1 <= j < i :: ContinuationOk(s[0], j, s[j])
    decreases SequenceWidth(s[0]) - i
    ensures i <= n <= |s| && n <= SequenceWidth(s[0])
    ensures forall j | 1 <= j < n :: ContinuationOk(s[0], j, s[j])
    ensures n < SequenceWidth(s[0]) ==> n == |s| || !ContinuationOk(s[0], n, s[n])
  {
    if i == SequenceWidth(s[0]) || i == |s| || !ContinuationOk(s[0], i, s[i]) then i
    else MatchedFrom(s, i + 1)
  }

  const REPLACEMENT_CHARACTER: seq<U8> := [0xEF, 0xBF, 0xBD]

  /** `String::from_utf8_lossy`, as bytes. */
  function Lossy(s: seq<U8>): (r: seq<U8>)
    decreases |s|
  {
    if |s| == 0 then []
    else if StartsWithScalar(s) then
      s[..SequenceWidth(s[0])] + Lossy(s[SequenceWidth(s[0])..])
    else
      var skip := if MaximalSubpart(s) == 0 then 1 else MaximalSubpart(s);
      REPLACEMENT_CHARACTER + Lossy(s[skip..])
  }

  lemma {:induction false} ValidConcat(a: seq<U8>, b: seq<U8>)
    requires ValidUtf8(a) && ValidUtf8(b)
    ensures ValidUtf8(a + b)
    decreases |a|
  {
    if |a| > 0 {
      var w := SequenceWidth(a[0]);
      var ab := a + b;
      assert ab[0] == a[0];
      forall i | 1 <= i < w
        ensures ContinuationOk(ab[0], i, ab[i])
      {
        assert ab[i] == a[i];
      }
      assert StartsWithScalar(ab);
      ValidConcat(a[w..], b);
      assert ab[w..] == a[w..] + b;
    } else {
      assert a + b == b;
    }
  }

  lemma SingleScalarValid(s: seq<U8>)
    requires StartsWithScalar(s)
    ensures ValidUtf8(s[..SequenceWidth(s[0])])
  {
    var t := s[..SequenceWidth(s[0])];
    assert StartsWithScalar(t);
    assert t[SequenceWidth(t[0])..] == [];
  }

  /** ASCII text is well-formed UTF-8. */
  lemma {:induction false} AsciiValid(s: seq<U8>)
    requires forall i | 0 <= i < |s| :: s[i] < 0x80
    ensures ValidUtf8(s)
    decreases |s|
  {
    if |s| > 0 {
      assert StartsWithScalar(s);
      AsciiValid(s[1..]);
    }
  }

  /** Whatever the input, the lossy conversion produces well-formed UTF-8. */
  lemma {:induction false} LossyIsValid(s: seq<U8>)
    ensures ValidUtf8(Lossy(s))
    decreases |s|
  {
    if |s| > 0 {
      if StartsWithScalar(s) {
        var w := SequenceWidth(s[0]);
        SingleScalarValid(s);
        LossyIsValid(s[w..]);
        ValidConcat(s[..w], Lossy(s[w..]));
      } else {
        var skip := if MaximalSubpart(s) == 0 then 1 else MaximalSubpart(s);
        var rc := REPLACEMENT_CHARACTER;
        assert StartsWithScalar(rc) && rc[3..] == [];
        LossyIsValid(s[skip..]);
        ValidConcat(rc, Lossy(s[skip..]));
      }
    }
  }

  /** On well-formed input the lossy conversion changes nothing. */
  lemma {:induction false} LossyOfValid(s: seq<U8>)
    requires ValidUtf8(s)
    ensures Lossy(s) == s
    decreases |s|
  {
    if |s| > 0 {
      var w := SequenceWidth(s[0]);
      LossyOfValid(s[w..]);
      assert s[..w] + s[w..] == s;
    }
  }

  /** The lossy conversion is the identity exactly on well-formed input. */
  lemma LossyIdentityIffValid(s: seq<U8>)
    ensures Lossy(s) == s <==> ValidUtf8(s)
  {
    if ValidUtf8(s) {
      LossyOfValid(s);
    } else {
      LossyIsValid(s);
    }
  }

  /** A lone continuation byte, and a lead cut short, each become one U+FFFD. */
  lemma LossyExamples()
    ensures Lossy([0x80]) == REPLACEMENT_CHARACTER
    ensures Lossy([0x41, 0xE2, 0x82]) == [0x41] + REPLACEMENT_CHARACTER
    ensures Lossy([0xE0, 0x80]) == REPLACEMENT_CHARACTER + REPLACEMENT_CHARACTER
  {
    var s := [0x41, 0xE2, 0x82];
    assert StartsWithScalar(s) && s[1..] == [0xE2, 0x82];
    assert !StartsWithScalar(s[1..]) && MaximalSubpart(s[1..]) == 2;
    assert s[1..][2..] == [];
    var t: seq<U8> := [0xE0, 0x80];
    assert !StartsWithScalar(t) && MaximalSubpart(t) == 1 && t[1..] == [0x80];
    assert !StartsWithScalar(t[1..]) && MaximalSubpart(t[1..]) == 0 && t[1..][1..] == [];
    assert !StartsWithScalar([0x80]) && [0x80][1..] == [];
  }
}

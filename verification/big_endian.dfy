/** Fixed-width unsigned integers and their big-endian byte encoding, as read by
    `Buf::get_u32`/`get_u128` and written by `write_u32`/`write_u128`. */
module BigEndian {

  type U8 = n: nat | n < 0x100
  type U32 = n: nat | n < 0x1_0000_0000
  type U128 = n: nat | n < 0x1_0000_0000_0000_0000_0000_0000_0000_0000

  const U8_MAX: nat := 255

  /** 256 to the power n: the number of values an n-byte field can hold. */
  function Pow256(n: nat): (r: nat)
    ensures r >= 1
  {
    if n == 0 then 1 else 256 * Pow256(n - 1)
  }

  lemma Pow256Widths()
    ensures Pow256(1) == 0x100
    ensures Pow256(4) == 0x1_0000_0000
    ensures Pow256(16) == 0x1_0000_0000_0000_0000_0000_0000_0000_0000
  {
    assert Pow256(2) == 0x1_0000;
    assert Pow256(4) == 0x1_0000_0000;
    assert Pow256(8) == 0x1_0000_0000_0000_0000;
    assert Pow256(12) == 0x1_0000_0000_0000_0000_0000_0000;
  }

  /** The unsigned number whose big-endian bytes are s (most significant byte first). */
  function FromBigEndian(s: seq<U8>): (r: nat)
    ensures r < Pow256(|s|)
  {
    if |s| == 0 then 0 else FromBigEndian(s[..|s| - 1]) * 256 + s[|s| - 1]
  }

  /** The width-byte big-endian representation of n. */
  function ToBigEndian(n: nat, width: nat): (r: seq<U8>)
    requires n < Pow256(width)
    ensures |r| == width
  {
    if width == 0 then [] else ToBigEndian(n / 256, width - 1) + [n % 256]
  }

  lemma {:induction false} FromToBigEndian(n: nat, width: nat)
    requires n < Pow256(width)
    ensures FromBigEndian(ToBigEndian(n, width)) == n
  {
    if width > 0 {
      var s := ToBigEndian(n / 256, width - 1);
      assert ToBigEndian(n, width)[..width - 1] == s;
      FromToBigEndian(n / 256, width - 1);
    }
  }

  lemma {:induction false} ToFromBigEndian(s: seq<U8>)
    ensures ToBigEndian(FromBigEndian(s), |s|) == s
  {
    if |s| > 0 {
      var init := s[..|s| - 1];
      var n := FromBigEndian(s);
      assert n / 256 == FromBigEndian(init) && n % 256 == s[|s| - 1];
      ToFromBigEndian(init);
      assert s == init + [s[|s| - 1]];
    }
  }

  lemma {:induction false} FromBigEndianZeros(s: seq<U8>)
    requires forall i | 0 <= i < |s| :: s[i] == 0
    ensures FromBigEndian(s) == 0
  {
    if |s| > 0 {
      FromBigEndianZeros(s[..|s| - 1]);
    }
  }

  /** Distinct numbers of the same width have distinct encodings. */
  lemma ToBigEndianInjective(m: nat, n: nat, width: nat)
    requires m < Pow256(width) && n < Pow256(width)
    requires ToBigEndian(m, width) == ToBigEndian(n, width)
    ensures m == n
  {
    FromToBigEndian(m, width);
    FromToBigEndian(n, width);
  }

  function U32ToBytes(n: U32): (r: seq<U8>)
    ensures |r| == 4 && FromBigEndian(r) == n
  {
    Pow256Widths();
    FromToBigEndian(n, 4);
    ToBigEndian(n, 4)
  }

  function U128ToBytes(n: U128): (r: seq<U8>)
    ensures |r| == 16 && FromBigEndian(r) == n
  {
    Pow256Widths();
    FromToBigEndian(n, 16);
    ToBigEndian(n, 16)
  }

  /** `get_u32`: the big-endian u32 in four bytes. */
  function BytesToU32(s: seq<U8>): (r: U32)
    requires |s| == 4
    ensures U32ToBytes(r) == s
  {
    Pow256Widths();
    ToFromBigEndian(s);
    FromBigEndian(s)
  }

  /** `get_u128`: the big-endian u128 in sixteen bytes. */
  function BytesToU128(s: seq<U8>): (r: U128)
    requires |s| == 16
    ensures U128ToBytes(r) == s
  {
    Pow256Widths();
    ToFromBigEndian(s);
    FromBigEndian(s)
  }
}

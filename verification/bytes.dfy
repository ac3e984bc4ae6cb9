/** Bytes and fixed-width big-endian integers, as the `bytebuffer` crate writes them. */
module Bytes {

  type byte = x: int | 0 <= x < 256

  const U16_LIMIT: nat := 0x1_0000
  const U32_LIMIT: nat := 0x1_0000_0000
  const U64_LIMIT: nat := 0x1_0000_0000_0000_0000
  const U32_MAX: nat := U32_LIMIT - 1

  /** Rust's `u64`. */
  type u64 = x: int | 0 <= x < U64_LIMIT

  function Pow256(width: nat): (r: nat)
    ensures r >= 1
  {
    if width == 0 then 1 else 256 * Pow256(width - 1)
  }

  /** The low `width` bytes of `n`, most significant first (`write_u16`, `write_u32`, `to_be_bytes`). */
  function BigEndian(n: nat, width: nat): (r: seq<byte>)
    ensures |r| == width
  {
    if width == 0 then [] else BigEndian(n / 256, width - 1) + [n % 256]
  }

  /** The value of a big-endian byte string (`read_u16`, `from_be_bytes`). */
  function FromBigEndian(s: seq<byte>): (r: nat)
    ensures r < Pow256(|s|)
  {
    if |s| == 0 then 0 else FromBigEndian(s[..|s| - 1]) * 256 + s[|s| - 1]
  }

  /** Reading back what was written gives the number, provided it fits in the width. */
  lemma {:induction false} BigEndianRoundTrip(n: nat, width: nat)
    requires n < Pow256(width)
    ensures FromBigEndian(BigEndian(n, width)) == n
  {
    if width > 0 {
      var s := BigEndian(n, width);
      assert s[..|s| - 1] == BigEndian(n / 256, width - 1);
      BigEndianRoundTrip(n / 256, width - 1);
    }
  }

  /** Writing back what was read gives the same bytes: big-endian encoding is a bijection. */
  lemma {:induction false} FromBigEndianRoundTrip(s: seq<byte>)
    ensures BigEndian(FromBigEndian(s), |s|) == s
  {
    if |s| > 0 {
      var init := s[..|s| - 1];
      FromBigEndianRoundTrip(init);
      var n := FromBigEndian(s);
      assert n / 256 == FromBigEndian(init);
      assert n % 256 == s[|s| - 1];
      assert s == init + [s[|s| - 1]];
    }
  }

  /** Different numbers below the width's range have different encodings. */
  lemma BigEndianInjective(m: nat, n: nat, width: nat)
    requires m < Pow256(width) && n < Pow256(width)
    requires BigEndian(m, width) == BigEndian(n, width)
    ensures m == n
  {
    BigEndianRoundTrip(m, width);
    BigEndianRoundTrip(n, width);
  }

  /** The value of two big-endian strings written one after the other. */
  lemma {:induction false} FromBigEndianAppend(a: seq<byte>, b: seq<byte>)
    ensures FromBigEndian(a + b) == FromBigEndian(a) * Pow256(|b|) + FromBigEndian(b)
  {
    if |b| == 0 {
      assert a + b == a;
    } else {
      var init := b[..|b| - 1];
      var last := b[|b| - 1];
      assert (a + b)[..|a + b| - 1] == a + init;
      assert (a + b)[|a + b| - 1] == last;
      FromBigEndianAppend(a, init);
      ShiftByte(FromBigEndian(a), Pow256(|init|), FromBigEndian(init), last);
    }
  }

  lemma ShiftByte(x: nat, p: nat, y: nat, last: nat)
    ensures (x * p + y) * 256 + last == x * (256 * p) + (y * 256 + last)
  {
  }

  lemma BigEndian2(n: nat)
    ensures BigEndian(n, 2) == [(n / 256) % 256, n % 256]
  {
    assert BigEndian(n / 256, 1) == [(n / 256) % 256];
  }

  lemma BigEndian3(n: nat)
    ensures BigEndian(n, 3) == [(n / 65536) % 256, (n / 256) % 256, n % 256]
  {
    BigEndian2(n / 256);
    assert n / 256 / 256 == n / 65536;
  }

  lemma BigEndian4(n: nat)
    ensures BigEndian(n, 4) == [(n / 16777216) % 256, (n / 65536) % 256, (n / 256) % 256, n % 256]
  {
    BigEndian3(n / 256);
    assert n / 256 / 256 == n / 65536;
    assert n / 256 / 65536 == n / 16777216;
  }

  function U16(hi: byte, lo: byte): (r: nat)
    ensures r < U16_LIMIT
    ensures r == FromBigEndian([hi, lo])
  {
    assert [hi, lo][..1] == [hi];
    assert [hi][..0] == [];
    hi * 256 + lo
  }

  /** The two bytes of a 16-bit number put back together. */
  lemma U16Split(n: nat)
    requires n < U16_LIMIT
    ensures U16((n / 256) % 256, n % 256) == n
  {
    assert n / 256 < 256;
  }

  /** All-zero byte string, as `[0u8; n]`. */
  function Zeros(n: nat): (r: seq<byte>)
    ensures |r| == n
    ensures forall i :: 0 <= i < n ==> r[i] == 0
  {
    seq(n, _ => 0)
  }
}

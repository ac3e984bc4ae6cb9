/**
  Bitwise `&`, `|` and `<<` on non-negative integers, defined bit by bit, and
  Rust's reinterpretation of 32 bits as an `i32`. The facts below are what
  mask-and-combine expressions on byte values reduce to.
 */
module Bits {

  function Pow2(k: nat): (r: nat)
    ensures r >= 1
  {
    if k == 0 then 1 else 2 * Pow2(k - 1)
  }

  /** Shifting by `a` and then by `b` is shifting by `a + b`. */
  lemma {:induction false} Pow2Add(a: nat, b: nat)
    ensures Pow2(a + b) == Pow2(a) * Pow2(b)
  {
    if a > 0 {
      Pow2Add(a - 1, b);
      assert Pow2(a + b) == 2 * Pow2(a - 1 + b);
    }
  }

  lemma Pow2Bytes()
    ensures Pow2(8) == 256 && Pow2(16) == 0x1_0000
  {
    assert Pow2(4) == 16;
    assert Pow2(8) == 256;
    assert Pow2(12) == 4096;
  }

  /** `x & y` */
  function And(x: nat, y: nat): (r: nat)
    decreases x
  {
    if x == 0 || y == 0 then 0 else 2 * And(x / 2, y / 2) + (x % 2) * (y % 2)
  }

  /** `x | y` */
  function Or(x: nat, y: nat): (r: nat)
    decreases x
  {
    if x == 0 then y
    else if y == 0 then x
    else 2 * Or(x / 2, y / 2) + (if x % 2 == 1 || y % 2 == 1 then 1 else 0)
  }

  /** `x << k`, before any truncation to a width. */
  function Shl(x: nat, k: nat): (r: nat) {
    x * Pow2(k)
  }

  /** `v as i32` for the low 32 bits of `v`: two's complement. */
  function AsI32(v: nat): (r: int)
    ensures -0x8000_0000 <= r < 0x8000_0000
    ensures v < 0x8000_0000 ==> r == v
  {
    var low := v % 0x1_0000_0000;
    if low < 0x8000_0000 then low else low - 0x1_0000_0000
  }

  /** A number below 2^k shares no bit with a multiple of 2^k. */
  lemma {:induction false} AndDisjoint(x: nat, q: nat, k: nat)
    requires x < Pow2(k)
    ensures And(x, q * Pow2(k)) == 0
  {
    var y := q * Pow2(k);
    if x != 0 && y != 0 {
      assert k > 0;
      assert y == 2 * (q * Pow2(k - 1));
      AndDisjoint(x / 2, q, k - 1);
    }
  }

  /** Or-ing a multiple of 2^k with a number below 2^k adds them. */
  lemma {:induction false} OrDisjoint(q: nat, y: nat, k: nat)
    requires y < Pow2(k)
    ensures Or(q * Pow2(k), y) == q * Pow2(k) + y
  {
    var x := q * Pow2(k);
    if x != 0 && y != 0 {
      assert k > 0;
      assert x == 2 * (q * Pow2(k - 1));
      OrDisjoint(q, y / 2, k - 1);
    }
  }

  /** Masking with 2^k - 1 keeps a number below 2^k. */
  lemma {:induction false} AndLowMask(x: nat, k: nat)
    requires x < Pow2(k)
    ensures And(x, Pow2(k) - 1) == x
  {
    if x != 0 {
      assert k > 0;
      var m := Pow2(k) - 1;
      assert Pow2(k) == 2 * Pow2(k - 1);
      assert m / 2 == Pow2(k - 1) - 1 && m % 2 == 1;
      assert x / 2 < Pow2(k - 1);
      AndLowMask(x / 2, k - 1);
      assert And(x, m) == 2 * And(x / 2, m / 2) + (x % 2) * (m % 2);
    }
  }
}

/**
  The AES-GCM nonce built from a 64-bit counter (`AsNonce` for `u64`,
  whatsapp-util/src/security.rs): 32 zero bits, then the counter big-endian,
  the layout of section 12.4 of the Noise Protocol Framework (revision 34).
 */
module Nonces {
  import opened Bytes

  /** `nonce()`: four zero bytes, then the counter's eight bytes, most significant first. */
  function Nonce(n: u64): (r: seq<byte>)
    ensures |r| == 12
  {
    Zeros(4) + BigEndian(n, 8)
  }

  /** The nonce is four zero bytes, then the counter read back big-endian. */
  lemma NonceLayout(n: u64)
    ensures Nonce(n)[..4] == [0, 0, 0, 0]
    ensures FromBigEndian(Nonce(n)[4..]) == n
  {
    assert Pow256(8) == U64_LIMIT;
    BigEndianRoundTrip(n, 8);
    assert Nonce(n)[4..] == BigEndian(n, 8);
  }

  /** `*self += 1` on a `u64`, wrapping at 2^64 as a release build does. */
  function Increment(n: u64): (r: u64)
    ensures n < U64_LIMIT - 1 ==> r == n + 1
  {
    if n == U64_LIMIT - 1 then 0 else n + 1
  }

  /** `get_increment_nonce_mut`: the nonce of the counter's current value, and the counter after one step. */
  function NextNonce(counter: u64): (r: (seq<byte>, u64))
    ensures r.0 == Nonce(counter)
    ensures r.1 == Increment(counter)
  {
    var previous := counter;
    (Nonce(previous), Increment(counter))
  }

  /** Different counters give different nonces. */
  lemma NonceInjective(m: u64, n: u64)
    requires Nonce(m) == Nonce(n)
    ensures m == n
  {
    NonceLayout(m);
    NonceLayout(n);
    assert Nonce(m)[4..] == Nonce(n)[4..];
  }

  /** The nonces of `k` successive `get_increment_nonce_mut` calls from `counter`, and the counter after them. */
  function NonceRun(counter: u64, k: nat): (r: (seq<seq<byte>>, u64))
    ensures |r.0| == k
    decreases k
  {
    if k == 0 then ([], counter)
    else
      var (nonce, next) := NextNonce(counter);
      var (rest, last) := NonceRun(next, k - 1);
      ([nonce] + rest, last)
  }

  /**
    The values `f` takes at `k` successive counter values from `counter`,
    stepping with `Increment`, and the counter after them: `NonceRun` with
    the nonce abstracted, so that the counting argument never looks inside it.
   */
  function Run<T>(f: u64 -> T, counter: u64, k: nat): (r: (seq<T>, u64))
    ensures |r.0| == k
    decreases k
  {
    if k == 0 then ([], counter)
    else
      var (rest, last) := Run(f, Increment(counter), k - 1);
      ([f(counter)] + rest, last)
  }

  /** A run of `get_increment_nonce_mut` calls is the run of `Nonce` over the counter. */
  lemma {:induction false} NonceRunIsRun(counter: u64, k: nat)
    ensures NonceRun(counter, k) == Run(Nonce, counter, k)
    decreases k
  {
    if k > 0 {
      NonceRunIsRun(Increment(counter), k - 1);
    }
  }

  /** Without wrap-around, a run of `k` steps leaves the counter at `counter + k`. */
  lemma {:induction false} RunEnd<T>(f: u64 -> T, counter: u64, k: nat)
    requires counter + k < U64_LIMIT
    ensures Run(f, counter, k).1 == counter + k
    decreases k
  {
    if k > 0 {
      assert Increment(counter) == counter + 1;
      RunEnd(f, counter + 1, k - 1);
    }
  }

  /** Without wrap-around, step `i` of a run yields `f(counter + i)`. */
  lemma {:induction false} RunAt<T>(f: u64 -> T, counter: u64, k: nat, i: nat)
    requires counter + k < U64_LIMIT && i < k
    ensures Run(f, counter, k).0[i] == f(counter + i)
    decreases i
  {
    assert Increment(counter) == counter + 1;
    if i > 0 {
      var next: u64 := counter + 1;
      RunAt(f, next, k - 1, i - 1);
      assert Run(f, counter, k).0[i] == Run(f, next, k - 1).0[i - 1];
    }
  }

  /** Without wrap-around, a run of `k` calls leaves the counter at `counter + k`. */
  lemma NonceRunEnd(counter: u64, k: nat)
    requires counter + k < U64_LIMIT
    ensures NonceRun(counter, k).1 == counter + k
  {
    NonceRunIsRun(counter, k);
    RunEnd(Nonce, counter, k);
  }

  /** Without wrap-around, call `i` of a run returns the nonce of `counter + i`. */
  lemma NonceRunAt(counter: u64, k: nat, i: nat)
    requires counter + k < U64_LIMIT && i < k
    ensures NonceRun(counter, k).0[i] == Nonce(counter + i)
  {
    NonceRunIsRun(counter, k);
    RunAt(Nonce, counter, k, i);
  }

  /**
    Without wrap-around, call `i` returns the nonce of `counter + i` and the
    counter ends at `counter + k`.
   */
  lemma NonceRunCounts(counter: u64, k: nat)
    requires counter + k < U64_LIMIT
    ensures NonceRun(counter, k).1 == counter + k
    ensures forall i :: 0 <= i < k ==> NonceRun(counter, k).0[i] == Nonce(counter + i)
  {
    NonceRunEnd(counter, k);
    forall i | 0 <= i < k
      ensures NonceRun(counter, k).0[i] == Nonce(counter + i)
    {
      NonceRunAt(counter, k, i);
    }
  }

  /** Without wrap-around, no two calls in a run return the same nonce. */
  lemma NonceRunDistinct(counter: u64, k: nat, i: nat, j: nat)
    requires counter + k < U64_LIMIT
    requires i < j < k
    ensures NonceRun(counter, k).0[i] != NonceRun(counter, k).0[j]
  {
    NonceRunCounts(counter, k);
    if NonceRun(counter, k).0[i] == NonceRun(counter, k).0[j] {
      NonceInjective(counter + i, counter + j);
    }
  }
}

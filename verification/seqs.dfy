/** Identities of sequence concatenation that the round-trip proofs rearrange bytes and values by. */
module Seqs {

  /** A nonempty sequence is its front followed by its last element. */
  lemma DropLast<T>(s: seq<T>)
    requires |s| > 0
    ensures s == s[..|s| - 1] + [s[|s| - 1]]
  {
  }

  /** Peeling the last element off the front part of a concatenation. */
  lemma SplitLast<T>(p: seq<T>, rest: seq<T>)
    requires |p| > 0
    ensures p + rest == p[..|p| - 1] + ([p[|p| - 1]] + rest)
  {
    assert p == p[..|p| - 1] + [p[|p| - 1]];
  }

  /** Moving element `i` of `s` to the end of `acc` leaves the concatenation unchanged. */
  lemma ShiftOne<T>(acc: seq<T>, s: seq<T>, i: nat)
    requires i < |s|
    ensures acc + [s[i]] + s[i + 1..] == acc + s[i..]
  {
    assert s[i..] == [s[i]] + s[i + 1..];
  }

  /** Nothing left to append. */
  lemma AppendEnd<T>(acc: seq<T>, s: seq<T>)
    ensures acc + s[|s|..] == acc
    ensures [] + acc == acc
  {
  }

  /** Everything from the start, after nothing. */
  lemma AppendAll<T>(s: seq<T>)
    ensures [] + s[0..] == s
  {
  }

  lemma Assoc2<T>(a: seq<T>, b: seq<T>, rest: seq<T>)
    ensures a + b + rest == a + (b + rest)
  {
  }

  lemma Assoc3<T>(a: seq<T>, b: seq<T>, c: seq<T>, rest: seq<T>)
    ensures a + b + c + rest == a + (b + (c + rest))
  {
  }

  lemma Assoc4<T>(a: seq<T>, b: seq<T>, c: seq<T>, d: seq<T>, rest: seq<T>)
    ensures a + b + c + d + rest == a + (b + (c + (d + rest)))
  {
  }

  /** Appending two elements one after the other appends the pair. */
  lemma AppendTwo<T>(s: seq<T>, a: T, b: T)
    ensures s + [a] + [b] == s + [a, b]
  {
  }

  /** Splitting a concatenation where its first part ends. */
  lemma SplitAt<T>(a: seq<T>, rest: seq<T>)
    ensures (a + rest)[..|a|] == a && (a + rest)[|a|..] == rest
  {
  }

  /** A prefix of a prefix is a prefix. */
  lemma TakeTake<T>(s: seq<T>, i: nat, j: nat)
    requires i <= j <= |s|
    ensures s[..j][..i] == s[..i]
  {
  }

  /** The two sides of a separator element. */
  lemma AroundSeparator<T>(p: seq<T>, c: T, q: seq<T>)
    ensures (p + [c] + q)[..|p|] == p
    ensures (p + [c] + q)[|p| + 1..] == q
  {
    assert (p + [c] + q)[..|p|] == p;
    assert (p + [c] + q)[|p| + 1..] == q;
  }

  /** A nonempty sequence is its first element followed by the rest. */
  lemma HeadTail<T>(s: seq<T>)
    requires |s| > 0
    ensures [s[0]] + s[1..] == s
  {
  }
}

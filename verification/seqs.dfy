/** Facts about sequence concatenation and slicing, stated for any element
    type. Keeping them in their own small lemmas lets the proofs about
    strings, lines and records use them without the solver having to
    rediscover them among many other facts. */
module Seqs {

  /** The last element of a non-empty right operand can be split off. */
  lemma SnocSplit<T>(a: seq<T>, b: seq<T>)
    requires |b| > 0
    ensures a + b == (a + b[..|b|-1]) + [b[|b|-1]]
    ensures b == b[..|b|-1] + [b[|b|-1]]
  {
  }

  /** A non-empty sequence is its prefix and its last element. */
  lemma Snoc<T>(s: seq<T>)
    requires |s| > 0
    ensures s == s[..|s|-1] + [s[|s|-1]]
  {
  }

  /** The head and the tail of a concatenation with a non-empty left
      operand. */
  lemma ConcatHeadTail<T>(a: seq<T>, b: seq<T>)
    requires |a| > 0
    ensures (a + b)[0] == a[0]
    ensures (a + b)[1..] == a[1..] + b
  {
  }

  /** Concatenation is associative. */
  lemma ConcatAssoc<T>(x: seq<T>, y: seq<T>, z: seq<T>)
    ensures x + y + z == x + (y + z)
  {
  }

  /** A slice inside the left operand of a concatenation. */
  lemma SliceLeft<T>(a: seq<T>, b: seq<T>, lo: nat, hi: nat)
    requires lo <= hi <= |a|
    ensures (a + b)[lo..hi] == a[lo..hi]
  {
  }

  /** The right operand of a concatenation, as a slice. */
  lemma SliceRight<T>(a: seq<T>, b: seq<T>)
    ensures (a + b)[|a|..|a| + |b|] == b
  {
  }
}

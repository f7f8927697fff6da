/**
 * Facts about sequences that the other modules share. They state nothing about the
 * system itself: each is called at a site where stating the step explicitly keeps
 * the proof there small.
 */
module Seqs {
  /** Concatenation regroups freely. */
  lemma Associative<T>(a: seq<T>, b: seq<T>, c: seq<T>)
    ensures a + b + c == a + (b + c)
  {
  }

  /** A non-empty sequence is its first element and the rest. */
  lemma ConsTail<T>(s: seq<T>)
    requires |s| >= 1
    ensures [s[0]] + s[1..] == s
  {
  }

  /** An element of a concatenation is in one of its parts. */
  lemma InConcat<T>(a: seq<T>, b: seq<T>, x: T)
    ensures x in a + b <==> x in a || x in b
  {
  }

  /** The first `n` elements are the first `n - 1` and then the `n`-th. */
  lemma PrefixLast<T>(s: seq<T>, n: nat)
    requires 0 < n <= |s|
    ensures s[..n][..n - 1] == s[..n - 1] && s[..n][n - 1] == s[n - 1]
  {
  }

  /** Taking a prefix's length from a longer sequence gives the prefix back. */
  lemma PrefixTake<T>(a: seq<T>, b: seq<T>)
    requires a <= b
    ensures b[..|a|] == a
  {
  }
}

/** Facts about prefixes, suffixes and concatenations of sequences, stated
    over arbitrary sequences so that the codec proofs can use them without
    unfolding the codec. */
module Seqs {

  /** Concatenation is associative. */
  lemma {:induction false} AppendAssoc<T>(a: seq<T>, b: seq<T>, c: seq<T>)
    ensures (a + b) + c == a + (b + c)
  {
  }

  /** The left operand of a concatenation is its prefix of that length. */
  lemma {:induction false} TakeOfAppend<T>(a: seq<T>, b: seq<T>)
    ensures (a + b)[..|a|] == a
  {
  }

  /** Dropping the left operand of a concatenation leaves the right one, and
      dropping k more drops k from the right one. */
  lemma {:induction false} DropOfAppend<T>(a: seq<T>, b: seq<T>, k: nat)
    requires k <= |b|
    ensures (a + b)[|a|..] == b
    ensures (a + b)[|a| + k..] == b[k..]
  {
  }

  /** Dropping n = |a| + k elements of a + b drops k elements of b. */
  lemma {:induction false} DropPastLeft<T>(a: seq<T>, b: seq<T>, k: nat, n: nat)
    requires k <= |b| && n == |a| + k
    ensures (a + b)[n..] == b[k..]
  {
  }

  /** A prefix of a + b elements is the prefix of a followed by the b
      elements after it. */
  lemma {:induction false} TakeJoin<T>(s: seq<T>, a: nat, b: nat)
    requires a + b <= |s|
    ensures s[..a + b] == s[..a] + s[a..][..b]
  {
  }

  /** The slice [lo, lo + n) is the prefix of n of the suffix from lo. */
  lemma {:induction false} SliceIsTakeOfDrop<T>(s: seq<T>, lo: nat, n: nat)
    requires lo + n <= |s|
    ensures s[lo..lo + n] == s[lo..][..n]
  {
  }

  /** If the suffix of s from lo is a + b, the n = |a| elements from lo are a. */
  lemma {:induction false} SliceOfSuffix<T>(s: seq<T>, lo: nat, a: seq<T>, b: seq<T>, n: nat)
    requires lo <= |s| && s[lo..] == a + b && n == |a|
    ensures lo + n <= |s| && s[lo..lo + n] == a
  {
    assert s[lo..lo + n] == s[lo..][..n];
  }

  /** Dropping i and then k elements drops j = i + k elements. */
  lemma {:induction false} DropDrop<T>(s: seq<T>, i: nat, k: nat, j: nat)
    requires j == i + k && j <= |s|
    ensures s[i..][k..] == s[j..]
  {
  }

  /** A suffix from ix < |s| is element ix followed by the suffix from ix + 1. */
  lemma {:induction false} SuffixCons<T>(s: seq<T>, ix: nat)
    requires ix < |s|
    ensures s[ix..] == [s[ix]] + s[ix + 1..]
  {
  }

  /** If the suffix from ix is [y] + d, element ix is y and the suffix from
      ix + 1 is d. */
  lemma {:induction false} SuffixOfCons<T>(s: seq<T>, ix: nat, y: T, d: seq<T>)
    requires ix < |s| && s[ix..] == [y] + d
    ensures s[ix] == y && s[ix + 1..] == d
  {
    assert s[ix] == s[ix..][0];
    assert s[ix + 1..] == s[ix..][1..];
  }
}

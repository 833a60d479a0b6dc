/**
 * Sequence identities the list-processing proofs rely on, proved once for
 * every element type so that the proofs about words and records only
 * instantiate them.
 */
module Seqs {
  lemma AppendAssoc<T>(x: seq<T>, y: seq<T>, z: seq<T>)
    ensures (x + y) + z == x + (y + z)
  {
  }

  /** A non-empty sequence is its prefix followed by its last element. */
  lemma SplitLast<T>(s: seq<T>)
    requires s != []
    ensures s == s[..|s| - 1] + [s[|s| - 1]]
  {
  }

  /** A non-empty sequence is its first element followed by the rest. */
  lemma SplitFirst<T>(s: seq<T>)
    requires s != []
    ensures s == [s[0]] + s[1..]
    ensures multiset(s) == multiset{s[0]} + multiset(s[1..])
  {
    assert s == [s[0]] + s[1..];
  }

  /** Taking out the element at `k` leaves the others, with one fewer copy of it. */
  lemma RemoveAt<T>(s: seq<T>, k: nat)
    requires k < |s|
    ensures s == s[..k] + [s[k]] + s[k + 1..]
    ensures multiset(s[..k] + s[k + 1..]) == multiset(s) - multiset{s[k]}
  {
    assert s == s[..k] + [s[k]] + s[k + 1..];
  }

  /** Dropping the last element of `a + b`, for a non-empty `b`, drops it from `b`. */
  lemma DropLastOfAppend<T>(a: seq<T>, b: seq<T>)
    requires b != []
    ensures (a + b)[..|a + b| - 1] == a + b[..|b| - 1]
    ensures (a + b)[|a + b| - 1] == b[|b| - 1]
  {
  }

  /** Dropping the first element of `a + b`, for a non-empty `a`, drops it from `a`. */
  lemma DropFirstOfAppend<T>(a: seq<T>, b: seq<T>)
    requires a != []
    ensures (a + b)[1..] == a[1..] + b
    ensures (a + b)[0] == a[0]
  {
  }

  /** An element of a prefix of `s` is an element of `s`. */
  lemma PrefixMember<T>(s: seq<T>, p: seq<T>, x: T)
    requires |p| <= |s| && s[..|p|] == p && x in p
    ensures x in s
  {
    var i :| 0 <= i < |p| && p[i] == x;
    assert s[i] == x;
  }
}

/**
 * The in-place Fisher-Yates `shuffle` of the maze generator, with the random
 * source made explicit: `pick(i)` is the random index in `0 .. i` drawn when the
 * loop counter is `i`.
 */
module Shuffling {

  /** A draw at loop counter `i` is an index between 0 and `i`, as the random draw of the source is. */
  ghost predicate Fair(pick: nat -> nat)
  {
    forall i: nat :: pick(i) <= i
  }

  /** Exchange of the elements at `i` and `j`. */
  function Swap<T>(a: seq<T>, i: nat, j: nat): (r: seq<T>)
    requires i < |a| && j < |a|
    ensures |r| == |a|
    ensures r[i] == a[j] && r[j] == a[i]
    ensures forall k :: 0 <= k < |a| && k != i && k != j ==> r[k] == a[k]
    ensures multiset(r) == multiset(a)
  {
    a[i := a[j]][j := a[i]]
  }

  /** The loop of `shuffle`, run from counter `i` down to 1. */
  function ShuffleDown<T>(a: seq<T>, pick: nat -> nat, i: int): (r: seq<T>)
    requires Fair(pick) && i < |a|
    ensures |r| == |a|
    ensures multiset(r) == multiset(a)
    decreases i
  {
    if i <= 0 then a else ShuffleDown(Swap(a, i, pick(i)), pick, i - 1)
  }

  /** `shuffle(arr)`: whatever the draws, the result is a permutation of the input. */
  function Shuffle<T>(a: seq<T>, pick: nat -> nat): (r: seq<T>)
    requires Fair(pick)
    ensures |r| == |a|
    ensures multiset(r) == multiset(a)
  {
    ShuffleDown(a, pick, |a| - 1)
  }

  /** No element occurs twice. */
  predicate Distinct<T(==)>(s: seq<T>)
  {
    forall i, j :: 0 <= i < j < |s| ==> s[i] != s[j]
  }

  /** In a sequence without repeats every element occurs at most once. */
  lemma {:induction false} DistinctCounts<T>(s: seq<T>, x: T)
    requires Distinct(s)
    ensures multiset(s)[x] <= 1
  {
    if s != [] {
      assert Distinct(s[1..]);
      DistinctCounts(s[1..], x);
      assert s == [s[0]] + s[1..];
      if x == s[0] {
        assert x !in s[1..];
        assert multiset(s[1..])[x] == 0;
      }
    }
  }

  /** A value stored at two different indices occurs at least twice. */
  lemma {:induction false} RepeatCounts<T>(s: seq<T>, i: nat, j: nat)
    requires i < j < |s| && s[i] == s[j]
    ensures multiset(s)[s[i]] >= 2
  {
    if i == 0 {
      assert s == [s[0]] + s[1..];
      assert s[j] == s[1..][j - 1];
      assert s[i] in multiset(s[1..]);
    } else {
      assert s == [s[0]] + s[1..];
      RepeatCounts(s[1..], i - 1, j - 1);
    }
  }

  /** A permutation of a sequence without repeats has no repeats: `shuffle` keeps cells distinct. */
  lemma PermutationKeepsDistinct<T>(a: seq<T>, b: seq<T>)
    requires multiset(a) == multiset(b) && Distinct(a)
    ensures Distinct(b)
  {
    forall i, j | 0 <= i < j < |b|
      ensures b[i] != b[j]
    {
      if b[i] == b[j] {
        RepeatCounts(b, i, j);
        DistinctCounts(a, b[i]);
      }
    }
  }

  /** A prefix of a sequence without repeats has none either. */
  lemma PrefixDistinct<T>(s: seq<T>, n: nat)
    requires Distinct(s) && n <= |s|
    ensures Distinct(s[..n])
  {
  }

  /** The set of elements of a sequence without repeats is as large as the sequence. */
  lemma {:induction false} DistinctCardinality<T>(s: seq<T>)
    requires Distinct(s)
    ensures |set x | x in s| == |s|
  {
    if s != [] {
      assert Distinct(s[1..]);
      DistinctCardinality(s[1..]);
      assert (set x | x in s) == {s[0]} + (set x | x in s[1..]);
      assert s[0] !in s[1..];
    }
  }
}

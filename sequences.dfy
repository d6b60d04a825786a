/** Facts about Python lists of ids used throughout the model. */
module Sequences {

  predicate NoDuplicates(s: seq<int>) {
    forall i, j :: 0 <= i < j < |s| ==> s[i] != s[j]
  }

  /** The position of the first occurrence of `x` (what Python's `list.index` returns). */
  function IndexOf(s: seq<int>, x: int): (k: nat)
    requires x in s
    ensures k < |s| && s[k] == x && x !in s[..k]
  {
    if s[0] == x then 0 else 1 + IndexOf(s[1..], x)
  }

  /** The first index holding `x` is the only index with that property. */
  lemma IndexOfUnique(s: seq<int>, x: int, k: nat)
    requires k < |s| && s[k] == x && x !in s[..k]
    ensures IndexOf(s, x) == k
  {
  }

  /** Python's `list.remove(x)`: drops the first occurrence of `x`. */
  function RemoveFirst(s: seq<int>, x: int): (r: seq<int>)
    requires x in s
  {
    s[..IndexOf(s, x)] + s[IndexOf(s, x) + 1..]
  }

  /** Removing `x` after appending it to a list without `x` gives the list back. */
  lemma RemoveFirstAfterAppend(s: seq<int>, x: int)
    requires x !in s
    ensures RemoveFirst(s + [x], x) == s
  {
    IndexOfUnique(s + [x], x, |s|);
    assert (s + [x])[..|s|] == s;
  }

  /** On a duplicate-free list, removing `x` removes every `x` and keeps the list duplicate-free. */
  lemma RemoveFirstFromDistinct(s: seq<int>, x: int)
    requires NoDuplicates(s) && x in s
    ensures x !in RemoveFirst(s, x)
    ensures NoDuplicates(RemoveFirst(s, x))
    ensures forall y :: y != x ==> (y in RemoveFirst(s, x) <==> y in s)
  {
    var k := IndexOf(s, x);
    var r := RemoveFirst(s, x);
    assert |r| == |s| - 1;
    assert forall i :: 0 <= i < |r| ==> r[i] == (if i < k then s[i] else s[i + 1]);
    forall y | y != x && y in s
      ensures y in r
    {
      var i :| 0 <= i < |s| && s[i] == y;
      assert i != k;
      if i < k { assert r[i] == y; } else { assert r[i - 1] == y; }
    }
  }

  /** The elements of a duplicate-free list are as many as its length. */
  lemma {:induction false} DistinctCardinality(s: seq<int>)
    requires NoDuplicates(s)
    ensures |set x | x in s| == |s|
  {
    if s != [] {
      var p := s[..|s| - 1];
      DistinctCardinality(p);
      assert (set x | x in s) == (set x | x in p) + {s[|s| - 1]};
      assert s[|s| - 1] !in (set x | x in p);
    }
  }

  /**
   * Regrouping a concatenation. Stated over abstract operands so that proofs about
   * concrete text need not compare it element by element.
   */
  lemma AppendAssociative<T>(a: seq<T>, b: seq<T>, c: seq<T>)
    ensures a + (b + c) == (a + b) + c
  {
  }

  /** A prefix one longer is the prefix followed by the next element. */
  lemma TakeSnoc<T>(s: seq<T>, j: nat)
    requires j < |s|
    ensures s[..j + 1] == s[..j] + [s[j]]
  {
  }
}

/**
 * Fisher-Yates shuffle on a copy of its input. The random index of each
 * step is a nondeterministic choice in [0, i], so every property proved
 * here holds whatever the random source returns.
 */
module Shuffle {

  /** No element occurs twice. */
  predicate Distinct<T(==)>(s: seq<T>) {
    forall i, j :: 0 <= i < j < |s| ==> s[i] != s[j]
  }

  function Elems<T>(s: seq<T>): set<T> {
    set x | x in s
  }

  /** Shuffles a copy of `list`; the caller's list is a value and stays as it was. */
  method Shuffle<T>(list: seq<T>) returns (shuffled: seq<T>)
    ensures |shuffled| == |list|
    ensures multiset(shuffled) == multiset(list)
  {
    var arr := new T[|list|](k requires 0 <= k < |list| => list[k]);
    assert arr[..] == list;
    var i := arr.Length - 1;
    while i > 0
      invariant i < arr.Length
      invariant multiset(arr[..]) == multiset(list)
    {
      var j :| 0 <= j <= i;
      arr[i], arr[j] := arr[j], arr[i];
      i := i - 1;
    }
    shuffled := arr[..];
  }

  /** A distinct sequence has as many elements as its set has members. */
  lemma {:induction false} DistinctCard<T>(s: seq<T>)
    requires Distinct(s)
    ensures |Elems(s)| == |s|
  {
    if s != [] {
      DistinctCard(s[1..]);
      assert Elems(s) == {s[0]} + Elems(s[1..]);
      assert s[0] !in Elems(s[1..]);
    }
  }

  /** In a distinct sequence every element occurs once. */
  lemma {:induction false} DistinctMultiplicity<T>(s: seq<T>, x: T)
    requires Distinct(s)
    ensures multiset(s)[x] <= 1
  {
    if s != [] {
      DistinctMultiplicity(s[1..], x);
      assert s == [s[0]] + s[1..];
      assert s[0] == x ==> x !in s[1..];
    }
  }

  /** An element found at two indices occurs at least twice. */
  lemma TwiceMultiplicity<T>(s: seq<T>, i: int, j: int)
    requires 0 <= i < j < |s| && s[i] == s[j]
    ensures multiset(s)[s[i]] >= 2
  {
    assert s == s[..i] + [s[i]] + s[i + 1..j] + [s[j]] + s[j + 1..];
  }

  /** A permutation of a distinct sequence is distinct. */
  lemma PermutationDistinct<T>(a: seq<T>, b: seq<T>)
    requires Distinct(a) && multiset(a) == multiset(b)
    ensures Distinct(b)
  {
    forall i, j | 0 <= i < j < |b|
      ensures b[i] != b[j]
    {
      if b[i] == b[j] {
        TwiceMultiplicity(b, i, j);
        DistinctMultiplicity(a, b[i]);
      }
    }
  }
}

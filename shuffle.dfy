/**
 * shuffleArray, written out identically in algorithms/generation/kruskal.js
 * and algorithms/generation/dfs-generation.js: Fisher-Yates in place.  The
 * random index j in [0, i] is a free choice, so every property below holds
 * for every sequence of random numbers.
 */
module Shuffle {

  /** The swap of one Fisher-Yates step. */
  function Swapped<T>(s: seq<T>, i: int, j: int): (r: seq<T>)
    requires 0 <= i < |s| && 0 <= j < |s|
    ensures |r| == |s| && r[i] == s[j] && r[j] == s[i]
    ensures forall k :: 0 <= k < |s| && k != i && k != j ==> r[k] == s[k]
    ensures multiset(r) == multiset(s)
  {
    s[i := s[j]][j := s[i]]
  }

  method ShuffleArray<T>(a: array<T>)
    modifies a
    ensures multiset(a[..]) == multiset(old(a[..]))
  {
    if a.Length == 0 {
      return;
    }
    var i := a.Length - 1;
    while i > 0
      invariant 0 <= i < a.Length
      invariant multiset(a[..]) == multiset(old(a[..]))
    {
      var j :| 0 <= j <= i;
      ghost var before := a[..];
      a[i], a[j] := a[j], a[i];
      assert a[..] == Swapped(before, i, j);
      i := i - 1;
    }
  }
}

/**
 * DisjointSets of algorithms/generation/kruskal.js: union-find over the
 * parent and rank arrays, with path compression in find and union by rank.
 *
 * The ghost sequence `root` names the representative of every element and
 * `depth` bounds the length of its parent chain; Valid() ties both to the
 * arrays, so `root` is what find computes and `depth` is why find ends.
 */
module UnionFind {

  /** Math.ceil(size / 2); Dafny's division is Euclidean, which agrees here for every integer. */
  function CeilHalf(size: int): (h: int)
    ensures 2 * h - 1 <= size <= 2 * h
  {
    (size + 1) / 2
  }

  /** The number of elements the constructor allocates. */
  function CellCount(size: int): (n: nat)
    ensures n == CeilHalf(size) * CeilHalf(size)
  {
    CeilHalf(size) * CeilHalf(size)
  }

  /** The representatives in use: one per set. */
  ghost function Classes(root: seq<int>): set<int> {
    set i | 0 <= i < |root| :: root[i]
  }

  /** The representatives after every member of the set named `from` is moved to the set named `to`. */
  function Relabel(root: seq<int>, from: int, to: int): (r: seq<int>)
    ensures |r| == |root|
    ensures forall i :: 0 <= i < |root| ==> r[i] == (if root[i] == from then to else root[i])
  {
    seq(|root|, i requires 0 <= i < |root| => if root[i] == from then to else root[i])
  }

  /**
   * Merging two different sets: two elements share a set afterwards exactly
   * when they shared one before, or one of them was in each merged set.
   */
  lemma RelabelJoins(root: seq<int>, x: int, y: int, a: int, b: int)
    requires 0 <= x < |root| && 0 <= y < |root| && 0 <= a < |root| && 0 <= b < |root|
    ensures var r := Relabel(root, root[y], root[x]);
      r[a] == r[b] <==>
        root[a] == root[b] ||
        ((root[a] == root[x] || root[a] == root[y]) && (root[b] == root[x] || root[b] == root[y]))
  {
  }

  /** Every two elements that shared a set in r0 share one in r1: sets were only merged. */
  ghost predicate Coarser(r0: seq<int>, r1: seq<int>) {
    |r1| == |r0| &&
    forall a, c :: 0 <= a < |r0| && 0 <= c < |r0| && r0[a] == r0[c] ==> r1[a] == r1[c]
  }

  /**
   * r1 is r0 after the sets of x and y are merged: two elements share a set
   * in r1 exactly when they shared one in r0, or each was in one of the
   * sets of x and y.
   */
  ghost predicate Merged(r0: seq<int>, r1: seq<int>, x: int, y: int)
    requires 0 <= x < |r0| && 0 <= y < |r0|
  {
    |r1| == |r0| &&
    forall a, c :: 0 <= a < |r0| && 0 <= c < |r0| ==>
      (r1[a] == r1[c] <==> r0[a] == r0[c] || ((r0[a] == r0[x] || r0[a] == r0[y]) && (r0[c] == r0[x] || r0[c] == r0[y])))
  }

  /** Both ways of relabelling merge the two sets, and with one set already nothing needs to change. */
  lemma MergedCases(root: seq<int>, x: int, y: int)
    requires 0 <= x < |root| && 0 <= y < |root|
    ensures Merged(root, Relabel(root, root[y], root[x]), x, y)
    ensures Merged(root, Relabel(root, root[x], root[y]), x, y)
    ensures root[x] == root[y] ==> Merged(root, root, x, y)
  {
  }

  lemma RelabelCoarser(root: seq<int>, from: int, to: int)
    ensures Coarser(root, Relabel(root, from, to))
  {
  }

  /** A merge of two different sets leaves one set fewer. */
  lemma RelabelClasses(root: seq<int>, x: int, y: int)
    requires 0 <= x < |root| && 0 <= y < |root| && root[x] != root[y]
    ensures Classes(Relabel(root, root[y], root[x])) == Classes(root) - {root[y]}
    ensures |Classes(Relabel(root, root[y], root[x]))| == |Classes(root)| - 1
  {
    var r := Relabel(root, root[y], root[x]);
    forall c | c in Classes(root) - {root[y]}
      ensures c in Classes(r)
    {
      var i :| 0 <= i < |root| && root[i] == c;
      assert r[i] == c;
    }
    assert root[y] in Classes(root);
  }

  /** Every element its own representative. */
  function Identity(n: nat): (id: seq<int>)
    ensures |id| == n && forall i :: 0 <= i < n ==> id[i] == i
  {
    seq(n, i => i)
  }

  /** The identity labelling of n elements has n sets. */
  lemma {:induction false} IdentityClasses(n: nat)
    ensures forall k :: k in Classes(Identity(n)) ==> 0 <= k < n
    ensures |Classes(Identity(n))| == n
    decreases n
  {
    if n > 0 {
      IdentityClasses(n - 1);
      var id, smaller := Identity(n), Identity(n - 1);
      assert Classes(id) == Classes(smaller) + {n - 1} by {
        forall k | k in Classes(id)
          ensures k in Classes(smaller) + {n - 1}
        {
          var i :| 0 <= i < n && id[i] == k;
          if i < n - 1 {
            assert smaller[i] == k;
          }
        }
        forall k | k in Classes(smaller)
          ensures k in Classes(id)
        {
          var i :| 0 <= i < n - 1 && smaller[i] == k;
          assert id[i] == k;
        }
        assert id[n - 1] == n - 1;
      }
    } else {
      assert Classes(Identity(n)) == {};
    }
  }

  /** The invariant of the parent and rank arrays, stated on their contents. */
  ghost predicate Inv(p: seq<int>, rk: seq<int>, root: seq<int>, depth: seq<nat>) {
    |rk| == |p| && |root| == |p| && |depth| == |p| &&
    (forall i :: 0 <= i < |p| ==> 0 <= p[i] < |p|) &&
    (forall i :: 0 <= i < |p| ==> 0 <= root[i] < |p|) &&
    (forall i :: 0 <= i < |p| ==> 0 <= rk[i]) &&
    (forall i {:trigger p[root[i]]} :: 0 <= i < |p| ==> p[root[i]] == root[i]) &&
    (forall i {:trigger p[i]} :: 0 <= i < |p| && p[i] == i ==> root[i] == i && depth[i] == 0) &&
    (forall i {:trigger p[i]} :: 0 <= i < |p| && p[i] != i ==>
      root[p[i]] == root[i] && depth[p[i]] < depth[i] && rk[p[i]] > rk[i] && rk[root[i]] > rk[i])
  }

  /** Path compression: pointing any element straight at its representative keeps the invariant. */
  lemma Compress(p: seq<int>, rk: seq<int>, root: seq<int>, depth: seq<nat>, x: int)
    requires Inv(p, rk, root, depth) && 0 <= x < |p|
    ensures Inv(p[x := root[x]], rk, root, depth)
  {
    var q := p[x := root[x]];
    forall i | 0 <= i < |q| && q[i] != i
      ensures root[q[i]] == root[i] && depth[q[i]] < depth[i] && rk[q[i]] > rk[i] && rk[root[i]] > rk[i]
    {
      if i == x {
        assert p[root[x]] == root[x];
      }
    }
  }

  /** The depths after the set named `low` is hung one level below another root. */
  function Deepened(root: seq<int>, depth: seq<nat>, low: int): (d: seq<nat>)
    requires |depth| == |root|
    ensures |d| == |depth|
    ensures forall i :: 0 <= i < |depth| ==> d[i] == (if root[i] == low then depth[i] + 1 else depth[i])
  {
    seq(|depth|, i requires 0 <= i < |depth| => if root[i] == low then depth[i] + 1 else depth[i])
  }

  /** Linking one root under another, with the rank bump on a tie, keeps the invariant. */
  lemma Link(p: seq<int>, rk: seq<int>, root: seq<int>, depth: seq<nat>, low: int, high: int)
    requires Inv(p, rk, root, depth) && 0 <= low < |p| && 0 <= high < |p|
    requires p[low] == low && p[high] == high && low != high && rk[low] <= rk[high]
    ensures Inv(p[low := high], if rk[low] == rk[high] then rk[high := rk[high] + 1] else rk,
                Relabel(root, low, high), Deepened(root, depth, low))
  {
    var q := p[low := high];
    var rk' := if rk[low] == rk[high] then rk[high := rk[high] + 1] else rk;
    var root' := Relabel(root, low, high);
    var depth' := Deepened(root, depth, low);
    forall i | 0 <= i < |q| && q[i] != i
      ensures root'[q[i]] == root'[i] && depth'[q[i]] < depth'[i] && rk'[q[i]] > rk'[i] && rk'[root'[i]] > rk'[i]
    {
      if i != low {
        assert p[i] != i;
      }
    }
  }

  /** Only path compression happened between parent arrays p and q: each entry is unchanged or the representative. */
  ghost predicate Compressed(p: seq<int>, q: seq<int>, root: seq<int>) {
    |q| == |p| && |root| == |p| && forall i :: 0 <= i < |p| ==> q[i] == p[i] || q[i] == root[i]
  }

  class DisjointSets {
    var parent: array<int>
    var rank: array<int>
    ghost var root: seq<int>
    ghost var depth: seq<nat>

    ghost predicate Valid()
      reads this, parent, rank
    {
      parent != rank && Inv(parent[..], rank[..], root, depth)
    }

    /** Every element its own set, with rank 0. */
    constructor(size: int)
      ensures Valid() && fresh(parent) && fresh(rank)
      ensures parent.Length == CellCount(size)
      ensures forall i :: 0 <= i < parent.Length ==> parent[i] == i && rank[i] == 0
      ensures root == Identity(CellCount(size))
    {
      var n := CellCount(size);
      parent := new int[n](i => i);
      rank := new int[n](i => 0);
      root := Identity(n);
      depth := seq(n, i => 0);
    }

    /** find: the representative of x; path compression points x's chain at it. */
    method Find(x: int) returns (r: int)
      requires Valid() && 0 <= x < parent.Length
      modifies parent
      ensures Valid()
      ensures r == root[x] && parent[r] == r
      ensures Compressed(old(parent[..]), parent[..], root)
      decreases depth[x]
    {
      ghost var p0 := parent[..];
      if parent[x] != x {
        var px := parent[x];
        assert p0[x] == px && p0[x] != x;
        assert depth[px] < depth[x] && root[px] == root[x];
        var up := Find(px);
        ghost var p1 := parent[..];
        parent[x] := up;
        Compress(p1, rank[..], root, depth, x);
        assert parent[..] == p1[x := root[x]];
      }
      r := parent[x];
      assert p0[root[x]] == root[x];
    }

    /**
     * union: merges the sets of x and y.  The root of lower rank goes under
     * the other; on a tie y's root goes under x's and x's rank grows by one.
     */
    method Union(x: int, y: int)
      requires Valid() && 0 <= x < parent.Length && 0 <= y < parent.Length
      modifies this, parent, rank
      ensures Valid() && parent == old(parent) && rank == old(rank)
      ensures root[x] == root[y] && Coarser(old(root), root) && Merged(old(root), root, x, y)
      ensures old(root[x]) == old(root[y]) ==> root == old(root) && rank[..] == old(rank[..])
      ensures var rx, ry, rk := old(root[x]), old(root[y]), old(rank[..]);
        rx != ry && rk[rx] < rk[ry] ==>
          root == Relabel(old(root), rx, ry) && parent[rx] == ry && rank[..] == rk
      ensures var rx, ry, rk := old(root[x]), old(root[y]), old(rank[..]);
        rx != ry && rk[rx] > rk[ry] ==>
          root == Relabel(old(root), ry, rx) && parent[ry] == rx && rank[..] == rk
      ensures var rx, ry, rk := old(root[x]), old(root[y]), old(rank[..]);
        rx != ry && rk[rx] == rk[ry] ==>
          root == Relabel(old(root), ry, rx) && parent[ry] == rx && rank[..] == rk[rx := rk[rx] + 1]
    {
      ghost var root0, rank0 := root, rank[..];
      MergedCases(root0, x, y);
      var rootX := Find(x);
      var rootY := Find(y);
      assert rank[..] == rank0;
      if rootX == rootY {
        return;
      }
      var low, high := rootY, rootX;
      if rank[rootX] < rank[rootY] {
        low, high := rootX, rootY;
      }
      assert root0[x] == rootX && root0[y] == rootY && {rootX, rootY} == {low, high};
      LinkRoots(low, high);
      assert root[x] == high && root[y] == high;
      RelabelCoarser(root0, low, high);
    }

    /** Hangs the root `low` under the root `high`; on equal ranks `high` gains a rank. */
    method LinkRoots(low: int, high: int)
      requires Valid() && 0 <= low < parent.Length && 0 <= high < parent.Length
      requires parent[low] == low && parent[high] == high && low != high && rank[low] <= rank[high]
      modifies this, parent, rank
      ensures Valid() && parent == old(parent) && rank == old(rank)
      ensures root == Relabel(old(root), low, high)
      ensures parent[..] == old(parent[..])[low := high]
      ensures rank[..] == if old(rank[low]) == old(rank[high]) then old(rank[..])[high := old(rank[high]) + 1] else old(rank[..])
    {
      ghost var p, rk := parent[..], rank[..];
      Link(p, rk, root, depth, low, high);
      var tie := rank[low] == rank[high];
      parent[low] := high;
      depth := Deepened(root, depth, low);
      root := Relabel(root, low, high);
      assert parent[..] == p[low := high];
      if tie {
        rank[high] := rank[high] + 1;
        assert rank[..] == rk[high := rk[high] + 1];
      }
    }
  }
}

/**
 * What the standalone solvers of algorithms/a-star.js,
 * algorithms/dijkstra.js and algorithms/depth-first.js share.  They keep
 * their scratch state (visited, parent, gScore, fScore, distance) in extra
 * properties of the cell objects; here that state is a set and maps keyed
 * by position, with a missing score meaning Infinity.
 */
module AsyncSearch {
  import opened Geometry
  import opened StableSort

  // ---------------------------------------------------------------------
  // `cells.sort((a, b) => a.score - b.score)` followed by `cells.shift()`

  /** The comparator key of a score map: a cell without a score is at Infinity. */
  function ScoreKey(score: map<Pos, nat>): Pos -> Cost {
    p => if p in score then Finite(score[p]) else Infinity
  }

  /** No cell occurs twice, counted through the multiset, which a sort keeps. */
  ghost predicate Once(s: seq<Pos>) {
    forall q :: multiset(s)[q] <= 1
  }

  /**
   * Sort by score, then shift: the first cell of the stable sort, which has
   * the least score of all, and the rest in sorted order; the cells are
   * the same ones.
   */
  method SortShift(cells: seq<Pos>, score: map<Pos, nat>) returns (first: Pos, rest: seq<Pos>)
    requires cells != []
    ensures [first] + rest == SortBy(cells, ScoreKey(score))
    ensures multiset(cells) == multiset{first} + multiset(rest)
    ensures forall q :: q in cells ==> CostLe(ScoreKey(score)(first), ScoreKey(score)(q))
  {
    var sorted := SortBy(cells, ScoreKey(score));
    SortByIsStableSort(cells, ScoreKey(score));
    FirstIsLeast(sorted, ScoreKey(score));
    first, rest := sorted[0], sorted[1..];
    assert sorted == [first] + rest;
    forall q | q in cells ensures CostLe(ScoreKey(score)(first), ScoreKey(score)(q)) {
      assert q in multiset(sorted);
    }
  }

  /** A cell once in the cells sorted and shifted is the first cell and nowhere else. */
  lemma ShiftOnce(cells: seq<Pos>, first: Pos, rest: seq<Pos>)
    requires multiset(cells) == multiset{first} + multiset(rest) && Once(cells)
    ensures Once(rest) && first !in rest
    ensures forall q :: q in rest <==> q in cells && q != first
  {
    forall q ensures multiset(rest)[q] <= 1 {
      assert multiset(cells)[q] == multiset{first}[q] + multiset(rest)[q];
    }
    forall q ensures q in rest <==> q in cells && q != first {
      assert q in rest <==> q in multiset(rest);
      assert q in cells <==> q in multiset(cells);
    }
  }

  /** Pushing a cell that is not there keeps every cell once. */
  lemma PushOnce(s: seq<Pos>, q: Pos)
    requires Once(s) && q !in s
    ensures Once(s + [q]) && forall p :: p in s + [q] <==> p in s || p == q
  {
    assert multiset(s + [q]) == multiset(s) + multiset{q};
    assert q !in multiset(s);
  }

  /** Once is no duplicates. */
  lemma {:induction false} OnceDistinct(s: seq<Pos>)
    ensures Once(s) <==> NoDuplicates(s)
    decreases |s|
  {
    if s != [] {
      var pre, last := s[..|s| - 1], s[|s| - 1];
      assert s == pre + [last];
      assert multiset(s) == multiset(pre) + multiset{last};
      OnceDistinct(pre);
      if Once(s) {
        assert Once(pre) by {
          forall q ensures multiset(pre)[q] <= 1 {
            assert multiset(pre)[q] <= multiset(s)[q];
          }
        }
        assert multiset(s)[last] == multiset(pre)[last] + 1;
        forall i, j | 0 <= i < j < |s| ensures s[i] != s[j] {
          if j < |s| - 1 {
            assert s[i] == pre[i] && s[j] == pre[j];
          } else {
            assert s[i] == pre[i] && pre[i] in multiset(pre);
          }
        }
      }
      if NoDuplicates(s) {
        assert NoDuplicates(pre) by {
          forall i, j | 0 <= i < j < |pre| ensures pre[i] != pre[j] {
            assert pre[i] == s[i] && pre[j] == s[j];
          }
        }
        assert last !in pre by {
          forall i | 0 <= i < |pre| ensures pre[i] != last {
            assert pre[i] == s[i] && last == s[|s| - 1];
          }
        }
        forall q ensures multiset(s)[q] <= 1 {
          if q == last {
            assert q !in multiset(pre);
          }
        }
      }
    }
  }

  // ---------------------------------------------------------------------
  // reconstructPath

  /** Parents rank strictly below their children, which bounds the walk back. */
  ghost predicate Descending(parent: map<Pos, Pos>, rank: map<Pos, nat>) {
    forall p {:trigger parent[p]} :: p in parent ==>
      p in rank && (parent[p] in parent ==> parent[p] in rank && rank[parent[p]] < rank[p])
  }

  /** The start has no parent, and every parent is the start or has a parent itself. */
  ghost predicate Rooted(parent: map<Pos, Pos>, start: Pos) {
    start !in parent && forall p {:trigger parent[p]} :: p in parent ==> parent[p] == start || parent[p] in parent
  }

  /** Each cell of path after the first has the cell before it as its parent. */
  ghost predicate Linked(parent: map<Pos, Pos>, path: seq<Pos>) {
    forall i :: 0 < i < |path| ==> path[i] in parent && parent[path[i]] == path[i - 1]
  }

  /**
   * reconstructPath: from the end cell, prepend the current cell and step
   * to its parent while there is a current cell and it is not the start;
   * prepend the start too when the walk stops there.  The path ends at the
   * end, follows parent links, and begins at the start or at a cell
   * without a parent; in a tree rooted at the start that holds the end,
   * it begins at the start.
   */
  method ReconstructPath(parent: map<Pos, Pos>, start: Pos, end: Pos, ghost rank: map<Pos, nat>) returns (path: seq<Pos>)
    requires Descending(parent, rank)
    ensures path != [] && path[|path| - 1] == end && Linked(parent, path)
    ensures path[0] == start || path[0] !in parent
    ensures start !in path[1..]
    ensures Rooted(parent, start) && (end == start || end in parent) ==> path[0] == start
  {
    path := [];
    var current: Option<Pos> := Some(end);
    while current.Some? && current.value != start
      invariant current.Some? && path == [] ==> current.value == end
      invariant current.Some? && path != [] ==> path[0] in parent && current.value == parent[path[0]]
      invariant current.None? ==> path != [] && path[0] !in parent
      invariant path != [] ==> path[|path| - 1] == end
      invariant Linked(parent, path) && start !in path
      decreases if current.None? then 0 else if current.value in parent then rank[current.value] + 2 else 1
    {
      path := [current.value] + path;
      current := if current.value in parent then Some(parent[current.value]) else None;
    }
    if current.Some? {
      path := [current.value] + path;
    }
    LinkedOrigin(parent, start, path, end);
  }

  /** A linked path to a cell of a tree rooted at the start begins at the start or at a cell with a parent. */
  lemma LinkedOrigin(parent: map<Pos, Pos>, start: Pos, path: seq<Pos>, end: Pos)
    requires path != [] && path[|path| - 1] == end && Linked(parent, path)
    ensures Rooted(parent, start) && (end == start || end in parent) ==> path[0] == start || path[0] in parent
  {
    if |path| > 1 {
      assert path[1] in parent && parent[path[1]] == path[0];
    }
  }

  /**
   * A walk over the grid that ignores walls: cells in the grid, each an
   * orthogonal neighbour of the one before.
   */
  ghost predicate GridWalk(size: int, path: seq<Pos>) {
    path != [] && (forall i :: 0 <= i < |path| ==> InBounds(size, path[i])) &&
    forall i :: 0 < i < |path| ==> Adjacent(path[i - 1], path[i])
  }

  /** Every cell with a parent is in the grid and an orthogonal neighbour of its parent. */
  ghost predicate GridTree(size: int, parent: map<Pos, Pos>) {
    forall p {:trigger parent[p]} :: p in parent ==> InBounds(size, p) && Adjacent(parent[p], p)
  }

  /** A linked path from a cell of the grid through such parents is a walk over the grid. */
  lemma LinkedWalk(size: int, parent: map<Pos, Pos>, path: seq<Pos>)
    requires GridTree(size, parent) && Linked(parent, path) && path != [] && InBounds(size, path[0])
    ensures GridWalk(size, path)
  {
    forall i | 0 < i < |path| ensures InBounds(size, path[i]) && Adjacent(path[i - 1], path[i]) {
      assert path[i] in parent;
    }
  }
}

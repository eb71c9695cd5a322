/**
 * Grid geometry shared by the maze, its generators and its solvers.
 *
 * The source identifies a cell by the object stored at grid[row][col]; the
 * model identifies it by its position.  A wall snapshot `walls` is the
 * isWall flag of every cell, row by row.
 */
module Geometry {

  datatype Option<T> = None | Some(value: T)

  datatype Pos = Pos(row: int, col: int)

  predicate InBounds(size: int, p: Pos) {
    0 <= p.row < size && 0 <= p.col < size
  }

  /** One orthogonal step: up, down, left or right. */
  predicate Adjacent(p: Pos, q: Pos) {
    (p.row == q.row && (p.col == q.col + 1 || p.col + 1 == q.col)) ||
    (p.col == q.col && (p.row == q.row + 1 || p.row + 1 == q.row))
  }

  /** One diagonal step. */
  predicate Diagonal(p: Pos, q: Pos) {
    (p.row == q.row + 1 || p.row + 1 == q.row) && (p.col == q.col + 1 || p.col + 1 == q.col)
  }

  function Shift(p: Pos, dr: int, dc: int): Pos {
    Pos(p.row + dr, p.col + dc)
  }

  /** Every position of a size x size grid. */
  ghost function AllCells(size: int): set<Pos> {
    set r, c | 0 <= r < size && 0 <= c < size :: Pos(r, c)
  }

  lemma InAllCells(size: int, p: Pos)
    requires InBounds(size, p)
    ensures p in AllCells(size)
  {
    assert p == Pos(p.row, p.col);
  }

  /** Taking one more unseen position out of the universe shrinks what is left. */
  lemma FewerUnseen(all: set<Pos>, seen: set<Pos>, p: Pos)
    requires p in all && p !in seen
    ensures |all - (seen + {p})| == |all - seen| - 1
  {
    assert all - (seen + {p}) == (all - seen) - {p};
  }

  /** No position occurs twice. */
  predicate NoDuplicates(s: seq<Pos>) {
    forall i, j :: 0 <= i < j < |s| ==> s[i] != s[j]
  }

  predicate IsSquare(walls: seq<seq<bool>>) {
    forall r :: 0 <= r < |walls| ==> |walls[r]| == |walls|
  }

  /** An in-bounds cell that is not a wall. */
  predicate Open(walls: seq<seq<bool>>, p: Pos) {
    0 <= p.row < |walls| && 0 <= p.col < |walls[p.row]| && !walls[p.row][p.col]
  }

  /**
   * A walk: orthogonal steps that stay in bounds and enter only open cells.
   * The first cell is only required to be in bounds: every search of the
   * source starts from its start cell without looking at that cell's wall flag.
   */
  predicate IsWalk(walls: seq<seq<bool>>, path: seq<Pos>) {
    |path| > 0 && InBounds(|walls|, path[0]) &&
    forall i :: 0 < i < |path| ==> Adjacent(path[i - 1], path[i]) && Open(walls, path[i])
  }

  ghost predicate Reachable(walls: seq<seq<bool>>, s: Pos, t: Pos) {
    exists path :: IsWalk(walls, path) && path[0] == s && path[|path| - 1] == t
  }

  /** No walk from s to t takes fewer than k steps. */
  ghost predicate NoShorterWalk(walls: seq<seq<bool>>, s: Pos, t: Pos, k: nat) {
    forall path :: IsWalk(walls, path) && path[0] == s && path[|path| - 1] == t ==> k <= |path| - 1
  }

  /** Every cell of a walk on a square grid is in bounds. */
  lemma WalkInBounds(walls: seq<seq<bool>>, path: seq<Pos>, i: int)
    requires IsSquare(walls) && IsWalk(walls, path) && 0 <= i < |path|
    ensures InBounds(|walls|, path[i])
  {
    if i > 0 {
      assert Open(walls, path[i]);
    }
  }

  lemma ReachableRefl(walls: seq<seq<bool>>, s: Pos)
    requires InBounds(|walls|, s)
    ensures Reachable(walls, s, s)
  {
    assert IsWalk(walls, [s]);
  }

  /** Extending a walk by one open neighbour. */
  lemma ReachableStep(walls: seq<seq<bool>>, s: Pos, p: Pos, q: Pos)
    requires Reachable(walls, s, p) && Adjacent(p, q) && Open(walls, q)
    ensures Reachable(walls, s, q)
  {
    var path :| IsWalk(walls, path) && path[0] == s && path[|path| - 1] == p;
    var longer := path + [q];
    assert IsWalk(walls, longer);
    assert longer[|longer| - 1] == q;
  }

  /** Walks join end to end. */
  lemma ReachableTrans(walls: seq<seq<bool>>, s: Pos, p: Pos, q: Pos)
    requires Reachable(walls, s, p) && Reachable(walls, p, q)
    ensures Reachable(walls, s, q)
  {
    var first :| IsWalk(walls, first) && first[0] == s && first[|first| - 1] == p;
    var second :| IsWalk(walls, second) && second[0] == p && second[|second| - 1] == q;
    var joined := first + second[1..];
    forall i | 0 < i < |joined|
      ensures Adjacent(joined[i - 1], joined[i]) && Open(walls, joined[i])
    {
      if i >= |first| {
        assert joined[i] == second[i - |first| + 1];
        assert joined[i - 1] == second[i - |first|];
      }
    }
    assert IsWalk(walls, joined);
    assert joined[|joined| - 1] == q;
  }

  /**
   * A set of cells that contains s and is closed under open orthogonal steps
   * contains every cell reachable from s.
   */
  lemma {:induction false} ClosedContainsWalk(walls: seq<seq<bool>>, closed: set<Pos>, path: seq<Pos>)
    requires IsWalk(walls, path) && path[0] in closed
    requires forall p, q :: p in closed && Adjacent(p, q) && Open(walls, q) ==> q in closed
    ensures path[|path| - 1] in closed
    decreases |path|
  {
    if |path| > 1 {
      var prefix := path[..|path| - 1];
      assert IsWalk(walls, prefix) by {
        forall i | 0 < i < |prefix|
          ensures Adjacent(prefix[i - 1], prefix[i]) && Open(walls, prefix[i])
        {
          assert prefix[i - 1] == path[i - 1] && prefix[i] == path[i];
        }
      }
      ClosedContainsWalk(walls, closed, prefix);
      assert Adjacent(path[|path| - 2], path[|path| - 1]);
    }
  }

  lemma ClosedContainsReachable(walls: seq<seq<bool>>, closed: set<Pos>, s: Pos, t: Pos)
    requires s in closed
    requires forall p, q :: p in closed && Adjacent(p, q) && Open(walls, q) ==> q in closed
    ensures Reachable(walls, s, t) ==> t in closed
  {
    if Reachable(walls, s, t) {
      var path :| IsWalk(walls, path) && path[0] == s && path[|path| - 1] == t;
      ClosedContainsWalk(walls, closed, path);
    }
  }

  /** Manhattan distance, the heuristic of both A* searches. */
  function Manhattan(a: Pos, b: Pos): (d: nat)
    ensures d == 0 <==> a == b
  {
    (if a.row >= b.row then a.row - b.row else b.row - a.row) +
    (if a.col >= b.col then a.col - b.col else b.col - a.col)
  }

  /** The heuristic is consistent: one orthogonal step changes it by at most one. */
  lemma ManhattanStep(a: Pos, b: Pos, t: Pos)
    requires Adjacent(a, b)
    ensures Manhattan(a, b) == 1
    ensures Manhattan(a, t) <= Manhattan(b, t) + 1 && Manhattan(b, t) <= Manhattan(a, t) + 1
  {
  }

  /** The heuristic is admissible: no walk is shorter than the Manhattan distance of its ends. */
  lemma {:induction false} WalkAtLeastManhattan(walls: seq<seq<bool>>, path: seq<Pos>)
    requires IsWalk(walls, path)
    ensures Manhattan(path[0], path[|path| - 1]) <= |path| - 1
    decreases |path|
  {
    if |path| > 1 {
      var prefix := path[..|path| - 1];
      assert IsWalk(walls, prefix) by {
        forall i | 0 < i < |prefix|
          ensures Adjacent(prefix[i - 1], prefix[i]) && Open(walls, prefix[i])
        {
          assert prefix[i - 1] == path[i - 1] && prefix[i] == path[i];
        }
      }
      WalkAtLeastManhattan(walls, prefix);
      ManhattanStep(path[|path| - 2], path[|path| - 1], path[0]);
      assert Manhattan(path[0], path[|path| - 2]) == Manhattan(path[|path| - 2], path[0]);
      assert Manhattan(path[0], path[|path| - 1]) == Manhattan(path[|path| - 1], path[0]);
    }
  }
}

/**
 * solveMazeWithDijkstra of algorithms/dijkstra.js: every cell of the grid
 * goes into an unvisited array, which is sorted by distance and shifted
 * each turn; distance, parent and the visited flag live on the cells.
 * Neighbours come from getNeighbors without any wall test, so the search
 * runs over the whole grid.  The maze is only read.
 */
module AsyncDijkstra {
  import opened Geometry
  import opened MazeSpec
  import opened MazeGrid
  import opened StableSort
  import opened Solving
  import opened AsyncSearch

  /** The search state: the unvisited array and the scratch fields of the cells (a missing distance is Infinity). */
  datatype Dijkstra = Dijkstra(unvisited: seq<Pos>, visited: set<Pos>, distance: map<Pos, nat>, parent: map<Pos, Pos>)

  /** p comes before q in row-major order. */
  predicate RowMajorBefore(p: Pos, q: Pos) {
    p.row < q.row || (p.row == q.row && p.col < q.col)
  }

  /**
   * The initialisation loops: every cell of the grid, row by row and
   * column by column, one entry per cell.
   */
  method GridCells(size: int) returns (cells: seq<Pos>)
    ensures forall q :: q in cells <==> InBounds(size, q)
    ensures forall i, j :: 0 <= i < j < |cells| ==> RowMajorBefore(cells[i], cells[j])
    ensures |cells| == if size <= 0 then 0 else size * size
  {
    cells := [];
    var row := 0;
    while row < size
      invariant 0 <= row && (size > 0 ==> row <= size) && |cells| == row * size
      invariant forall q :: q in cells <==> 0 <= q.row < row && 0 <= q.col < size
      invariant forall i, j :: 0 <= i < j < |cells| ==> RowMajorBefore(cells[i], cells[j])
    {
      var col := 0;
      while col < size
        invariant 0 <= col <= size && |cells| == row * size + col
        invariant forall q :: q in cells <==> (0 <= q.row < row && 0 <= q.col < size) || (q.row == row && 0 <= q.col < col)
        invariant forall i, j :: 0 <= i < j < |cells| ==> RowMajorBefore(cells[i], cells[j])
      {
        assert forall q :: q in cells ==> RowMajorBefore(q, Pos(row, col));
        cells := cells + [Pos(row, col)];
        col := col + 1;
      }
      assert (row + 1) * size == row * size + size;
      row := row + 1;
    }
  }

  /**
   * One pass of the neighbour loop for neighbour n of current: a visited
   * neighbour is skipped; otherwise a strictly smaller distance through
   * current sets distance and parent together.
   */
  function Relax(st: Dijkstra, current: Pos, n: Pos): (r: Dijkstra)
    requires current in st.distance
    ensures r.unvisited == st.unvisited && r.visited == st.visited
    ensures forall q :: q in st.distance ==> q in r.distance
    ensures forall q :: q in st.visited && q in st.distance ==> r.distance[q] == st.distance[q]
  {
    if n in st.visited then st
    else
      var newDistance := st.distance[current] + 1;
      if n !in st.distance || newDistance < st.distance[n] then
        st.(distance := st.distance[n := newDistance], parent := st.parent[n := current])
      else st
  }

  /**
   * Relax changes the state exactly when n is unvisited and the distance
   * through current is strictly smaller than n's, and then only n's
   * distance and parent, together.
   */
  lemma RelaxImproves(st: Dijkstra, current: Pos, n: Pos)
    requires current in st.distance
    ensures var r := Relax(st, current, n);
      var better := n !in st.visited && (n !in st.distance || st.distance[current] + 1 < st.distance[n]);
      (better ==> r == st.(distance := st.distance[n := st.distance[current] + 1], parent := st.parent[n := current])) &&
      (!better ==> r == st)
  {
  }

  /** The neighbour loop over ns, one Relax per neighbour in order; visited cells keep their distances. */
  function RelaxAll(st: Dijkstra, current: Pos, ns: seq<Pos>): (r: Dijkstra)
    requires current in st.distance
    ensures r.unvisited == st.unvisited && r.visited == st.visited && current in r.distance
    ensures forall q :: q in st.visited && q in st.distance ==> q in r.distance && r.distance[q] == st.distance[q]
    decreases |ns|
  {
    if ns == [] then st
    else Relax(RelaxAll(st, current, ns[..|ns| - 1]), current, ns[|ns| - 1])
  }

  /**
   * What holds between turns, with frontier the distance of the cell
   * visited last: the start is at 0 without a parent; the unvisited array
   * holds every unvisited cell of the grid once; every cell with a
   * distance is in the grid, the start or with a parent, and no nearer
   * than the frontier unless visited; visited cells are no further than
   * the frontier; each parent is a visited orthogonal neighbour one step
   * nearer.
   */
  ghost predicate Inv(size: int, s: Pos, st: Dijkstra, frontier: nat) {
    var holds := InBounds(size, s) && s in st.distance && st.distance[s] == 0 && s !in st.parent &&
    Once(st.unvisited) && (forall q :: q in st.unvisited <==> InBounds(size, q) && q !in st.visited) &&
    (forall p :: p in st.distance ==>
      InBounds(size, p) && (p == s || p in st.parent) && (p in st.visited || frontier <= st.distance[p])) &&
    (forall q :: q in st.visited ==> q in st.distance && st.distance[q] <= frontier) &&
    forall p {:trigger st.parent[p]} :: p in st.parent ==>
      p in st.distance && st.parent[p] in st.visited && st.parent[p] in st.distance &&
      st.distance[p] == st.distance[st.parent[p]] + 1 && Adjacent(st.parent[p], p);
    holds
  }

  /** The start state: all cells unvisited, the start at distance 0, no parents. */
  lemma InvStart(size: int, s: Pos, cells: seq<Pos>)
    requires InBounds(size, s)
    requires forall q :: q in cells <==> InBounds(size, q)
    requires forall i, j :: 0 <= i < j < |cells| ==> RowMajorBefore(cells[i], cells[j])
    ensures Inv(size, s, Dijkstra(cells, {}, map[s := 0], map[]), 0)
  {
    assert NoDuplicates(cells) by {
      forall i, j | 0 <= i < j < |cells| ensures cells[i] != cells[j] {
        assert RowMajorBefore(cells[i], cells[j]);
      }
    }
    OnceDistinct(cells);
  }

  /**
   * Shifting the least cell, which has a distance, and visiting it keeps
   * Inv with its distance as the new frontier, which is no nearer than the
   * old one.
   */
  lemma InvVisit(size: int, s: Pos, st: Dijkstra, frontier: nat, current: Pos, rest: seq<Pos>)
    requires Inv(size, s, st, frontier) && current in st.distance
    requires multiset(st.unvisited) == multiset{current} + multiset(rest)
    requires forall q :: q in st.unvisited ==> CostLe(ScoreKey(st.distance)(current), ScoreKey(st.distance)(q))
    ensures current !in st.visited && InBounds(size, current) && frontier <= st.distance[current]
    ensures Inv(size, s, st.(unvisited := rest, visited := st.visited + {current}), st.distance[current])
  {
    ShiftOnce(st.unvisited, current, rest);
    assert current in multiset(st.unvisited);
    var d := st.distance[current];
    forall p | p in st.distance && p !in st.visited + {current} ensures d <= st.distance[p] {
      assert p in st.unvisited;
      assert CostLe(ScoreKey(st.distance)(current), ScoreKey(st.distance)(p));
    }
  }

  /** Relax keeps Inv for an orthogonal neighbour in the grid of a visited cell. */
  lemma InvRelax(size: int, s: Pos, st: Dijkstra, frontier: nat, current: Pos, n: Pos)
    requires Inv(size, s, st, frontier) && current in st.visited && current in st.distance
    requires st.distance[current] == frontier && InBounds(size, n) && Adjacent(current, n)
    ensures Inv(size, s, Relax(st, current, n), frontier)
  {
    RelaxImproves(st, current, n);
    var r := Relax(st, current, n);
    if r != st {
      assert n != s;
      forall p | p in r.parent
        ensures p in r.distance && r.parent[p] in r.visited && r.parent[p] in r.distance &&
          r.distance[p] == r.distance[r.parent[p]] + 1 && Adjacent(r.parent[p], p)
      {
        if p != n {
          assert st.parent[p] in st.visited;
        }
      }
    }
  }

  /** The whole neighbour loop keeps Inv. */
  lemma {:induction false} InvRelaxAll(size: int, s: Pos, st: Dijkstra, frontier: nat, current: Pos, ns: seq<Pos>)
    requires Inv(size, s, st, frontier) && current in st.visited && current in st.distance
    requires st.distance[current] == frontier
    requires forall n :: n in ns ==> InBounds(size, n) && Adjacent(current, n)
    ensures Inv(size, s, RelaxAll(st, current, ns), frontier)
    decreases |ns|
  {
    if ns != [] {
      var pre := ns[..|ns| - 1];
      assert forall n :: n in pre ==> n in ns;
      InvRelaxAll(size, s, st, frontier, current, pre);
      InvRelax(size, s, RelaxAll(st, current, pre), frontier, current, ns[|ns| - 1]);
    }
  }

  /** The parents form a tree rooted at s, in the grid, whose walk back terminates. */
  lemma InvTree(size: int, s: Pos, st: Dijkstra, frontier: nat)
    requires Inv(size, s, st, frontier)
    ensures Descending(st.parent, st.distance) && Rooted(st.parent, s) && GridTree(size, st.parent)
  {
  }

  /** Each cell with a parent is one step further than its parent. */
  ghost predicate OneStep(parent: map<Pos, Pos>, distance: map<Pos, nat>) {
    forall p {:trigger parent[p]} :: p in parent ==>
      p in distance && parent[p] in distance && distance[p] == distance[parent[p]] + 1
  }

  /** Along a linked path from a cell at distance 0 each cell is one step further than the one before. */
  lemma {:induction false} LinkedDistance(parent: map<Pos, Pos>, distance: map<Pos, nat>, path: seq<Pos>)
    requires OneStep(parent, distance) && Linked(parent, path) && path != []
    requires path[0] in distance && distance[path[0]] == 0
    ensures forall i :: 0 <= i < |path| ==> path[i] in distance && distance[path[i]] == i
    decreases |path|
  {
    if |path| > 1 {
      var pre := path[..|path| - 1];
      assert Linked(parent, pre) by {
        forall i | 0 < i < |pre| ensures pre[i] in parent && parent[pre[i]] == pre[i - 1] {
          assert pre[i] == path[i] && pre[i - 1] == path[i - 1];
        }
      }
      LinkedDistance(parent, distance, pre);
      var k := |path| - 1;
      assert path[k] in parent && parent[path[k]] == path[k - 1];
      forall i | 0 <= i < k ensures path[i] in distance && distance[path[i]] == i {
        assert path[i] == pre[i];
      }
    }
  }

  /** The neighbour loop: the visited test, the strict distance test, and the two updates. */
  method RelaxNeighbors(st: Dijkstra, current: Pos, neighbors: seq<Pos>) returns (st': Dijkstra)
    requires current in st.distance
    ensures st' == RelaxAll(st, current, neighbors)
  {
    st' := st;
    var i := 0;
    while i < |neighbors|
      invariant 0 <= i <= |neighbors| && st' == RelaxAll(st, current, neighbors[..i])
    {
      var neighbor := neighbors[i];
      assert neighbors[..i + 1][..i] == neighbors[..i];
      ghost var before := st';
      i := i + 1;
      if neighbor in st'.visited {
        continue;
      }
      var newDistance := st'.distance[current] + 1;
      if neighbor !in st'.distance || newDistance < st'.distance[neighbor] {
        st' := st'.(distance := st'.distance[neighbor := newDistance], parent := st'.parent[neighbor := current]);
      }
      assert st' == Relax(before, current, neighbor);
    }
    assert neighbors[..i] == neighbors;
  }

  /**
   * solveMazeWithDijkstra.  Without a start or an end: no path and no
   * visited cells.  Otherwise the visited cells are distinct cells of the
   * grid, at most one per cell, in non-decreasing order of the distances
   * dist the search assigned them; a path, when found, is a walk over the
   * grid from the start to the end (walls are not consulted) with as many
   * steps as the end's distance, and the end is the last visited cell;
   * without a path the end was never visited.
   */
  method SolveMazeWithDijkstra(m: Maze) returns (path: Option<seq<Pos>>, visitedCells: seq<Pos>, ghost dist: map<Pos, nat>)
    requires m.Ready()
    ensures !m.HasStartAndEnd() ==> path == None && visitedCells == []
    ensures NoDuplicates(visitedCells) && forall q :: q in visitedCells ==> InBounds(m.size, q)
    ensures m.HasStartAndEnd() ==> |visitedCells| <= m.size * m.size
    ensures InOrder(visitedCells, dist)
    ensures path.Some? ==>
      m.HasStartAndEnd() && GridWalk(m.size, path.value) &&
      path.value[0] == m.startCell.value && path.value[|path.value| - 1] == m.endCell.value &&
      m.endCell.value in dist && |path.value| == dist[m.endCell.value] + 1 &&
      visitedCells != [] && visitedCells[|visitedCells| - 1] == m.endCell.value
    ensures path.None? && m.HasStartAndEnd() ==> m.endCell.value !in visitedCells
  {
    if m.startCell.None? || m.endCell.None? {
      return None, [], map[];
    }
    var s, t := m.startCell.value, m.endCell.value;
    assert InBounds(m.size, s) && InBounds(m.size, t) by {
      assert Roles(m.Model());
    }
    path, visitedCells, dist := Search(m, s, t);
  }

  /**
   * The search loop from s to t: sort the unvisited cells by distance,
   * shift the least, stop when it is at Infinity, visit it, stop at t with
   * the reconstructed path, otherwise relax its neighbours.
   */
  method Search(m: Maze, s: Pos, t: Pos) returns (path: Option<seq<Pos>>, visitedCells: seq<Pos>, ghost dist: map<Pos, nat>)
    requires InBounds(m.size, s) && InBounds(m.size, t)
    ensures NoDuplicates(visitedCells) && forall q :: q in visitedCells ==> InBounds(m.size, q)
    ensures |visitedCells| <= m.size * m.size
    ensures InOrder(visitedCells, dist)
    ensures path.Some? ==>
      GridWalk(m.size, path.value) && path.value[0] == s && path.value[|path.value| - 1] == t &&
      t in dist && |path.value| == dist[t] + 1 &&
      visitedCells != [] && visitedCells[|visitedCells| - 1] == t
    ensures path.None? ==> t !in visitedCells
  {
    var n := m.size;
    var cells := GridCells(n);
    var st := Dijkstra(cells, {}, map[s := 0], map[]);
    ghost var frontier: nat := 0;
    visitedCells := [];
    InvStart(n, s, cells);
    while st.unvisited != []
      invariant Inv(n, s, st, frontier)
      invariant st.visited == Members(visitedCells) && NoDuplicates(visitedCells) && t !in st.visited
      invariant forall q :: q in visitedCells ==> InBounds(n, q)
      invariant InOrder(visitedCells, st.distance)
      invariant |visitedCells| + |st.unvisited| == n * n
      decreases |st.unvisited|
    {
      var current, rest := SortShift(st.unvisited, st.distance);
      if current !in st.distance {
        break;
      }
      InvVisit(n, s, st, frontier, current, rest);
      AppendFresh(visitedCells, current);
      InOrderVisit(n, s, st, frontier, visitedCells, current);
      frontier := st.distance[current];
      st := st.(unvisited := rest, visited := st.visited + {current});
      visitedCells := visitedCells + [current];
      if current == t {
        var p := PathTo(n, s, t, st, frontier);
        return Some(p), visitedCells, st.distance;
      }
      var neighbors := m.GetNeighbors(current.row, current.col, false);
      InvRelaxAll(n, s, st, frontier, current, neighbors);
      InOrderRelaxed(st, current, neighbors, visitedCells);
      st := RelaxNeighbors(st, current, neighbors);
    }
    return None, visitedCells, st.distance;
  }

  /** The cells have distances that never decrease along the sequence. */
  ghost predicate InOrder(cells: seq<Pos>, distance: map<Pos, nat>) {
    var holds := forall i, j :: 0 <= i < j < |cells| ==>
      cells[i] in distance && cells[j] in distance && distance[cells[i]] <= distance[cells[j]];
    holds
  }

  /** Visiting a cell no nearer than the frontier keeps the visited cells in distance order. */
  lemma InOrderVisit(size: int, s: Pos, st: Dijkstra, frontier: nat, visitedCells: seq<Pos>, current: Pos)
    requires Inv(size, s, st, frontier) && InOrder(visitedCells, st.distance)
    requires (forall q :: q in visitedCells ==> q in st.visited)
    requires current in st.distance && frontier <= st.distance[current]
    ensures InOrder(visitedCells + [current], st.distance)
  {
    var cs := visitedCells + [current];
    forall i, j | 0 <= i < j < |cs| ensures cs[i] in st.distance && cs[j] in st.distance && st.distance[cs[i]] <= st.distance[cs[j]] {
      assert cs[i] == visitedCells[i] && cs[i] in st.visited;
      if j < |visitedCells| {
        assert cs[j] == visitedCells[j];
      }
    }
  }

  /** Relaxing the neighbours leaves the distances of visited cells alone, so their order stays. */
  lemma InOrderRelaxed(st: Dijkstra, current: Pos, ns: seq<Pos>, visitedCells: seq<Pos>)
    requires current in st.distance && InOrder(visitedCells, st.distance)
    requires forall q :: q in visitedCells ==> q in st.visited && q in st.distance
    ensures InOrder(visitedCells, RelaxAll(st, current, ns).distance)
  {
    var d := RelaxAll(st, current, ns).distance;
    forall i, j | 0 <= i < j < |visitedCells| ensures visitedCells[i] in d && visitedCells[j] in d && d[visitedCells[i]] <= d[visitedCells[j]] {
      assert visitedCells[i] in st.visited && visitedCells[j] in st.visited;
    }
  }

  /**
   * reconstructPath once t is visited: a walk over the grid from s to t
   * with as many steps as t's distance.
   */
  method PathTo(size: int, s: Pos, t: Pos, st: Dijkstra, ghost frontier: nat) returns (path: seq<Pos>)
    requires Inv(size, s, st, frontier) && t in st.distance
    ensures GridWalk(size, path) && path[0] == s && path[|path| - 1] == t && |path| == st.distance[t] + 1
  {
    InvTree(size, s, st, frontier);
    path := AsyncSearch.ReconstructPath(st.parent, s, t, st.distance);
    LinkedWalk(size, st.parent, path);
    assert OneStep(st.parent, st.distance);
    LinkedDistance(st.parent, st.distance, path);
  }
}

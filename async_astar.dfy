/**
 * solveMazeWithAStar of algorithms/a-star.js: the open set is an array
 * sorted by fScore and shifted each turn, the closed set an array, and
 * parent, gScore and fScore live on the cells.  Neighbours come from
 * getNeighbors without any wall test, so the search runs over the whole
 * grid.  The maze is only read.
 */
module AsyncAStar {
  import opened Geometry
  import opened MazeSpec
  import opened MazeGrid
  import opened StableSort
  import opened Solving
  import opened AsyncSearch

  /** The search state: open and closed arrays and the scratch fields of the cells. */
  datatype AStar = AStar(open: seq<Pos>, closed: seq<Pos>, parent: map<Pos, Pos>, g: map<Pos, nat>, f: map<Pos, nat>)

  /** heuristic: the Manhattan distance, with the properties of Manhattan. */
  function Heuristic(row1: int, col1: int, row2: int, col2: int): (h: nat)
    ensures h == Manhattan(Pos(row1, col1), Pos(row2, col2))
  {
    (if row1 >= row2 then row1 - row2 else row2 - row1) + (if col1 >= col2 then col1 - col2 else col2 - col1)
  }

  /**
   * One pass of the neighbour loop for neighbour n of current: a closed
   * neighbour is skipped; otherwise a strictly smaller gScore through
   * current sets parent, gScore and fScore together and opens n unless it
   * is open already.
   */
  function Relax(st: AStar, current: Pos, n: Pos, t: Pos): (r: AStar)
    requires current in st.g
    ensures r.closed == st.closed && current in r.g && r.g[current] == st.g[current]
  {
    if n in st.closed then st
    else
      var tentative := st.g[current] + 1;
      if n !in st.g || tentative < st.g[n] then
        st.(parent := st.parent[n := current], g := st.g[n := tentative],
            f := st.f[n := tentative + Heuristic(n.row, n.col, t.row, t.col)],
            open := if n in st.open then st.open else st.open + [n])
      else st
  }

  /**
   * Relax changes nothing for a closed neighbour, and otherwise only on a
   * strictly smaller gScore, when parent, gScore and fScore of n change
   * together (fScore is gScore plus the heuristic) and n becomes open;
   * every other cell keeps its fields.
   */
  lemma RelaxImproves(st: AStar, current: Pos, n: Pos, t: Pos)
    requires current in st.g
    ensures n in st.closed ==> Relax(st, current, n, t) == st
    ensures var r := Relax(st, current, n, t);
      forall p :: p != n ==>
        (p in r.g <==> p in st.g) && (p in r.g ==> r.g[p] == st.g[p]) &&
        (p in r.f <==> p in st.f) && (p in r.f ==> r.f[p] == st.f[p]) &&
        (p in r.parent <==> p in st.parent) && (p in r.parent ==> r.parent[p] == st.parent[p])
    ensures var r := Relax(st, current, n, t);
      r != st ==>
        n !in st.closed && n in r.g && n in r.f && (n in st.g ==> r.g[n] < st.g[n]) &&
        r.parent == st.parent[n := current] && r.g[n] == st.g[current] + 1 && r.f[n] == r.g[n] + Manhattan(n, t)
    ensures var r := Relax(st, current, n, t);
      forall q :: q in r.open <==> q in st.open || (r != st && q == n)
  {
  }

  /** The neighbour loop over ns, one Relax per neighbour in order. */
  function RelaxAll(st: AStar, current: Pos, ns: seq<Pos>, t: Pos): (r: AStar)
    requires current in st.g
    ensures r.closed == st.closed && current in r.g && r.g[current] == st.g[current]
  {
    if ns == [] then st
    else Relax(RelaxAll(st, current, ns[..|ns| - 1], t), current, ns[|ns| - 1], t)
  }

  /**
   * The invariant of the search from s towards t: s has gScore 0 and no
   * parent; every scored cell is in the grid, its fScore is gScore plus
   * the heuristic, and it is s or has a parent; a parent is an orthogonal
   * neighbour with a smaller gScore; the open array holds scored cells,
   * each once and none closed; the closed array holds scored cells, each
   * once.
   */
  ghost predicate Inv(size: int, s: Pos, t: Pos, st: AStar) {
    var holds := InBounds(size, s) && s in st.g && st.g[s] == 0 && s !in st.parent && st.f.Keys == st.g.Keys &&
    Once(st.open) && NoDuplicates(st.closed) &&
    (forall q :: q in st.open ==> q in st.g && q !in st.closed) &&
    (forall q :: q in st.closed ==> q in st.g) &&
    (forall p :: p in st.g ==> InBounds(size, p) && st.f[p] == st.g[p] + Manhattan(p, t) && (p == s || p in st.parent)) &&
    forall p {:trigger st.parent[p]} :: p in st.parent ==>
      p in st.g && st.parent[p] in st.g && st.g[st.parent[p]] < st.g[p] && Adjacent(st.parent[p], p);
    holds
  }

  /** The search starts with the start cell open, scored 0, and nothing closed. */
  lemma InvStart(size: int, s: Pos, t: Pos)
    requires InBounds(size, s)
    ensures Inv(size, s, t, AStar([s], [], map[], map[s := 0], map[s := Manhattan(s, t)]))
  {
    OnceDistinct([s]);
  }

  /**
   * Shifting the least open cell and closing it keeps Inv; the cell was
   * scored, in the grid and not closed, so fewer cells of the grid remain
   * unclosed.
   */
  lemma InvShift(size: int, s: Pos, t: Pos, st: AStar, current: Pos, rest: seq<Pos>)
    requires Inv(size, s, t, st) && multiset(st.open) == multiset{current} + multiset(rest)
    ensures current in st.g && InBounds(size, current) && current !in st.closed
    ensures Inv(size, s, t, st.(open := rest, closed := st.closed + [current]))
    ensures |AllCells(size) - Members(st.closed + [current])| < |AllCells(size) - Members(st.closed)|
  {
    ShiftOnce(st.open, current, rest);
    assert current in multiset(st.open);
    AppendFresh(st.closed, current);
    InAllCells(size, current);
    FewerUnseen(AllCells(size), Members(st.closed), current);
  }

  /** The closed cells are distinct cells of the grid. */
  lemma InvClosed(size: int, s: Pos, t: Pos, st: AStar)
    requires Inv(size, s, t, st)
    ensures NoDuplicates(st.closed) && forall q :: q in st.closed ==> InBounds(size, q)
  {
  }

  /** A Relax from a scored current cell to an orthogonal neighbour in the grid keeps Inv. */
  lemma InvRelax(size: int, s: Pos, t: Pos, st: AStar, current: Pos, n: Pos)
    requires Inv(size, s, t, st) && current in st.g && InBounds(size, n) && Adjacent(current, n)
    ensures Inv(size, s, t, Relax(st, current, n, t))
  {
    var r := Relax(st, current, n, t);
    RelaxImproves(st, current, n, t);
    RelaxKeepsOpen(size, s, t, st, current, n);
    RelaxKeepsScores(size, s, t, st, current, n);
    RelaxKeepsTree(size, s, t, st, current, n);
  }

  /** Relax keeps every open cell once, scored and not closed. */
  lemma RelaxKeepsOpen(size: int, s: Pos, t: Pos, st: AStar, current: Pos, n: Pos)
    requires Inv(size, s, t, st) && current in st.g
    ensures var r := Relax(st, current, n, t);
      Once(r.open) && forall q :: q in r.open ==> q in r.g && q !in r.closed
  {
    RelaxImproves(st, current, n, t);
    if Relax(st, current, n, t) != st && n !in st.open {
      PushOnce(st.open, n);
    }
  }

  /** Relax keeps every scored cell in the grid, with fScore = gScore + heuristic, and the start or with a parent. */
  lemma RelaxKeepsScores(size: int, s: Pos, t: Pos, st: AStar, current: Pos, n: Pos)
    requires Inv(size, s, t, st) && current in st.g && InBounds(size, n)
    ensures var r := Relax(st, current, n, t);
      r.f.Keys == r.g.Keys &&
      forall p :: p in r.g ==> InBounds(size, p) && r.f[p] == r.g[p] + Manhattan(p, t) && (p == s || p in r.parent)
  {
    RelaxImproves(st, current, n, t);
  }

  /** Relax keeps each parent an orthogonal neighbour with a smaller gScore. */
  lemma RelaxKeepsTree(size: int, s: Pos, t: Pos, st: AStar, current: Pos, n: Pos)
    requires Inv(size, s, t, st) && current in st.g && Adjacent(current, n)
    ensures var r := Relax(st, current, n, t);
      forall p {:trigger r.parent[p]} :: p in r.parent ==>
        p in r.g && r.parent[p] in r.g && r.g[r.parent[p]] < r.g[p] && Adjacent(r.parent[p], p)
  {
    var r := Relax(st, current, n, t);
    RelaxImproves(st, current, n, t);
    if r != st {
      forall p | p in r.parent
        ensures p in r.g && r.parent[p] in r.g && r.g[r.parent[p]] < r.g[p] && Adjacent(r.parent[p], p)
      {
        if p != n {
          assert st.parent[p] in st.g;
        }
      }
    }
  }

  /** The whole neighbour loop keeps Inv. */
  lemma {:induction false} InvRelaxAll(size: int, s: Pos, t: Pos, st: AStar, current: Pos, ns: seq<Pos>)
    requires Inv(size, s, t, st) && current in st.g
    requires forall n :: n in ns ==> InBounds(size, n) && Adjacent(current, n)
    ensures Inv(size, s, t, RelaxAll(st, current, ns, t))
    decreases |ns|
  {
    if ns != [] {
      var pre := ns[..|ns| - 1];
      assert forall n :: n in pre ==> n in ns;
      InvRelaxAll(size, s, t, st, current, pre);
      InvRelax(size, s, t, RelaxAll(st, current, pre, t), current, ns[|ns| - 1]);
    }
  }

  /** The scores are those of a tree rooted at s whose walk back terminates. */
  lemma InvTree(size: int, s: Pos, t: Pos, st: AStar)
    requires Inv(size, s, t, st)
    ensures Descending(st.parent, st.g) && Rooted(st.parent, s)
  {
  }

  /** A linked path from s whose parents are orthogonal neighbours in the grid is a walk over the grid. */
  lemma LinkedIsGridWalk(size: int, s: Pos, t: Pos, st: AStar, path: seq<Pos>)
    requires Inv(size, s, t, st) && Linked(st.parent, path) && path != [] && path[0] == s
    ensures GridWalk(size, path)
  {
    assert GridTree(size, st.parent);
    LinkedWalk(size, st.parent, path);
  }

  /** The neighbour loop: closedSet.includes, the gScore test, and the three updates with openSet.push. */
  method RelaxNeighbors(st: AStar, current: Pos, neighbors: seq<Pos>, t: Pos) returns (st': AStar)
    requires current in st.g
    ensures st' == RelaxAll(st, current, neighbors, t)
  {
    st' := st;
    var i := 0;
    while i < |neighbors|
      invariant 0 <= i <= |neighbors| && st' == RelaxAll(st, current, neighbors[..i], t)
    {
      var neighbor := neighbors[i];
      assert neighbors[..i + 1][..i] == neighbors[..i];
      ghost var before := st';
      i := i + 1;
      if neighbor in st'.closed {
        continue;
      }
      var tentativeGScore := st'.g[current] + 1;
      if neighbor !in st'.g || tentativeGScore < st'.g[neighbor] {
        st' := st'.(parent := st'.parent[neighbor := current], g := st'.g[neighbor := tentativeGScore],
                    f := st'.f[neighbor := tentativeGScore + Heuristic(neighbor.row, neighbor.col, t.row, t.col)]);
        if neighbor !in st'.open {
          st' := st'.(open := st'.open + [neighbor]);
        }
      }
      assert st' == Relax(before, current, neighbor, t);
    }
    assert neighbors[..i] == neighbors;
  }

  /**
   * solveMazeWithAStar.  Without a start or an end: no path and no
   * visited cells.  Otherwise the visited cells are distinct cells of the
   * grid; a path, when found, is a walk over the grid from the start to
   * the end (walls are not consulted) and the end is the last visited
   * cell; with the open set exhausted there is no path.
   */
  method SolveMazeWithAStar(m: Maze) returns (path: Option<seq<Pos>>, visitedCells: seq<Pos>)
    requires m.Ready()
    ensures !m.HasStartAndEnd() ==> path == None && visitedCells == []
    ensures NoDuplicates(visitedCells) && forall q :: q in visitedCells ==> InBounds(m.size, q)
    ensures path.Some? ==>
      m.HasStartAndEnd() && GridWalk(m.size, path.value) &&
      path.value[0] == m.startCell.value && path.value[|path.value| - 1] == m.endCell.value &&
      visitedCells != [] && visitedCells[|visitedCells| - 1] == m.endCell.value
    ensures path.None? && m.HasStartAndEnd() ==> m.endCell.value !in visitedCells
  {
    if m.startCell.None? || m.endCell.None? {
      return None, [];
    }
    var s, t := m.startCell.value, m.endCell.value;
    assert InBounds(m.size, s) && InBounds(m.size, t) by {
      assert Roles(m.Model());
    }
    path, visitedCells := Search(m, s, t);
  }

  /**
   * The search loop from s to t: sort the open cells by fScore, shift the
   * least, record it as visited, stop at t with the reconstructed path,
   * otherwise close it and relax its neighbours.
   */
  method Search(m: Maze, s: Pos, t: Pos) returns (path: Option<seq<Pos>>, visitedCells: seq<Pos>)
    requires InBounds(m.size, s) && InBounds(m.size, t)
    ensures NoDuplicates(visitedCells) && forall q :: q in visitedCells ==> InBounds(m.size, q)
    ensures path.Some? ==>
      GridWalk(m.size, path.value) && path.value[0] == s && path.value[|path.value| - 1] == t &&
      visitedCells != [] && visitedCells[|visitedCells| - 1] == t
    ensures path.None? ==> t !in visitedCells
  {
    var n := m.size;
    var st := AStar([s], [], map[], map[s := 0], map[s := Heuristic(s.row, s.col, t.row, t.col)]);
    visitedCells := [];
    InvStart(n, s, t);
    while st.open != []
      invariant Inv(n, s, t, st) && visitedCells == st.closed && t !in visitedCells
      decreases |AllCells(n) - Members(st.closed)|
    {
      var current, rest := SortShift(st.open, st.f);
      InvShift(n, s, t, st, current, rest);
      ghost var st0 := st;
      st := st.(open := rest);
      if current !in visitedCells {
        visitedCells := visitedCells + [current];
      }
      if current == t {
        InvTree(n, s, t, st0);
        var p := AsyncSearch.ReconstructPath(st.parent, s, t, st.g);
        LinkedIsGridWalk(n, s, t, st0, p);
        InvClosed(n, s, t, st.(closed := st.closed + [current]));
        assert p[|p| - 1] == t && visitedCells[|visitedCells| - 1] == t;
        return Some(p), visitedCells;
      }
      st := st.(closed := st.closed + [current]);
      var neighbors := m.GetNeighbors(current.row, current.col, false);
      InvRelaxAll(n, s, t, st, current, neighbors);
      st := RelaxNeighbors(st, current, neighbors, t);
    }
    InvClosed(n, s, t, st);
    return None, visitedCells;
  }
}

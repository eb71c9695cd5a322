/**
 * solveMazeWithDFS of algorithms/depth-first.js: a stack of cells popped
 * from the top; each unvisited neighbour is marked visited, given the
 * popped cell as parent, recorded and pushed.  Neighbours come from
 * getNeighbors without any wall test, so the search runs over the whole
 * grid.  The maze is only read.
 */
module AsyncDepthFirst {
  import opened Geometry
  import opened MazeSpec
  import opened MazeGrid
  import opened Solving
  import opened AsyncSearch

  /** The search state: the stack, the visited flags and parents of the cells, and visitedCells. */
  datatype DepthFirst = DepthFirst(stack: seq<Pos>, visited: set<Pos>, parent: map<Pos, Pos>, visitedCells: seq<Pos>)

  /**
   * One pass of the neighbour loop for neighbour n of current: an
   * unvisited neighbour is marked visited, given current as parent,
   * recorded and pushed; a visited one is left alone.
   */
  function Push(st: DepthFirst, current: Pos, n: Pos): (r: DepthFirst)
    ensures r.visited == st.visited + {n}
    ensures n in st.visited ==> r == st
  {
    if n in st.visited then st
    else DepthFirst(st.stack + [n], st.visited + {n}, st.parent[n := current], st.visitedCells + [n])
  }

  /**
   * The neighbour loop over ns, one Push per neighbour in order: every
   * neighbour ends up visited, the stack only grows, and each newly
   * visited cell is on the stack.
   */
  function PushAll(st: DepthFirst, current: Pos, ns: seq<Pos>): (r: DepthFirst)
    ensures forall q :: q in r.visited <==> q in st.visited || q in ns
    ensures forall q :: q in st.stack ==> q in r.stack
    ensures forall q :: q in r.visited && q !in st.visited ==> q in r.stack
    decreases |ns|
  {
    if ns == [] then st
    else
      var pre := ns[..|ns| - 1];
      assert ns == pre + [ns[|ns| - 1]];
      Push(PushAll(st, current, pre), current, ns[|ns| - 1])
  }

  /** The position of q in cells, which is where it was recorded. */
  ghost function Rank(cells: seq<Pos>, q: Pos): (r: nat)
    requires q in cells
    ensures r < |cells| && cells[r] == q
    decreases |cells|
  {
    var pre := cells[..|cells| - 1];
    assert cells == pre + [cells[|cells| - 1]];
    if q in pre then Rank(pre, q) else |cells| - 1
  }

  /** Recording a new cell puts it last and leaves the positions of the others alone. */
  lemma RankAppend(cells: seq<Pos>, n: Pos)
    requires n !in cells
    ensures Rank(cells + [n], n) == |cells|
    ensures forall q :: q in cells ==> Rank(cells + [n], q) == Rank(cells, q)
  {
    assert (cells + [n])[..|cells|] == cells;
  }

  /**
   * The recorded cells: the start was recorded first and has no parent;
   * visitedCells records each visited cell of the grid once; every
   * visited cell but the start has a parent, an orthogonal neighbour
   * recorded before it.
   */
  ghost predicate Tree(size: int, s: Pos, visited: set<Pos>, parent: map<Pos, Pos>, cells: seq<Pos>) {
    var holds := InBounds(size, s) && s in visited && s !in parent &&
    cells != [] && cells[0] == s && NoDuplicates(cells) &&
    (forall q :: q in visited <==> q in cells) &&
    (forall q :: q in cells ==> InBounds(size, q)) &&
    (forall p :: p in visited ==> p == s || p in parent) &&
    forall p {:trigger parent[p]} :: p in parent ==>
      p in cells && parent[p] in cells && Rank(cells, parent[p]) < Rank(cells, p) && Adjacent(parent[p], p);
    holds
  }

  /** The stack holds visited cells, each once. */
  ghost predicate Stacked(stack: seq<Pos>, visited: set<Pos>) {
    NoDuplicates(stack) && forall q :: q in stack ==> q in visited
  }

  /** What holds between passes. */
  ghost predicate Inv(size: int, s: Pos, st: DepthFirst) {
    Tree(size, s, st.visited, st.parent, st.visitedCells) && Stacked(st.stack, st.visited)
  }

  /** Every orthogonal neighbour of q in the grid is visited. */
  ghost predicate Explored(size: int, visited: set<Pos>, q: Pos) {
    forall r :: InBounds(size, r) && Adjacent(q, r) ==> r in visited
  }

  /** Every visited cell that has left the stack has had all its neighbours visited. */
  ghost predicate Exhaustive(size: int, st: DepthFirst) {
    forall q :: q in st.visited && q !in st.stack ==> Explored(size, st.visited, q)
  }

  /** The start: pushed, marked visited and recorded. */
  lemma InvStart(size: int, s: Pos)
    requires InBounds(size, s)
    ensures var st := DepthFirst([s], {s}, map[], [s]); Inv(size, s, st) && Exhaustive(size, st)
  {
  }

  /** Popping the top keeps Inv. */
  lemma InvPop(size: int, s: Pos, st: DepthFirst)
    requires Inv(size, s, st) && st.stack != []
    ensures Inv(size, s, st.(stack := st.stack[..|st.stack| - 1]))
    ensures st.stack[|st.stack| - 1] !in st.stack[..|st.stack| - 1]
  {
    var pre, top := st.stack[..|st.stack| - 1], st.stack[|st.stack| - 1];
    assert st.stack == pre + [top];
    assert NoDuplicates(pre) && top !in pre by {
      forall i | 0 <= i < |pre| ensures pre[i] == st.stack[i] != top {
      }
    }
    assert forall q :: q in pre ==> q in st.stack;
  }

  /** Push keeps Inv for an orthogonal neighbour in the grid of a visited cell. */
  lemma InvPush(size: int, s: Pos, st: DepthFirst, current: Pos, n: Pos)
    requires Inv(size, s, st) && current in st.visited && InBounds(size, n) && Adjacent(current, n)
    ensures Inv(size, s, Push(st, current, n))
  {
    if n !in st.visited {
      var r := Push(st, current, n);
      AppendFresh(st.visitedCells, n);
      AppendFresh(st.stack, n);
      RankAppend(st.visitedCells, n);
      assert r.visitedCells[0] == s;
      forall p | p in r.parent
        ensures p in r.visitedCells && r.parent[p] in r.visitedCells &&
          Rank(r.visitedCells, r.parent[p]) < Rank(r.visitedCells, p) && Adjacent(r.parent[p], p)
      {
        if p != n {
          assert st.parent[p] in st.visitedCells;
        }
      }
    }
  }

  /** The whole neighbour loop keeps Inv. */
  lemma {:induction false} InvPushAll(size: int, s: Pos, st: DepthFirst, current: Pos, ns: seq<Pos>)
    requires Inv(size, s, st) && current in st.visited
    requires forall n :: n in ns ==> InBounds(size, n) && Adjacent(current, n)
    ensures Inv(size, s, PushAll(st, current, ns))
    decreases |ns|
  {
    if ns != [] {
      var pre := ns[..|ns| - 1];
      assert forall n :: n in pre ==> n in ns;
      InvPushAll(size, s, st, current, pre);
      InvPush(size, s, PushAll(st, current, pre), current, ns[|ns| - 1]);
    }
  }

  /**
   * A cell is given a parent once: the neighbour loop keeps every parent
   * already set, and each parent it sets is current, for a neighbour that
   * was not visited before.
   */
  lemma {:induction false} ParentSetOnce(st: DepthFirst, current: Pos, ns: seq<Pos>)
    requires forall p :: p in st.parent ==> p in st.visited
    ensures var r := PushAll(st, current, ns);
      (forall p :: p in st.parent ==> p in r.parent && r.parent[p] == st.parent[p]) &&
      (forall p :: p in r.parent && p !in st.parent ==> r.parent[p] == current && p in ns && p !in st.visited) &&
      (forall p :: p in r.parent ==> p in r.visited)
    decreases |ns|
  {
    if ns != [] {
      var pre := ns[..|ns| - 1];
      assert forall n :: n in pre ==> n in ns;
      ParentSetOnce(st, current, pre);
    }
  }

  /**
   * Each push adds one visited cell of the grid and one stack entry, so
   * the unvisited cells of the grid plus the stack stay the same in
   * number, and the unvisited cells never grow.
   */
  lemma {:induction false} PushAllCount(size: int, st: DepthFirst, current: Pos, ns: seq<Pos>)
    requires forall n :: n in ns ==> InBounds(size, n)
    ensures var r := PushAll(st, current, ns);
      |AllCells(size) - r.visited| + |r.stack| == |AllCells(size) - st.visited| + |st.stack| &&
      |AllCells(size) - r.visited| <= |AllCells(size) - st.visited|
    decreases |ns|
  {
    if ns != [] {
      var pre := ns[..|ns| - 1];
      var n := ns[|ns| - 1];
      assert forall q :: q in pre ==> q in ns;
      PushAllCount(size, st, current, pre);
      var mid := PushAll(st, current, pre);
      if n !in mid.visited {
        InAllCells(size, n);
        FewerUnseen(AllCells(size), mid.visited, n);
      }
    }
  }

  /**
   * After current is popped and all its neighbours are pushed, every
   * visited cell off the stack is explored again.
   */
  lemma ExhaustiveStep(size: int, st: DepthFirst, current: Pos, ns: seq<Pos>)
    requires Exhaustive(size, st) && st.stack != [] && current == st.stack[|st.stack| - 1]
    requires forall r :: InBounds(size, r) && Adjacent(current, r) ==> r in ns
    ensures Exhaustive(size, PushAll(st.(stack := st.stack[..|st.stack| - 1]), current, ns))
  {
    var pre := st.(stack := st.stack[..|st.stack| - 1]);
    var r := PushAll(pre, current, ns);
    forall q | q in r.visited && q !in r.stack ensures Explored(size, r.visited, q) {
      if q != current {
        assert q in st.visited && q !in pre.stack;
        assert q !in st.stack by {
          assert st.stack == pre.stack + [current];
        }
        assert Explored(size, st.visited, q);
      }
    }
  }

  /** One step from t towards s: an orthogonal neighbour of t between the two, one closer to s. */
  function StepToward(t: Pos, s: Pos): (u: Pos)
    requires t != s
    ensures Adjacent(u, t) && Manhattan(s, u) + 1 == Manhattan(s, t)
    ensures forall size :: InBounds(size, s) && InBounds(size, t) ==> InBounds(size, u)
  {
    if t.row < s.row then Pos(t.row + 1, t.col)
    else if t.row > s.row then Pos(t.row - 1, t.col)
    else if t.col < s.col then Pos(t.row, t.col + 1)
    else Pos(t.row, t.col - 1)
  }

  /**
   * Without walls the grid is connected: a set of cells that holds s and
   * every grid neighbour of each of its cells holds every cell of the grid.
   */
  lemma {:induction false} ClosedHoldsAll(size: int, visited: set<Pos>, s: Pos, t: Pos)
    requires InBounds(size, s) && InBounds(size, t) && s in visited
    requires forall q :: q in visited ==> Explored(size, visited, q)
    ensures t in visited
    decreases Manhattan(s, t)
  {
    if t != s {
      var u := StepToward(t, s);
      ClosedHoldsAll(size, visited, s, u);
      assert Explored(size, visited, u);
    }
  }

  /** The neighbour loop: the visited test and the four updates. */
  method PushNeighbors(st: DepthFirst, current: Pos, neighbors: seq<Pos>) returns (st': DepthFirst)
    ensures st' == PushAll(st, current, neighbors)
  {
    st' := st;
    var i := 0;
    while i < |neighbors|
      invariant 0 <= i <= |neighbors| && st' == PushAll(st, current, neighbors[..i])
    {
      var neighbor := neighbors[i];
      assert neighbors[..i + 1][..i] == neighbors[..i];
      ghost var before := st';
      i := i + 1;
      if neighbor !in st'.visited {
        st' := st'.(visited := st'.visited + {neighbor}, parent := st'.parent[neighbor := current]);
        st' := st'.(visitedCells := st'.visitedCells + [neighbor], stack := st'.stack + [neighbor]);
      }
      assert st' == Push(before, current, neighbor);
    }
    assert neighbors[..i] == neighbors;
  }

  /**
   * reconstructPath once t is visited: a walk over the grid from s to t,
   * the walk back ranking cells by when they were recorded.
   */
  method PathTo(size: int, s: Pos, t: Pos, st: DepthFirst) returns (path: seq<Pos>)
    requires Inv(size, s, st) && t in st.visited
    ensures GridWalk(size, path) && path[0] == s && path[|path| - 1] == t
  {
    ghost var rank := map q | q in st.visitedCells :: Rank(st.visitedCells, q);
    assert Descending(st.parent, rank) && Rooted(st.parent, s) && GridTree(size, st.parent);
    path := AsyncSearch.ReconstructPath(st.parent, s, t, rank);
    LinkedWalk(size, st.parent, path);
  }

  /**
   * solveMazeWithDFS.  Without a start or an end: no path and no visited
   * cells.  Otherwise the start is the first visited cell and the visited
   * cells are distinct cells of the grid; a path, when found, is a walk
   * over the grid from the start to the end (walls are not consulted),
   * whose end was visited; with the stack exhausted, the end was never
   * visited although every grid neighbour of a visited cell was, which
   * ClosedHoldsAll rules out.
   */
  method SolveMazeWithDFS(m: Maze) returns (path: Option<seq<Pos>>, visitedCells: seq<Pos>)
    requires m.Ready()
    ensures !m.HasStartAndEnd() ==> path == None && visitedCells == []
    ensures NoDuplicates(visitedCells) && forall q :: q in visitedCells ==> InBounds(m.size, q)
    ensures m.HasStartAndEnd() ==> visitedCells != [] && visitedCells[0] == m.startCell.value
    ensures path.Some? ==>
      m.HasStartAndEnd() && GridWalk(m.size, path.value) &&
      path.value[0] == m.startCell.value && path.value[|path.value| - 1] == m.endCell.value &&
      m.endCell.value in visitedCells
    ensures path.None? && m.HasStartAndEnd() ==>
      m.endCell.value !in visitedCells && forall q :: q in visitedCells ==> Explored(m.size, Members(visitedCells), q)
  {
    if m.startCell.None? || m.endCell.None? {
      return None, [];
    }
    var s, t := m.startCell.value, m.endCell.value;
    assert InBounds(m.size, s) && InBounds(m.size, t) by {
      assert Roles(m.Model());
    }
    path, visitedCells := Search(m, s, t);
  }

  /**
   * The search loop from s to t: pop the top, stop at t with the
   * reconstructed path, otherwise push its unvisited neighbours.
   */
  method Search(m: Maze, s: Pos, t: Pos) returns (path: Option<seq<Pos>>, visitedCells: seq<Pos>)
    requires InBounds(m.size, s) && InBounds(m.size, t)
    ensures NoDuplicates(visitedCells) && forall q :: q in visitedCells ==> InBounds(m.size, q)
    ensures visitedCells != [] && visitedCells[0] == s
    ensures path.Some? ==>
      GridWalk(m.size, path.value) && path.value[0] == s && path.value[|path.value| - 1] == t && t in visitedCells
    ensures path.None? ==>
      t !in visitedCells && forall q :: q in visitedCells ==> Explored(m.size, Members(visitedCells), q)
  {
    var n := m.size;
    var st := DepthFirst([s], {s}, map[], [s]);
    InvStart(n, s);
    while st.stack != []
      invariant Inv(n, s, st) && Exhaustive(n, st)
      invariant t !in st.visited || t in st.stack
      decreases 2 * |AllCells(n) - st.visited| + |st.stack|
    {
      var current := st.stack[|st.stack| - 1];
      ghost var st0 := st;
      InvPop(n, s, st);
      st := st.(stack := st.stack[..|st.stack| - 1]);
      if current == t {
        var p := PathTo(n, s, t, st);
        assert p[|p| - 1] == t && t in st.visitedCells;
        return Some(p), st.visitedCells;
      }
      var neighbors := m.GetNeighbors(current.row, current.col, false);
      PassKeeps(n, s, t, st0, neighbors);
      st := PushNeighbors(st, current, neighbors);
    }
    Exhausted(n, s, st);
    return None, st.visitedCells;
  }

  /**
   * One pass that pops a cell other than t and pushes its neighbours
   * keeps Inv, Exhaustive and t visited only while on the stack, and
   * lowers twice the unvisited cells of the grid plus the stack.
   */
  lemma PassKeeps(size: int, s: Pos, t: Pos, st: DepthFirst, ns: seq<Pos>)
    requires Inv(size, s, st) && Exhaustive(size, st) && (t !in st.visited || t in st.stack)
    requires st.stack != [] && st.stack[|st.stack| - 1] != t
    requires ns == Neighbors(size, st.stack[|st.stack| - 1], false)
    ensures var current := st.stack[|st.stack| - 1];
      var r := PushAll(st.(stack := st.stack[..|st.stack| - 1]), current, ns);
      Inv(size, s, r) && Exhaustive(size, r) && (t !in r.visited || t in r.stack) &&
      2 * |AllCells(size) - r.visited| + |r.stack| < 2 * |AllCells(size) - st.visited| + |st.stack|
  {
    var current := st.stack[|st.stack| - 1];
    var popped := st.(stack := st.stack[..|st.stack| - 1]);
    InvPop(size, s, st);
    assert st.stack == popped.stack + [current];
    assert t !in st.visited || t in popped.stack;
    InvPushAll(size, s, popped, current, ns);
    PushAllCount(size, popped, current, ns);
    ExhaustiveStep(size, st, current, ns);
  }

  /** With the stack empty every visited cell is explored. */
  lemma Exhausted(size: int, s: Pos, st: DepthFirst)
    requires Inv(size, s, st) && Exhaustive(size, st) && st.stack == []
    ensures forall q :: q in st.visitedCells ==> Explored(size, Members(st.visitedCells), q)
  {
    assert Members(st.visitedCells) == st.visited;
  }
}

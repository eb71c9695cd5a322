/**
 * generateMazeWithBacktracking of algorithms/generation/backtracking.js:
 * fill, open a random odd cell, then walk with an explicit stack.  The top
 * of the stack moves to a random unvisited cell two steps away, opening the
 * wall between; when it has none the stack pops.  Finally the start and end
 * cells are widened.
 *
 * The ghost set `V` is what the visited matrix holds.
 */
module Backtracking {
  import opened Geometry
  import opened MazeSpec
  import opened MazeGrid
  import opened Carving
  import opened Generators
  import opened BacktrackingSpec

  // ---------------------------------------------------------------------
  // getUnvisitedNeighbors

  /** The visited matrix is size x size and marks exactly the cells of V. */
  ghost predicate Marks(visited: array2<bool>, n: int, V: set<Pos>)
    reads visited
  {
    visited.Length0 == n && visited.Length1 == n &&
    forall r, c {:trigger visited[r, c]} :: 0 <= r < n && 0 <= c < n ==> (visited[r, c] <==> Pos(r, c) in V)
  }

  /** The test of one offset in getUnvisitedNeighbors. */
  method CheckUnvisited(n: int, visited: array2<bool>, ghost V: set<Pos>, newRow: int, newCol: int, ns: seq<Pos>)
    returns (ns': seq<Pos>)
    requires Marks(visited, n, V)
    ensures ns' == ns + UnvisitedAt(n, V, Pos(newRow, newCol))
  {
    ns' := ns;
    if newRow >= 0 && newRow < n && newCol >= 0 && newCol < n && !visited[newRow, newCol] {
      ns' := ns + [Pos(newRow, newCol)];
    }
  }

  method GetUnvisitedNeighbors(m: Maze, row: int, col: int, visited: array2<bool>, ghost V: set<Pos>)
    returns (neighbors: seq<Pos>)
    requires Marks(visited, m.size, V)
    ensures neighbors == UnvisitedNeighbors(m.size, V, Pos(row, col))
  {
    var directions := Jumps();
    var p := Pos(row, col);
    neighbors := [];
    var i := 0;
    while i < |directions|
      invariant 0 <= i <= |directions|
      invariant neighbors == UnvisitedScan(m.size, V, p, directions[..i])
    {
      UnvisitedScanPrefix(m.size, V, p, directions, i);
      neighbors := CheckUnvisited(m.size, visited, V, row + directions[i].0, col + directions[i].1, neighbors);
      i := i + 1;
    }
    assert directions[..i] == directions;
  }

  // ---------------------------------------------------------------------
  // The stack walk

  /** The two setWall calls of a push: the wall between current and next, then next. */
  method Advance(m: Maze, current: Pos, next: Pos)
    requires m.Ready() && InBounds(m.size, current) && InBounds(m.size, next) && TwoApart(current, next)
    modifies m.grid
    ensures m.Ready() && m.size == old(m.size)
    ensures m.Model() == WithWall(WithWall(old(m.Model()), Between(current, next), false), next, false)
  {
    BetweenFacts(m.size, current, next);
    var wallRow := (current.row + next.row) / 2;
    var wallCol := (current.col + next.col) / 2;
    ghost var b := m.Model();
    m.SetWall(wallRow, wallCol, false);
    ghost var mid := m.Model();
    assert mid == WithWall(b, Between(current, next), false);
    m.SetWall(next.row, next.col, false);
  }

  /** The visited matrix of size x size with only (row, col) marked. */
  method NewVisited(n: nat, row: int, col: int) returns (visited: array2<bool>)
    requires InBounds(n, Pos(row, col))
    ensures fresh(visited) && Marks(visited, n, {Pos(row, col)})
  {
    visited := new bool[n, n]((_, _) => false);
    visited[row, col] := true;
  }

  /** visited[row][col] = true; the maze is another object and keeps its state. */
  method Visit(ghost m: Maze, visited: array2<bool>, ghost V: set<Pos>, p: Pos)
    requires Marks(visited, visited.Length0, V) && InBounds(visited.Length0, p)
    modifies visited
    ensures Marks(visited, visited.Length0, V + {p})
    ensures m.Model() == old(m.Model()) && (old(m.Ready()) ==> m.Ready())
  {
    visited[p.row, p.col] := true;
  }

  /**
   * One turn of the while loop: with no unvisited cell two steps from the
   * top the stack pops and nothing else changes; otherwise one of them,
   * `next`, is chosen, the wall between is opened, and next is opened,
   * visited and pushed.
   */
  method BacktrackStep(m: Maze, visited: array2<bool>, ghost V: set<Pos>, stack: seq<Pos>)
    returns (stack': seq<Pos>, ghost V': set<Pos>, ghost next: Pos)
    requires m.Ready() && Marks(visited, m.size, V) && |stack| > 0 && InBounds(m.size, stack[|stack| - 1])
    modifies m.grid, visited
    ensures m.Ready() && m.size == old(m.size) && Marks(visited, m.size, V')
    ensures Turn(old(m.Model()), m.Model(), V, stack, V', stack', next)
  {
    ghost var b := m.Model();
    var current := stack[|stack| - 1];
    var neighbors := GetUnvisitedNeighbors(m, current.row, current.col, visited, V);
    if |neighbors| > 0 {
      var randomIndex :| 0 <= randomIndex < |neighbors|;
      var chosen := neighbors[randomIndex];
      assert chosen in neighbors;
      Advance(m, current, chosen);
      Visit(m, visited, V, chosen);
      next := chosen;
      V' := V + {chosen};
      stack' := stack + [chosen];
    } else {
      next := current;
      V' := V;
      stack' := stack[..|stack| - 1];
    }
  }

  /**
   * The while loop, from a state that Explored describes: when the stack
   * runs empty every odd cell is open and reachable from the first through
   * open cells, the maze having only lost walls, and the loop has made one
   * turn per push and one per pop still owed.
   */
  method RunStack(m: Maze, visited: array2<bool>, ghost first: Pos, ghost V0: set<Pos>, stack0: seq<Pos>)
    returns (ghost iterations: nat)
    requires m.Ready() && Marks(visited, m.size, V0) && Explored(m.Model(), first, V0, stack0)
    modifies m.grid, visited
    ensures m.Ready() && m.size == old(m.size)
    ensures Opens(old(m.Model()), m.Model(), AllCells(m.size))
    ensures forall q :: OddCell(m.size, q) ==> !At(m.Model(), q).isWall && Reachable(WallsOf(m.Model()), first, q)
    ensures iterations == 2 * |OddCells(m.size) - V0| + |stack0|
  {
    var n := m.size;
    ghost var b := m.Model();
    ghost var cur := b;
    ghost var V := V0;
    var stack := stack0;
    iterations := 0;
    OpensRefl(b, AllCells(n));
    while |stack| > 0
      invariant m.Ready() && m.size == n && Marks(visited, n, V) && m.Model() == cur
      invariant Opens(b, cur, AllCells(n)) && Explored(cur, first, V, stack)
      invariant iterations + 2 * |OddCells(n) - V| + |stack| == 2 * |OddCells(n) - V0| + |stack0|
      decreases 2 * |OddCells(n) - V| + |stack|
    {
      ghost var V1, stack1 := V, stack;
      ghost var next;
      stack, V, next := BacktrackStep(m, visited, V, stack);
      ExploredStep(cur, m.Model(), first, V1, stack1, V, stack, next);
      OpensTransAll(b, cur, m.Model());
      cur := m.Model();
      iterations := iterations + 1;
    }
    ExploredAll(cur, first, V);
  }

  /**
   * The visited matrix and the stack set up from the opened first cell,
   * then the while loop: it makes exactly 2k - 1 turns for the k odd cells
   * (one push per cell after the first, one pop per cell).
   */
  method Walk(m: Maze, first: Pos) returns (ghost iterations: nat)
    requires m.Ready() && OddCell(m.size, first) && !At(m.Model(), first).isWall
    modifies m.grid
    ensures m.Ready() && m.size == old(m.size)
    ensures Opens(old(m.Model()), m.Model(), AllCells(m.size))
    ensures forall q :: OddCell(m.size, q) ==> !At(m.Model(), q).isWall && Reachable(WallsOf(m.Model()), first, q)
    ensures iterations == 2 * |OddCells(m.size)| - 1
  {
    var visited := NewVisited(m.size, first.row, first.col);
    ExploredStart(m.Model(), first);
    OddCellsMembers(m.size);
    FewerUnseen(OddCells(m.size), {}, first);
    iterations := RunStack(m, visited, first, {first}, [Pos(first.row, first.col)]);
  }

  // ---------------------------------------------------------------------
  // generateMazeWithBacktracking

  /**
   * generateMazeWithBacktracking, with the starting coordinates drawn from
   * the odd values below size (StartCoordinate).  Before the widening every
   * odd cell has been visited, is open and is reachable from the first cell
   * through open cells, the walk having made exactly 2k - 1 turns for the k
   * odd cells (one push per cell after the first, one pop per cell).  The
   * widening then opens at most the start and end cells and their
   * orthogonal neighbours, after which both are open.
   */
  method GenerateMazeWithBacktracking(m: Maze) returns (ghost first: Pos, ghost carved: Board, ghost iterations: nat)
    requires m.Ready() && m.size >= 2
    modifies m.grid
    ensures m.Ready() && m.size == old(m.size)
    ensures OddCell(m.size, first)
    ensures Opens(Filled(old(m.Model())), carved, AllCells(m.size))
    ensures forall q :: OddCell(m.size, q) ==> !At(carved, q).isWall && Reachable(WallsOf(carved), first, q)
    ensures iterations == 2 * |OddCells(m.size)| - 1
    ensures Opens(carved, m.Model(), Widened(carved))
    ensures m.startCell.Some? ==> !At(m.Model(), m.startCell.value).isWall
    ensures m.endCell.Some? ==> !At(m.Model(), m.endCell.value).isWall
  {
    var n := m.size;
    FillWalls(m);
    ghost var b1 := m.Model();
    var u: real :| 0.0 <= u < 1.0;
    var v: real :| 0.0 <= v < 1.0;
    var startRow, startCol := StartCoordinate(n, u), StartCoordinate(n, v);
    first := Pos(startRow, startCol);
    m.SetWall(startRow, startCol, false);
    OpenOne(b1, first);
    ghost var b2 := m.Model();
    iterations := Walk(m, Pos(startRow, startCol));
    OpensTransAll(b1, b2, m.Model());
    carved := m.Model();
    WidenEnds(m);
  }
}

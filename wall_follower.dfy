/**
 * WallFollowerSolver of algorithms/solving/wall-follower.js: the right-hand
 * rule.  Each processStep call is one turn of the loop in Walk: stop at the
 * end cell; count and record the current cell on its first visit; then
 * move right, straight or left onto the first open cell, or turn round in
 * place.  The source may walk forever on a maze with islands, so Walk runs
 * at most a given number of steps.
 */
module WallFollower {
  import opened Geometry
  import opened MazeSpec
  import opened MazeGrid
  import opened Solving

  // ---------------------------------------------------------------------
  // Directions and the step rule

  /** The cell one step from p in direction d: 0 up, 1 right, 2 down, 3 left; any other d stays at p. */
  function Ahead(p: Pos, d: int): (q: Pos)
    ensures 0 <= d < 4 ==> Adjacent(p, q)
    ensures !(0 <= d < 4) ==> q == p
  {
    if d == 0 then Pos(p.row - 1, p.col)
    else if d == 1 then Pos(p.row, p.col + 1)
    else if d == 2 then Pos(p.row + 1, p.col)
    else if d == 3 then Pos(p.row, p.col - 1)
    else p
  }

  /**
   * The four directions reach the four orthogonal neighbours, one each,
   * and the reversed direction (d + 2) % 4 leads back.
   */
  lemma AheadFacts(p: Pos, d: int, e: int)
    requires 0 <= d < 4 && 0 <= e < 4
    ensures Ahead(p, d) == Ahead(p, e) ==> d == e
    ensures Ahead(Ahead(p, d), (d + 2) % 4) == p
    ensures (d + 1) % 4 != d && (d + 3) % 4 != d && (d + 1) % 4 != (d + 3) % 4
  {
  }

  /** Every orthogonal neighbour lies in some direction. */
  lemma AdjacentAhead(p: Pos, q: Pos) returns (d: int)
    requires Adjacent(p, q)
    ensures 0 <= d < 4 && Ahead(p, d) == q
  {
    if q.row == p.row - 1 {
      d := 0;
    } else if q.col == p.col + 1 {
      d := 1;
    } else if q.row == p.row + 1 {
      d := 2;
    } else {
      d := 3;
    }
  }

  /** Where the walker stands and which way it faces. */
  datatype Heading = Heading(at: Pos, direction: int)

  /**
   * The move of processStep: right if that cell is open, else straight,
   * else left, else turn round in place.
   */
  function Move(walls: seq<seq<bool>>, w: Heading): (w': Heading)
    requires 0 <= w.direction < 4
    ensures 0 <= w'.direction < 4
    ensures w'.at != w.at ==> Adjacent(w.at, w'.at) && Open(walls, w'.at) && w'.at == Ahead(w.at, w'.direction)
    ensures w'.at == w.at <==> w'.direction == (w.direction + 2) % 4
  {
    var d := w.direction;
    var right, left := (d + 1) % 4, (d + 3) % 4;
    if Open(walls, Ahead(w.at, right)) then Heading(Ahead(w.at, right), right)
    else if Open(walls, Ahead(w.at, d)) then Heading(Ahead(w.at, d), d)
    else if Open(walls, Ahead(w.at, left)) then Heading(Ahead(w.at, left), left)
    else Heading(w.at, (d + 2) % 4)
  }

  /** The directions processStep tries, best first: right, straight, left. */
  function Preferences(d: int): seq<int> {
    [(d + 1) % 4, d, (d + 3) % 4]
  }

  /** The first direction of ds whose cell ahead of p is open. */
  function FirstOpen(walls: seq<seq<bool>>, p: Pos, ds: seq<int>): (r: Option<int>)
    ensures r.Some? ==> r.value in ds && Open(walls, Ahead(p, r.value))
    ensures r.None? ==> forall d :: d in ds ==> !Open(walls, Ahead(p, d))
  {
    if ds == [] then None
    else if Open(walls, Ahead(p, ds[0])) then Some(ds[0])
    else FirstOpen(walls, p, ds[1..])
  }

  /**
   * The right-hand rule as a preference list: the walker moves to the
   * first open cell among right, straight and left, facing that way, and
   * turns round in place when all three are closed.
   */
  lemma {:induction false} MoveByPreference(walls: seq<seq<bool>>, w: Heading)
    requires 0 <= w.direction < 4
    ensures Move(walls, w) ==
      match FirstOpen(walls, w.at, Preferences(w.direction))
      case Some(d) => Heading(Ahead(w.at, d), d)
      case None => Heading(w.at, (w.direction + 2) % 4)
  {
    var ds := Preferences(w.direction);
    assert ds[1..] == [w.direction, (w.direction + 3) % 4];
    assert ds[1..][1..] == [(w.direction + 3) % 4];
    assert ds[1..][1..][1..] == [];
  }

  // ---------------------------------------------------------------------
  // What a walk keeps

  /**
   * The walker's state between processStep calls: it stands in the grid,
   * reachable from the start and on an open cell unless it is still at
   * the start; path lists the visited cells once each, the start first,
   * all reachable; the end has not been recorded.
   */
  ghost predicate Walking(b0: Board, w: Heading, path: seq<Pos>, visited: set<Pos>) {
    var holds := Base(b0) && InBounds(b0.size, w.at) && 0 <= w.direction < 4 &&
      Reachable(WallsOf(b0), b0.start.value, w.at) &&
      (w.at == b0.start.value || !At(b0, w.at).isWall) &&
      NoDuplicates(path) && Members(path) == visited && b0.end.value !in visited &&
      (path == [] ==> w.at == b0.start.value) && (path != [] ==> path[0] == b0.start.value) &&
      forall q :: q in visited ==> InBounds(b0.size, q) && Reachable(WallsOf(b0), b0.start.value, q);
    holds
  }

  /** What processStep needs of a walk: a heading in the grid, and recorded cells in the grid once each. */
  lemma WalkingFacts(b0: Board, w: Heading, path: seq<Pos>, visited: set<Pos>)
    requires Walking(b0, w, path, visited)
    ensures Base(b0) && InBounds(b0.size, w.at) && 0 <= w.direction < 4 && NoDuplicates(path)
    ensures forall q :: q in path ==> InBounds(b0.size, q)
  {
    assert forall q :: q in path ==> q in visited;
  }

  /** The walk begins at the start facing right, with nothing recorded. */
  lemma WalkStart(b0: Board)
    requires Base(b0) && InBounds(b0.size, b0.start.value)
    ensures Walking(b0, Heading(b0.start.value, 1), [], {})
  {
    ReachableRefl(WallsOf(b0), b0.start.value);
  }

  /** The bookkeeping of a first visit: p is appended to the path and added to the visited set, unless already there. */
  function Record(path: seq<Pos>, visited: set<Pos>, p: Pos): (seq<Pos>, set<Pos>) {
    if p in visited then (path, visited) else (path + [p], visited + {p})
  }

  /**
   * One step away from the end keeps the walk: the current cell is
   * recorded on its first visit, and the walker moves by the right-hand
   * rule.
   */
  lemma WalkOn(b0: Board, w: Heading, path: seq<Pos>, visited: set<Pos>)
    requires Walking(b0, w, path, visited) && w.at != b0.end.value
    ensures Walking(b0, Move(WallsOf(b0), w), Record(path, visited, w.at).0, Record(path, visited, w.at).1)
  {
    var walls, s := WallsOf(b0), b0.start.value;
    var w' := Move(walls, w);
    if w'.at != w.at {
      ReachableStep(walls, s, w.at, w'.at);
      assert !At(b0, w'.at).isWall;
    }
    if w.at !in visited {
      AppendFresh(path, w.at);
      assert (path + [w.at])[0] == s;
    }
  }

  /**
   * What the walk leaves once it stands on the end: the end is reachable
   * from the start, path lists each visited cell once, start first and end
   * excluded, every cell of it is reachable, and those that can carry a
   * mark are marked.
   */
  ghost predicate Toured(b0: Board, b: Board, path: seq<Pos>)
    requires Base(b0) && SameLayout(b0, b)
  {
    var s, t := b0.start.value, b0.end.value;
    var holds := Reachable(WallsOf(b0), s, t) && NoDuplicates(path) && t !in path && (path != [] ==> path[0] == s) &&
      forall q :: q in path ==>
        InBounds(b0.size, q) && Reachable(WallsOf(b0), s, q) && (!Unmarkable(At(b0, q)) ==> At(b, q).isPath);
    holds
  }

  /** A walk standing on the end, once its path is marked, is Toured. */
  lemma WalkDone(b0: Board, b: Board, w: Heading, path: seq<Pos>, visited: set<Pos>)
    requires Walking(b0, w, path, visited) && w.at == b0.end.value && SameLayout(b0, b)
    ensures SameLayout(b0, PathMarked(b, Members(path))) && Toured(b0, PathMarked(b, Members(path)), path)
  {
    assert forall q :: q in path ==> q in visited;
    MarksAfter(b0, b, path);
  }

  /** A Toured path has no duplicates. */
  lemma TouredFacts(b0: Board, b: Board, path: seq<Pos>)
    requires Base(b0) && SameLayout(b0, b) && Toured(b0, b, path)
    ensures NoDuplicates(path) && Reachable(WallsOf(b0), b0.start.value, b0.end.value)
  {
  }

  // ---------------------------------------------------------------------
  // The solver

  /** The marks one processStep leaves: the current cell visited on its first visit, the cell moved to frontier. */
  ghost function Stepped(b: Board, current: Pos, first: bool, next: Pos): Board
    requires Initialized(b) && InBounds(b.size, current) && InBounds(b.size, next)
  {
    var v := if first then WithVisited(b, current) else b;
    if next == current then v else WithFrontier(v, next)
  }

  /** walls is the wall snapshot of m's grid. */
  ghost predicate WallsAre(m: Maze, walls: seq<seq<bool>>)
    reads m, m.grid
  {
    |walls| == m.grid.Length0 == m.grid.Length1 && IsSquare(walls) &&
    forall p :: InBounds(m.grid.Length0, p) ==> (Open(walls, p) <==> !m.grid[p.row, p.col].isWall)
  }

  lemma MirrorWalls(m: Maze)
    requires m.Valid()
    ensures WallsAre(m, WallsOf(m.Model()))
  {
    forall p | InBounds(m.grid.Length0, p) ensures Open(WallsOf(m.Model()), p) <==> !m.grid[p.row, p.col].isWall {
      m.ModelAt(p);
    }
  }

  class WallFollowerSolver {
    const maze: Maze
    var visitedCount: nat
    var pathLength: nat

    constructor (maze: Maze)
      ensures this.maze == maze && visitedCount == 0 && pathLength == 0
    {
      this.maze := maze;
      visitedCount := 0;
      pathLength := 0;
    }

    /** getCellInDirection: the cell ahead of cell in direction, or None outside the grid. */
    function GetCellInDirection(cell: Pos, direction: int): (r: Option<Pos>)
      reads maze
      ensures r.Some? ==> r.value == Ahead(cell, direction) && InBounds(maze.size, r.value)
      ensures r.None? ==> !InBounds(maze.size, Ahead(cell, direction))
    {
      var q := Ahead(cell, direction);
      if 0 <= q.row < maze.size && 0 <= q.col < maze.size then Some(q) else None
    }

    /** `cell && !cell.isWall` on a result of getCellInDirection, read against the wall snapshot walls. */
    method Passable(cell: Option<Pos>, ghost walls: seq<seq<bool>>) returns (open: bool)
      requires maze.size == maze.grid.Length0 && WallsAre(maze, walls) && (cell.Some? ==> InBounds(maze.size, cell.value))
      ensures open <==> cell.Some? && Open(walls, cell.value)
    {
      open := false;
      if cell.Some? {
        open := !maze.grid[cell.value.row, cell.value.col].isWall;
      }
    }

    /**
     * The choice of processStep: turn right, go straight or turn left onto
     * the first open cell, or turn round in place.  The new heading is
     * Move's.
     */
    method Steer(current: Pos, direction: int, ghost walls: seq<seq<bool>>) returns (current': Pos, direction': int)
      requires maze.size == maze.grid.Length0 && WallsAre(maze, walls) && InBounds(maze.size, current) && 0 <= direction < 4
      ensures Heading(current', direction') == Move(walls, Heading(current, direction))
      ensures InBounds(maze.size, current')
    {
      var rightDirection := (direction + 1) % 4;
      var rightCell := GetCellInDirection(current, rightDirection);
      var open := Passable(rightCell, walls);
      if open {
        return rightCell.value, rightDirection;
      }
      var straightCell := GetCellInDirection(current, direction);
      open := Passable(straightCell, walls);
      if open {
        return straightCell.value, direction;
      }
      var leftDirection := (direction + 3) % 4;
      var leftCell := GetCellInDirection(current, leftDirection);
      open := Passable(leftCell, walls);
      if open {
        return leftCell.value, leftDirection;
      }
      return current, (direction + 2) % 4;
    }

    /** The first visit of processStep: markVisited, count, and append to the path. */
    method Visit(current: Pos, path: seq<Pos>, visited: set<Pos>) returns (path': seq<Pos>, visited': set<Pos>)
      requires maze.Ready() && InBounds(maze.size, current)
      modifies this, maze.grid
      ensures maze.Ready() && maze.size == old(maze.size) && pathLength == old(pathLength)
      ensures (path', visited') == Record(path, visited, current)
      ensures visitedCount == old(visitedCount) + |path'| - |path|
      ensures maze.Model() == if current in visited then old(maze.Model()) else WithVisited(old(maze.Model()), current)
    {
      path', visited' := path, visited;
      if current !in visited {
        maze.MarkVisited(current.row, current.col);
        visited' := visited + {current};
        visitedCount := visitedCount + 1;
        path' := path + [current];
      }
    }

    /**
     * The end branch of processStep: pathLength becomes the number of
     * recorded cells, and they are marked path.
     */
    method Finish(path: seq<Pos>)
      requires maze.Ready() && forall q :: q in path ==> InBounds(maze.size, q)
      modifies this, maze.grid
      ensures maze.Ready() && maze.Model() == PathMarked(old(maze.Model()), Members(path))
      ensures pathLength == |path| && visitedCount == old(visitedCount)
    {
      pathLength := |path|;
      MarkPathCells(maze, path);
    }

    /**
     * processStep away from the end: the current cell is recorded on its
     * first visit, and the walker moves by the right-hand rule, marking the
     * cell it moves to frontier.
     */
    method Advance(current: Pos, direction: int, path: seq<Pos>, visited: set<Pos>, ghost b0: Board)
      returns (current': Pos, direction': int, path': seq<Pos>, visited': set<Pos>)
      requires maze.Ready() && SameLayout(b0, maze.Model()) && InBounds(b0.size, current) && 0 <= direction < 4
      modifies this, maze.grid
      ensures maze.Ready() && SameLayout(b0, maze.Model()) && pathLength == old(pathLength)
      ensures (path', visited') == Record(path, visited, current)
      ensures visitedCount == old(visitedCount) + |path'| - |path|
      ensures Heading(current', direction') == Move(WallsOf(b0), Heading(current, direction))
      ensures maze.Model() == Stepped(old(maze.Model()), current, current !in visited, current')
    {
      ghost var b := maze.Model();
      path', visited' := Visit(current, path, visited);
      ghost var v := maze.Model();
      assert v == if current in visited then b else WithVisited(b, current);
      assert SameLayout(b0, v) by {
        if current !in visited {
          MarksKeepLayout(b, current);
        }
        SameLayoutFacts(b0, b, v);
      }
      ghost var walls := WallsOf(b0);
      assert WallsAre(maze, walls) by {
        SameLayoutWalls(b0, v);
        MirrorWalls(maze);
      }
      current', direction' := Steer(current, direction, walls);
      if current' != current {
        maze.MarkFrontier(current'.row, current'.col);
        MarksKeepLayout(v, current');
        SameLayoutFacts(b0, v, maze.Model());
      }
    }

    /**
     * One processStep call: at the end, Finish (found); otherwise Advance.
     */
    method ProcessStep(current: Pos, direction: int, path: seq<Pos>, visited: set<Pos>, ghost b0: Board)
      returns (current': Pos, direction': int, path': seq<Pos>, visited': set<Pos>, found: bool)
      requires maze.Ready() && SameLayout(b0, maze.Model()) && Base(b0)
      requires InBounds(b0.size, current) && 0 <= direction < 4 && forall q :: q in path ==> InBounds(b0.size, q)
      modifies this, maze.grid
      ensures maze.Ready() && SameLayout(b0, maze.Model())
      ensures found <==> current == b0.end.value
      ensures visitedCount == old(visitedCount) + |path'| - |path|
      ensures found ==> maze.Model() == PathMarked(old(maze.Model()), Members(path)) && pathLength == |path| && path' == path
      ensures !found ==>
        (path', visited') == Record(path, visited, current) &&
        Heading(current', direction') == Move(WallsOf(b0), Heading(current, direction)) &&
        maze.Model() == Stepped(old(maze.Model()), current, current !in visited, current') && pathLength == old(pathLength)
    {
      if current == maze.endCell.value {
        ghost var b := maze.Model();
        Finish(path);
        PathMarkedLayout(b, Members(path));
        SameLayoutFacts(b0, b, maze.Model());
        return current, direction, path, visited, true;
      }
      current', direction', path', visited' := Advance(current, direction, path, visited, b0);
      found := false;
    }

    /**
     * The processStep loop, at most fuel steps: it stops when the walker
     * stands on the end.  The walk and the count of recorded cells are kept
     * throughout; a found walk is Toured and pathLength is its length.
     */
    method Walk(fuel: nat, ghost b0: Board) returns (found: bool, path: seq<Pos>)
      requires maze.Ready() && SameLayout(b0, maze.Model()) && Base(b0) && InBounds(b0.size, b0.start.value)
      requires visitedCount == 0 && pathLength == 0
      modifies this, maze.grid
      ensures maze.Ready() && SameLayout(b0, maze.Model()) && visitedCount == |path|
      ensures found ==> Toured(b0, maze.Model(), path) && pathLength == |path|
      ensures !found ==> NoDuplicates(path) && pathLength == 0
    {
      var current, direction := maze.startCell.value, 1;
      var visited: set<Pos> := {};
      path, found := [], false;
      WalkStart(b0);
      var steps := 0;
      while !found && steps < fuel
        invariant maze.Ready() && SameLayout(b0, maze.Model()) && visitedCount == |path|
        invariant !found ==> Walking(b0, Heading(current, direction), path, visited) && pathLength == 0
        invariant found ==> Toured(b0, maze.Model(), path) && pathLength == |path|
        decreases fuel - steps
      {
        ghost var b, w, path0, visited0 := maze.Model(), Heading(current, direction), path, visited;
        WalkingFacts(b0, w, path, visited);
        current, direction, path, visited, found := ProcessStep(current, direction, path, visited, b0);
        if found {
          WalkDone(b0, b, w, path0, visited0);
        } else {
          WalkOn(b0, w, path0, visited0);
        }
        steps := steps + 1;
      }
      if !found {
        WalkingFacts(b0, Heading(current, direction), path, visited);
      }
    }

    /**
     * solve: without a start or an end nothing changes and the callback
     * gets (0, 0).  Otherwise both counts restart and the walk runs from
     * the start facing right; visitedCount is the number of recorded
     * cells, none twice, and a walk that reaches the end is Toured with
     * pathLength its number of recorded cells.
     */
    method Solve(fuel: nat) returns (visited: nat, length: nat, found: bool, path: seq<Pos>)
      requires maze.Ready()
      modifies this, maze.grid
      ensures maze.Ready()
      ensures !old(maze.HasStartAndEnd()) ==>
        visited == 0 && length == 0 && !found && path == [] && maze.Model() == old(maze.Model()) &&
        visitedCount == old(visitedCount) && pathLength == old(pathLength)
      ensures old(maze.HasStartAndEnd()) ==>
        Base(old(maze.Model())) && SameLayout(old(maze.Model()), maze.Model()) &&
        visited == visitedCount == |path| && length == pathLength && NoDuplicates(path) &&
        (found ==> Toured(old(maze.Model()), maze.Model(), path) && length == |path|) &&
        (!found ==> length == 0)
    {
      if !maze.HasStartAndEnd() {
        return 0, 0, false, [];
      }
      ghost var b0 := maze.Model();
      SameLayoutFacts(b0, b0, b0);
      visitedCount := 0;
      pathLength := 0;
      found, path := Walk(fuel, b0);
      if found {
        TouredFacts(b0, maze.Model(), path);
      }
      visited, length := visitedCount, pathLength;
    }
  }
}

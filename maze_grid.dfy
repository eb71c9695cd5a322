/**
 * The Maze class of scripts/maze.js: a size x size grid of cells and the
 * startCell/endCell references.  Every method is proved to change the state
 * exactly as the matching function of MazeSpec says, and to keep the role
 * invariant MazeSpec.Roles.
 */
module MazeGrid {
  import opened Geometry
  import opened MazeSpec

  /** One offset of the getNeighbors loop: the shifted cell is kept when it lies in the grid. */
  method AddShift(n: int, row: int, col: int, d: (int, int), ghost ds: seq<(int, int)>, ns: seq<Pos>)
    returns (ns': seq<Pos>)
    requires ns == InBoundsShifts(n, Pos(row, col), ds)
    ensures ns' == InBoundsShifts(n, Pos(row, col), ds + [d])
  {
    var (dr, dc) := d;
    var newRow, newCol := row + dr, col + dc;
    InBoundsShiftsSnoc(n, Pos(row, col), ds, d);
    ns' := ns;
    if 0 <= newRow < n && 0 <= newCol < n {
      ns' := ns + [Pos(newRow, newCol)];
    }
  }

  class Maze {
    var size: int
    var grid: array2<Cell>
    var startCell: Option<Pos>
    var endCell: Option<Pos>

    /** The value of the maze. */
    ghost function Model(): Board
      reads this, grid
    {
      Board(size,
            seq(grid.Length0, r requires 0 <= r < grid.Length0 reads this, grid =>
              seq(grid.Length1, c requires 0 <= r < grid.Length0 && 0 <= c < grid.Length1 reads this, grid => grid[r, c])),
            startCell, endCell)
    }

    ghost predicate Valid()
      reads this, grid
    {
      grid.Length0 == grid.Length1 && Roles(Model())
    }

    /** Valid and initialized: the grid has size x size cells. */
    ghost predicate Ready()
      reads this, grid
    {
      Valid() && grid.Length0 == size
    }

    /** The current state agrees with b cell by cell. */
    ghost predicate Mirrors(b: Board)
      reads this, grid
    {
      WellFormed(b) && |b.cells| == grid.Length0 == grid.Length1 &&
      b.size == size && b.start == startCell && b.end == endCell &&
      forall p :: InBounds(grid.Length0, p) ==> grid[p.row, p.col] == At(b, p)
    }

    lemma MirrorsModel(b: Board)
      requires Mirrors(b)
      ensures Model() == b
    {
      var m := Model();
      assert |m.cells| == |b.cells|;
      forall r | 0 <= r < |b.cells| ensures m.cells[r] == b.cells[r] {
        forall c | 0 <= c < |b.cells| ensures m.cells[r][c] == b.cells[r][c] {
          assert grid[r, c] == At(b, Pos(r, c));
        }
      }
    }

    predicate HasStartAndEnd()
      reads this
    {
      startCell.Some? && endCell.Some?
    }

    /** The constructor stores the size; the grid stays empty until initialize. */
    constructor (size: int)
      ensures Valid() && Model() == Board(size, [], None, None)
    {
      this.size := size;
      grid := new Cell[0, 0];
      startCell := None;
      endCell := None;
    }

    /** initialize: blank size x size grid, start (1,1), end (size-2,size-2). */
    method Initialize()
      requires size >= 2
      modifies this
      ensures Ready() && fresh(grid) && Model() == InitialBoard(old(size))
    {
      var n := size;
      var g := new Cell[n, n];
      var row := 0;
      while row < n
        invariant 0 <= row <= n
        invariant forall r, c :: 0 <= r < row && 0 <= c < n ==> g[r, c] == Blank
      {
        var col := 0;
        while col < n
          invariant 0 <= col <= n
          invariant forall r, c :: 0 <= r < row && 0 <= c < n ==> g[r, c] == Blank
          invariant forall c :: 0 <= c < col ==> g[row, c] == Blank
        {
          g[row, col] := Blank;
          col := col + 1;
        }
        row := row + 1;
      }
      g[1, 1] := g[1, 1].(isStart := true);
      g[n - 2, n - 2] := g[n - 2, n - 2].(isEnd := true);
      grid := g;
      size := n;
      startCell := Some(Pos(1, 1));
      endCell := Some(Pos(n - 2, n - 2));
      MirrorsModel(InitialBoard(n));
    }

    method SetWall(row: int, col: int, isWall: bool)
      requires Valid() && InBounds(grid.Length0, Pos(row, col))
      modifies grid
      ensures Valid() && Model() == WithWall(old(Model()), Pos(row, col), isWall)
    {
      ghost var b := Model();
      var cell := grid[row, col];
      if cell.isStart || cell.isEnd {
        return;
      }
      grid[row, col] := cell.(isWall := isWall);
      MirrorsModel(WithWall(b, Pos(row, col), isWall));
    }

    method SetStart(row: int, col: int)
      requires Valid() && InBounds(grid.Length0, Pos(row, col))
      modifies this, grid
      ensures grid == old(grid)
      ensures Valid() && Model() == WithStart(old(Model()), Pos(row, col))
    {
      ghost var b := Model();
      var p := Pos(row, col);
      WithStartRoles(b, p);
      if startCell.Some? {
        var old_ := startCell.value;
        grid[old_.row, old_.col] := grid[old_.row, old_.col].(isStart := false);
      }
      ghost var b1 := ClearStart(b);
      assert Mirrors(b1);
      var cell := grid[row, col];
      if cell.isWall || cell.isEnd {
        MirrorsModel(b1);
        return;
      }
      grid[row, col] := cell.(isStart := true);
      startCell := Some(p);
      ghost var b2 := Put(b1, p, cell.(isStart := true)).(start := Some(p));
      assert Mirrors(b2);
      MirrorsModel(b2);
    }

    method SetEnd(row: int, col: int)
      requires Valid() && InBounds(grid.Length0, Pos(row, col))
      modifies this, grid
      ensures grid == old(grid)
      ensures Valid() && Model() == WithEnd(old(Model()), Pos(row, col))
    {
      ghost var b := Model();
      var p := Pos(row, col);
      WithEndRoles(b, p);
      if endCell.Some? {
        var old_ := endCell.value;
        grid[old_.row, old_.col] := grid[old_.row, old_.col].(isEnd := false);
      }
      ghost var b1 := ClearEnd(b);
      assert Mirrors(b1);
      var cell := grid[row, col];
      if cell.isWall || cell.isStart {
        MirrorsModel(b1);
        return;
      }
      grid[row, col] := cell.(isEnd := true);
      endCell := Some(p);
      ghost var b2 := Put(b1, p, cell.(isEnd := true)).(end := Some(p));
      assert Mirrors(b2);
      MirrorsModel(b2);
    }

    method MarkVisited(row: int, col: int)
      requires Valid() && InBounds(grid.Length0, Pos(row, col))
      modifies grid
      ensures Valid() && Model() == WithVisited(old(Model()), Pos(row, col))
    {
      ghost var b := Model();
      var cell := grid[row, col];
      if Unmarkable(cell) {
        return;
      }
      grid[row, col] := cell.(isVisited := true, isFrontier := false);
      MirrorsModel(WithVisited(b, Pos(row, col)));
    }

    method MarkFrontier(row: int, col: int)
      requires Valid() && InBounds(grid.Length0, Pos(row, col))
      modifies grid
      ensures Valid() && Model() == WithFrontier(old(Model()), Pos(row, col))
    {
      ghost var b := Model();
      var cell := grid[row, col];
      if Unmarkable(cell) {
        return;
      }
      grid[row, col] := cell.(isFrontier := true);
      MirrorsModel(WithFrontier(b, Pos(row, col)));
    }

    method MarkPath(row: int, col: int)
      requires Valid() && InBounds(grid.Length0, Pos(row, col))
      modifies grid
      ensures Valid() && Model() == WithPathMark(old(Model()), Pos(row, col))
    {
      ghost var b := Model();
      var cell := grid[row, col];
      if Unmarkable(cell) {
        return;
      }
      grid[row, col] := cell.(isPath := true);
      MirrorsModel(WithPathMark(b, Pos(row, col)));
    }

    method ResetVisited()
      requires Ready()
      modifies grid
      ensures Ready() && Model() == Reset(old(Model()))
    {
      ghost var b := Model();
      var row := 0;
      while row < size
        invariant 0 <= row <= size
        invariant forall i, j :: 0 <= i < size && 0 <= j < size ==>
          grid[i, j] == if i < row then Cleared(At(b, Pos(i, j))) else At(b, Pos(i, j))
      {
        var col := 0;
        while col < size
          invariant 0 <= col <= size
          invariant forall i, j :: 0 <= i < size && 0 <= j < size ==>
            grid[i, j] == if i < row || (i == row && j < col) then Cleared(At(b, Pos(i, j))) else At(b, Pos(i, j))
        {
          var cell := grid[row, col];
          grid[row, col] := cell.(isVisited := false, isFrontier := false, isPath := false,
                                  distance := None, parent := None);
          col := col + 1;
        }
        row := row + 1;
      }
      MirrorsModel(Reset(b));
    }

    method GetNeighbors(row: int, col: int, includeDiagonals: bool) returns (ns: seq<Pos>)
      ensures ns == Neighbors(size, Pos(row, col), includeDiagonals)
    {
      var directions := [(-1, 0), (1, 0), (0, -1), (0, 1)];
      if includeDiagonals {
        directions := directions + [(-1, -1), (-1, 1), (1, -1), (1, 1)];
      }
      assert directions == Directions(includeDiagonals);
      var p := Pos(row, col);
      ns := [];
      var i := 0;
      while i < |directions|
        invariant 0 <= i <= |directions|
        invariant ns == InBoundsShifts(size, p, directions[..i])
      {
        assert directions[..i + 1] == directions[..i] + [directions[i]];
        ns := AddShift(size, row, col, directions[i], directions[..i], ns);
        i := i + 1;
      }
      assert directions[..i] == directions;
    }

    /** Cell p of the model is grid[p.row, p.col]. */
    lemma ModelCell(p: Pos)
      requires Valid() && InBounds(grid.Length0, p)
      ensures InGrid(Model(), p) && At(Model(), p) == grid[p.row, p.col]
    {
    }

    /** The wall snapshot of the model is open exactly where the grid has no wall. */
    lemma ModelAt(p: Pos)
      requires Valid() && InBounds(grid.Length0, p)
      ensures Open(WallsOf(Model()), p) <==> !grid[p.row, p.col].isWall
    {
      ModelCell(p);
    }

    /** One neighbour: an open cell not yet visited is marked visited and queued. */
    method VisitNeighbor(visited: array2<bool>, nb: Pos, queue: seq<Pos>,
                         ghost walls: seq<seq<bool>>, ghost seen: set<Pos>)
      returns (queue': seq<Pos>, ghost seen': set<Pos>)
      requires visited.Length0 == size && visited.Length1 == size
      requires grid.Length0 == grid.Length1 == size && InBounds(size, nb)
      requires Open(walls, nb) <==> !grid[nb.row, nb.col].isWall
      requires forall r, c :: 0 <= r < size && 0 <= c < size ==> (visited[r, c] <==> Pos(r, c) in seen)
      modifies visited
      ensures forall r, c :: 0 <= r < size && 0 <= c < size ==> (visited[r, c] <==> Pos(r, c) in seen')
      ensures if Open(walls, nb) && nb !in seen then seen' == seen + {nb} && queue' == queue + [nb]
              else seen' == seen && queue' == queue
    {
      queue', seen' := queue, seen;
      if !grid[nb.row, nb.col].isWall && !visited[nb.row, nb.col] {
        visited[nb.row, nb.col] := true;
        seen' := seen + {nb};
        queue' := queue + [nb];
      }
    }

    /** Neighbour i of the loop, stated as the step from the rest at i to the rest after i. */
    method ExploreAt(visited: array2<bool>, ns: seq<Pos>, i: int, queue: seq<Pos>,
                     ghost walls: seq<seq<bool>>, ghost seen: set<Pos>)
      returns (queue': seq<Pos>, ghost seen': set<Pos>)
      requires visited.Length0 == size && visited.Length1 == size && |walls| == size
      requires grid.Length0 == grid.Length1 == size && 0 <= i < |ns| && InBounds(size, ns[i])
      requires forall r, c :: 0 <= r < |walls| && 0 <= c < |walls| ==> (Open(walls, Pos(r, c)) <==> !grid[r, c].isWall)
      requires forall r, c :: 0 <= r < size && 0 <= c < size ==> (visited[r, c] <==> Pos(r, c) in seen)
      modifies visited
      ensures forall r, c :: 0 <= r < size && 0 <= c < size ==> (visited[r, c] <==> Pos(r, c) in seen')
      ensures queue' + Discovered(walls, seen', ns[i + 1..]) == queue + Discovered(walls, seen, ns[i..])
      ensures Marked(walls, seen', ns[i + 1..]) == Marked(walls, seen, ns[i..])
    {
      var nb := ns[i];
      assert Open(walls, nb) <==> !grid[nb.row, nb.col].isWall;
      assert ns[i..][0] == nb && ns[i..][1..] == ns[i + 1..];
      queue', seen' := VisitNeighbor(visited, nb, queue, walls, seen);
      if Open(walls, nb) && nb !in seen {
        assert queue + Discovered(walls, seen, ns[i..]) == queue + [nb] + Discovered(walls, seen', ns[i + 1..]);
      }
    }

    /**
     * The neighbour loop of hasValidPath: the open, unvisited orthogonal
     * neighbours of current are marked visited and queued, in getNeighbors
     * order.  `seen` is the set the visited matrix stands for.
     */
    method ExploreNeighbors(visited: array2<bool>, current: Pos, queue: seq<Pos>,
                            ghost walls: seq<seq<bool>>, ghost seen: set<Pos>)
      returns (queue': seq<Pos>, ghost seen': set<Pos>)
      requires |walls| == visited.Length0 == visited.Length1 == grid.Length0 == grid.Length1 == size
      requires forall r, c :: 0 <= r < |walls| && 0 <= c < |walls| ==> (Open(walls, Pos(r, c)) <==> !grid[r, c].isWall)
      requires forall r, c :: 0 <= r < |walls| && 0 <= c < |walls| ==> (visited[r, c] <==> Pos(r, c) in seen)
      modifies visited
      ensures forall r, c :: 0 <= r < |walls| && 0 <= c < |walls| ==> (visited[r, c] <==> Pos(r, c) in seen')
      ensures queue' == queue + Discovered(walls, seen, Neighbors(|walls|, current, false))
      ensures seen' == Marked(walls, seen, Neighbors(|walls|, current, false))
    {
      var neighbors := GetNeighbors(current.row, current.col, false);
      queue', seen' := queue, seen;
      var i := 0;
      while i < |neighbors|
        invariant 0 <= i <= |neighbors|
        invariant forall r, c :: 0 <= r < |walls| && 0 <= c < |walls| ==> (visited[r, c] <==> Pos(r, c) in seen')
        invariant queue' + Discovered(walls, seen', neighbors[i..]) == queue + Discovered(walls, seen, neighbors)
        invariant Marked(walls, seen', neighbors[i..]) == Marked(walls, seen, neighbors)
      {
        assert neighbors[i] in neighbors;
        queue', seen' := ExploreAt(visited, neighbors, i, queue', walls, seen');
        i := i + 1;
      }
    }

    /**
     * The loop of hasValidPath: breadth-first search from s until t is
     * dequeued or the queue runs out.  The answer is whether t is reachable
     * from s in the wall snapshot, which is the grid's.
     */
    method Search(s: Pos, t: Pos, ghost walls: seq<seq<bool>>) returns (found: bool)
      requires |walls| == grid.Length0 == grid.Length1 == size && IsSquare(walls)
      requires InBounds(size, s) && InBounds(size, t)
      requires forall r, c :: 0 <= r < |walls| && 0 <= c < |walls| ==> (Open(walls, Pos(r, c)) <==> !grid[r, c].isWall)
      ensures found <==> Reachable(walls, s, t)
    {
      var visited := new bool[size, size]((_, _) => false);
      visited[s.row, s.col] := true;
      var queue := [s];
      ghost var seen: set<Pos> := {s};
      ghost var done: set<Pos> := {};
      SearchStart(walls, s, t);
      while |queue| > 0
        invariant forall r, c :: 0 <= r < |walls| && 0 <= c < |walls| ==> (visited[r, c] <==> Pos(r, c) in seen)
        invariant SearchState(walls, s, t, seen, done, queue)
        decreases Unseen(walls, seen), |queue|
      {
        var current := queue[0];
        if current == t {
          SearchFound(walls, s, t, seen, done, queue);
          return true;
        }
        SearchStep(walls, s, t, seen, done, queue);
        queue := queue[1..];
        queue, seen := ExploreNeighbors(visited, current, queue, walls, seen);
        done := done + {current};
      }
      SearchExhausted(walls, s, t, seen, done);
      return false;
    }

    /**
     * hasValidPath: false when startCell or endCell is null; otherwise
     * whether endCell can be reached from startCell by orthogonal steps
     * through non-wall cells.  It changes nothing.
     */
    method HasValidPath() returns (found: bool)
      requires Ready()
      ensures found <==> startCell.Some? && endCell.Some? &&
                         Reachable(WallsOf(Model()), startCell.value, endCell.value)
    {
      if startCell.None? || endCell.None? {
        return false;
      }
      ghost var walls := WallsOf(Model());
      forall r, c | 0 <= r < size && 0 <= c < size ensures Open(walls, Pos(r, c)) <==> !grid[r, c].isWall {
        ModelAt(Pos(r, c));
      }
      found := Search(startCell.value, endCell.value, walls);
    }
    /**
     * export: scans the grid row by row, pushing every wall and keeping the
     * last cell flagged start and the last flagged end.  It changes nothing.
     */
    method Export() returns (e: Exported)
      requires Ready()
      ensures e == ExportBoard(Model())
    {
      ghost var b := Model();
      var n := size;
      var walls: seq<Pos> := [];
      var start: Option<Pos> := None;
      var end: Option<Pos> := None;
      var row := 0;
      while row < n
        invariant 0 <= row <= n
        invariant walls == ScanWalls(b, row, 0)
        invariant start == ScanRole(b, row, 0, StartRole) && end == ScanRole(b, row, 0, EndRole)
      {
        var col := 0;
        while col < n
          invariant 0 <= col <= n
          invariant walls == ScanWalls(b, row, col)
          invariant start == ScanRole(b, row, col, StartRole) && end == ScanRole(b, row, col, EndRole)
        {
          var cell := grid[row, col];
          ModelCell(Pos(row, col));
          if cell.isWall {
            walls := walls + [Pos(row, col)];
          }
          if cell.isStart {
            start := Some(Pos(row, col));
          }
          if cell.isEnd {
            end := Some(Pos(row, col));
          }
          col := col + 1;
        }
        row := row + 1;
      }
      ScanAll(b);
      e := Exported(n, walls, start, end);
    }

    /** The wall loop of import: setWall(row, col, true) for every in-range entry, in order. */
    method SetWalls(ws: seq<seq<int>>)
      requires Ready()
      modifies grid
      ensures Ready() && Model() == ApplyWalls(old(Model()), ws)
    {
      ghost var b := Model();
      var i := 0;
      while i < |ws|
        invariant 0 <= i <= |ws|
        invariant Ready() && Model() == ApplyWalls(b, ws[..i])
      {
        var w := ws[i];
        assert ws[..i + 1][..i] == ws[..i];
        if |w| >= 2 && 0 <= w[0] < size && 0 <= w[1] < size {
          SetWall(w[0], w[1], true);
        }
        i := i + 1;
      }
      assert ws[..i] == ws;
    }

    /** The start line of import: `[startRow, startCol] = data.start`, then setStart when in range. */
    method SetStartEntry(e: seq<int>)
      requires Ready()
      modifies this, grid
      ensures grid == old(grid) && Ready() && Model() == ApplyStart(old(Model()), e)
    {
      if |e| >= 2 && 0 <= e[0] < size && 0 <= e[1] < size {
        SetStart(e[0], e[1]);
      }
    }

    /** The end line of import. */
    method SetEndEntry(e: seq<int>)
      requires Ready()
      modifies this, grid
      ensures grid == old(grid) && Ready() && Model() == ApplyEnd(old(Model()), e)
    {
      if |e| >= 2 && 0 <= e[0] < size && 0 <= e[1] < size {
        SetEnd(e[0], e[1]);
      }
    }

    /**
     * import: a file with a missing field is rejected before anything
     * changes.  Otherwise size is stored and the grid rebuilt; a size below 2
     * makes initialize fail at grid[1][1], leaving the rows it had built
     * and the old references.  A good size is followed by setWall on every
     * in-range wall entry, then setStart and setEnd on in-range entries.
     */
    method Import(data: Option<MazeFile>) returns (err: Option<ImportError>)
      modifies this
      ensures err.None? <==> ImportBoard(data).Imported?
      ensures err.Some? ==> ImportBoard(data) == Failed(err.value)
      ensures err == Some(InvalidFormat) ==> unchanged(this) && unchanged(grid)
      ensures err == Some(InitializeFailed) ==>
        size == data.value.size.value && fresh(grid) && startCell == old(startCell) && endCell == old(endCell) &&
        grid.Length0 == grid.Length1 == (if size == 1 then 1 else 0) &&
        (size == 1 ==> grid[0, 0] == Blank)
      ensures err.None? ==> Ready() && fresh(grid) && Model() == ImportBoard(data).board
    {
      if MissingField(data) {
        return Some(InvalidFormat);
      }
      var f := data.value;
      size := f.size.value;
      if size < 2 {
        if size == 1 {
          grid := new Cell[1, 1]((_, _) => Blank);
        } else {
          grid := new Cell[0, 0];
        }
        return Some(InitializeFailed);
      }
      var n := size;
      Initialize();
      SetWalls(f.walls.value);
      SetStartEntry(f.start.value);
      SetEndEntry(f.end.value);
      return None;
    }
  }
}

/**
 * The value of a maze (scripts/maze.js) and the effect of each of its
 * operations on that value.  The class in maze_grid.dfy is proved to change
 * its state exactly as these functions say.
 */
module MazeSpec {
  import opened Geometry

  /** One grid cell; `distance == None` stands for Infinity, `parent == None` for null. */
  datatype Cell = Cell(isWall: bool, isStart: bool, isEnd: bool,
                       isVisited: bool, isFrontier: bool, isPath: bool,
                       distance: Option<nat>, parent: Option<Pos>)

  /** A cell as initialize() creates it. */
  const Blank: Cell := Cell(false, false, false, false, false, false, None, None)

  /** The size field, the rows of cells and the startCell/endCell references. */
  datatype Board = Board(size: int, cells: seq<seq<Cell>>, start: Option<Pos>, end: Option<Pos>)

  /** Square rows, and the two references point into the grid. */
  predicate WellFormed(b: Board) {
    (forall r :: 0 <= r < |b.cells| ==> |b.cells[r]| == |b.cells|) &&
    (b.start.Some? ==> InBounds(|b.cells|, b.start.value)) &&
    (b.end.Some? ==> InBounds(|b.cells|, b.end.value))
  }

  /** initialize() has built size x size cells. */
  predicate Initialized(b: Board) {
    WellFormed(b) && |b.cells| == b.size
  }

  predicate InGrid(b: Board, p: Pos) {
    WellFormed(b) && InBounds(|b.cells|, p)
  }

  function At(b: Board, p: Pos): Cell
    requires InGrid(b, p)
  {
    b.cells[p.row][p.col]
  }

  /**
   * The role invariant every operation keeps: a cell flagged start is the
   * referenced start cell and is not a wall, and likewise for end.  So at
   * most one cell is flagged start and at most one is flagged end.
   */
  ghost predicate Roles(b: Board) {
    WellFormed(b) &&
    forall p :: InBounds(|b.cells|, p) ==>
      (At(b, p).isStart ==> b.start == Some(p) && !At(b, p).isWall) &&
      (At(b, p).isEnd ==> b.end == Some(p) && !At(b, p).isWall)
  }

  /** The isWall flags as a wall snapshot. */
  function WallsOf(b: Board): (w: seq<seq<bool>>)
    ensures |w| == |b.cells|
    ensures WellFormed(b) ==> IsSquare(w)
    ensures WellFormed(b) ==> forall p :: InBounds(|b.cells|, p) ==> (Open(w, p) <==> !At(b, p).isWall)
  {
    seq(|b.cells|, r requires 0 <= r < |b.cells| =>
      seq(|b.cells[r]|, c requires 0 <= c < |b.cells[r]| => b.cells[r][c].isWall))
  }

  /** Two boards with the same cells' wall flags have the same snapshot. */
  lemma SameWalls(a: Board, b: Board)
    requires WellFormed(a) && WellFormed(b) && |a.cells| == |b.cells|
    requires forall p :: InBounds(|a.cells|, p) ==> At(a, p).isWall == At(b, p).isWall
    ensures WallsOf(a) == WallsOf(b)
  {
    var wa, wb := WallsOf(a), WallsOf(b);
    forall r | 0 <= r < |wa| ensures wa[r] == wb[r] {
      forall c | 0 <= c < |wa[r]| ensures wa[r][c] == wb[r][c] {
        assert At(a, Pos(r, c)).isWall == At(b, Pos(r, c)).isWall;
      }
    }
  }

  /** Replace one cell. */
  function Put(b: Board, p: Pos, c: Cell): (r: Board)
    requires InGrid(b, p)
    ensures WellFormed(r) && |r.cells| == |b.cells|
    ensures r.size == b.size && r.start == b.start && r.end == b.end
    ensures At(r, p) == c
    ensures forall q :: InBounds(|b.cells|, q) && q != p ==> At(r, q) == At(b, q)
  {
    b.(cells := b.cells[p.row := b.cells[p.row][p.col := c]])
  }

  // ---------------------------------------------------------------------
  // initialize

  function InitialCell(n: int, p: Pos): Cell {
    Blank.(isStart := p == Pos(1, 1), isEnd := p == Pos(n - 2, n - 2))
  }

  /** The maze right after initialize(): blank cells, start (1,1), end (size-2,size-2). */
  function InitialBoard(n: int): (b: Board)
    requires n >= 2
    ensures Initialized(b) && Roles(b) && b.size == n
    ensures b.start == Some(Pos(1, 1)) && b.end == Some(Pos(n - 2, n - 2))
    ensures forall p :: InBounds(n, p) ==> At(b, p) == InitialCell(n, p)
  {
    Board(n, seq(n, r => seq(n, c => InitialCell(n, Pos(r, c)))), Some(Pos(1, 1)), Some(Pos(n - 2, n - 2)))
  }

  // ---------------------------------------------------------------------
  // setWall, setStart, setEnd

  /** setWall: refused on a cell flagged start or end, otherwise sets only that cell's isWall. */
  function WithWall(b: Board, p: Pos, w: bool): (r: Board)
    requires InGrid(b, p)
    ensures WellFormed(r) && |r.cells| == |b.cells|
    ensures r.size == b.size && r.start == b.start && r.end == b.end
    ensures At(b, p).isStart || At(b, p).isEnd ==> r == b
    ensures !(At(b, p).isStart || At(b, p).isEnd) ==> At(r, p) == At(b, p).(isWall := w)
    ensures forall q :: InBounds(|b.cells|, q) && q != p ==> At(r, q) == At(b, q)
    ensures Roles(b) ==> Roles(r)
  {
    var c := At(b, p);
    if c.isStart || c.isEnd then b else Put(b, p, c.(isWall := w))
  }

  /** The old start cell loses its flag before the new target is inspected. */
  function ClearStart(b: Board): (r: Board)
    requires WellFormed(b)
    ensures WellFormed(r) && |r.cells| == |b.cells|
    ensures r.size == b.size && r.start == b.start && r.end == b.end
    ensures forall q :: InBounds(|b.cells|, q) ==>
      At(r, q) == if Some(q) == b.start then At(b, q).(isStart := false) else At(b, q)
  {
    if b.start.Some? then Put(b, b.start.value, At(b, b.start.value).(isStart := false)) else b
  }

  function ClearEnd(b: Board): (r: Board)
    requires WellFormed(b)
    ensures WellFormed(r) && |r.cells| == |b.cells|
    ensures r.size == b.size && r.start == b.start && r.end == b.end
    ensures forall q :: InBounds(|b.cells|, q) ==>
      At(r, q) == if Some(q) == b.end then At(b, q).(isEnd := false) else At(b, q)
  {
    if b.end.Some? then Put(b, b.end.value, At(b, b.end.value).(isEnd := false)) else b
  }

  /**
   * setStart.  A target that is a wall or the end is refused, but only after
   * the old start cell has lost its flag: then no cell is flagged start while
   * the reference still names the old cell.  Only isStart flags change.
   */
  function WithStart(b: Board, p: Pos): (r: Board)
    requires InGrid(b, p)
    ensures WellFormed(r) && |r.cells| == |b.cells|
    ensures r.size == b.size && r.end == b.end
    ensures r.start == if At(b, p).isWall || At(b, p).isEnd then b.start else Some(p)
    ensures forall q :: InBounds(|b.cells|, q) ==>
      At(r, q) == At(b, q).(isStart :=
        if q == p && !(At(b, p).isWall || At(b, p).isEnd) then true
        else At(b, q).isStart && Some(q) != b.start)
  {
    var b1 := ClearStart(b);
    var c := At(b1, p);
    if c.isWall || c.isEnd then b1 else Put(b1, p, c.(isStart := true)).(start := Some(p))
  }

  /**
   * With the role invariant, setStart leaves exactly the accepted target
   * flagged, or no cell at all when the target was refused, and the
   * invariant still holds.
   */
  lemma WithStartRoles(b: Board, p: Pos)
    requires Roles(b) && InBounds(|b.cells|, p)
    ensures Roles(WithStart(b, p))
    ensures forall q :: InBounds(|b.cells|, q) ==>
      (At(WithStart(b, p), q).isStart <==> q == p && !(At(b, p).isWall || At(b, p).isEnd))
  {
    var r := WithStart(b, p);
    forall q | InBounds(|b.cells|, q)
      ensures At(r, q).isStart <==> q == p && !(At(b, p).isWall || At(b, p).isEnd)
    {
      assert At(b, q).isStart ==> b.start == Some(q);
    }
  }

  /** setEnd, the mirror image of setStart. */
  function WithEnd(b: Board, p: Pos): (r: Board)
    requires InGrid(b, p)
    ensures WellFormed(r) && |r.cells| == |b.cells|
    ensures r.size == b.size && r.start == b.start
    ensures r.end == if At(b, p).isWall || At(b, p).isStart then b.end else Some(p)
    ensures forall q :: InBounds(|b.cells|, q) ==>
      At(r, q) == At(b, q).(isEnd :=
        if q == p && !(At(b, p).isWall || At(b, p).isStart) then true
        else At(b, q).isEnd && Some(q) != b.end)
  {
    var b1 := ClearEnd(b);
    var c := At(b1, p);
    if c.isWall || c.isStart then b1 else Put(b1, p, c.(isEnd := true)).(end := Some(p))
  }

  lemma WithEndRoles(b: Board, p: Pos)
    requires Roles(b) && InBounds(|b.cells|, p)
    ensures Roles(WithEnd(b, p))
    ensures forall q :: InBounds(|b.cells|, q) ==>
      (At(WithEnd(b, p), q).isEnd <==> q == p && !(At(b, p).isWall || At(b, p).isStart))
  {
    var r := WithEnd(b, p);
    forall q | InBounds(|b.cells|, q)
      ensures At(r, q).isEnd <==> q == p && !(At(b, p).isWall || At(b, p).isStart)
    {
      assert At(b, q).isEnd ==> b.end == Some(q);
    }
  }

  // ---------------------------------------------------------------------
  // markVisited, markFrontier, markPath

  /** None of the three marks touches a wall, the start or the end. */
  predicate Unmarkable(c: Cell) {
    c.isWall || c.isStart || c.isEnd
  }

  function WithVisited(b: Board, p: Pos): (r: Board)
    requires InGrid(b, p)
    ensures WellFormed(r) && |r.cells| == |b.cells|
    ensures r.size == b.size && r.start == b.start && r.end == b.end
    ensures Unmarkable(At(b, p)) ==> r == b
    ensures !Unmarkable(At(b, p)) ==> At(r, p) == At(b, p).(isVisited := true, isFrontier := false)
    ensures forall q :: InBounds(|b.cells|, q) && q != p ==> At(r, q) == At(b, q)
    ensures WallsOf(r) == WallsOf(b)
    ensures Roles(b) ==> Roles(r)
  {
    var c := At(b, p);
    if Unmarkable(c) then b
    else
      var r := Put(b, p, c.(isVisited := true, isFrontier := false));
      SameWalls(r, b);
      r
  }

  function WithFrontier(b: Board, p: Pos): (r: Board)
    requires InGrid(b, p)
    ensures WellFormed(r) && |r.cells| == |b.cells|
    ensures r.size == b.size && r.start == b.start && r.end == b.end
    ensures Unmarkable(At(b, p)) ==> r == b
    ensures !Unmarkable(At(b, p)) ==> At(r, p) == At(b, p).(isFrontier := true)
    ensures forall q :: InBounds(|b.cells|, q) && q != p ==> At(r, q) == At(b, q)
    ensures WallsOf(r) == WallsOf(b)
    ensures Roles(b) ==> Roles(r)
  {
    var c := At(b, p);
    if Unmarkable(c) then b
    else
      var r := Put(b, p, c.(isFrontier := true));
      SameWalls(r, b);
      r
  }

  function WithPathMark(b: Board, p: Pos): (r: Board)
    requires InGrid(b, p)
    ensures WellFormed(r) && |r.cells| == |b.cells|
    ensures r.size == b.size && r.start == b.start && r.end == b.end
    ensures Unmarkable(At(b, p)) ==> r == b
    ensures !Unmarkable(At(b, p)) ==> At(r, p) == At(b, p).(isPath := true)
    ensures forall q :: InBounds(|b.cells|, q) && q != p ==> At(r, q) == At(b, q)
    ensures WallsOf(r) == WallsOf(b)
    ensures Roles(b) ==> Roles(r)
  {
    var c := At(b, p);
    if Unmarkable(c) then b
    else
      var r := Put(b, p, c.(isPath := true));
      SameWalls(r, b);
      r
  }

  // ---------------------------------------------------------------------
  // resetVisited

  function Cleared(c: Cell): Cell {
    c.(isVisited := false, isFrontier := false, isPath := false, distance := None, parent := None)
  }

  /** resetVisited: every cell loses its search marks; walls and roles stay. */
  function Reset(b: Board): (r: Board)
    requires Initialized(b)
    ensures Initialized(r) && |r.cells| == |b.cells|
    ensures r.size == b.size && r.start == b.start && r.end == b.end
    ensures forall q :: InBounds(|b.cells|, q) ==>
      At(r, q) == At(b, q).(isVisited := false, isFrontier := false, isPath := false, distance := None, parent := None)
    ensures WallsOf(r) == WallsOf(b)
    ensures Roles(b) ==> Roles(r)
  {
    var r := b.(cells := seq(|b.cells|, i requires 0 <= i < |b.cells| =>
                   seq(|b.cells[i]|, j requires 0 <= j < |b.cells[i]| => Cleared(b.cells[i][j]))));
    SameWalls(r, b);
    r
  }

  lemma {:induction false} ResetIdempotent(b: Board)
    requires Initialized(b)
    ensures Reset(Reset(b)) == Reset(b)
  {
    var once, twice := Reset(b), Reset(Reset(b));
    forall i | 0 <= i < |b.cells| ensures twice.cells[i] == once.cells[i] {
      forall j | 0 <= j < |b.cells| ensures twice.cells[i][j] == once.cells[i][j] {
        assert At(twice, Pos(i, j)) == At(once, Pos(i, j));
      }
    }
  }

  // ---------------------------------------------------------------------
  // getNeighbors

  /** Offsets in the order getNeighbors tries them: up, down, left, right, then the diagonals. */
  function Directions(includeDiagonals: bool): seq<(int, int)> {
    [(-1, 0), (1, 0), (0, -1), (0, 1)] +
    (if includeDiagonals then [(-1, -1), (-1, 1), (1, -1), (1, 1)] else [])
  }

  /** The position of q's offset from p in that order (an independent statement of the order). */
  function DirectionRank(p: Pos, q: Pos): int {
    var d := (q.row - p.row, q.col - p.col);
    if d == (-1, 0) then 0 else if d == (1, 0) then 1 else if d == (0, -1) then 2
    else if d == (0, 1) then 3 else if d == (-1, -1) then 4 else if d == (-1, 1) then 5
    else if d == (1, -1) then 6 else if d == (1, 1) then 7 else 8
  }

  /** The in-bounds cells reached by the offsets ds from p, in the order of ds. */
  function InBoundsShifts(n: int, p: Pos, ds: seq<(int, int)>): (ns: seq<Pos>)
    ensures |ns| <= |ds|
    ensures forall q :: q in ns <==> InBounds(n, q) && exists k :: 0 <= k < |ds| && q == Shift(p, ds[k].0, ds[k].1)
  {
    if ds == [] then []
    else
      var q := Shift(p, ds[|ds| - 1].0, ds[|ds| - 1].1);
      var prefix := InBoundsShifts(n, p, ds[..|ds| - 1]);
      assert forall k :: 0 <= k < |ds| - 1 ==> ds[..|ds| - 1][k] == ds[k];
      prefix + (if InBounds(n, q) then [q] else [])
  }

  /** Trying one more offset appends its cell when that cell is in bounds. */
  lemma InBoundsShiftsSnoc(n: int, p: Pos, ds: seq<(int, int)>, d: (int, int))
    ensures InBoundsShifts(n, p, ds + [d]) ==
      InBoundsShifts(n, p, ds) + (if InBounds(n, Shift(p, d.0, d.1)) then [Shift(p, d.0, d.1)] else [])
  {
    assert (ds + [d])[..|ds|] == ds;
  }

  lemma {:induction false} InBoundsShiftsOrdered(n: int, p: Pos, ds: seq<(int, int)>)
    requires forall i :: 0 <= i < |ds| ==> DirectionRank(p, Shift(p, ds[i].0, ds[i].1)) == i
    ensures forall k :: 0 <= k < |InBoundsShifts(n, p, ds)| ==> 0 <= DirectionRank(p, InBoundsShifts(n, p, ds)[k]) < |ds|
    ensures forall i, j :: 0 <= i < j < |InBoundsShifts(n, p, ds)| ==>
      DirectionRank(p, InBoundsShifts(n, p, ds)[i]) < DirectionRank(p, InBoundsShifts(n, p, ds)[j])
  {
    if ds != [] {
      var pre := ds[..|ds| - 1];
      assert forall i :: 0 <= i < |pre| ==> pre[i] == ds[i];
      InBoundsShiftsOrdered(n, p, pre);
      var ns := InBoundsShifts(n, p, ds);
      var nsPre := InBoundsShifts(n, p, pre);
      var q := Shift(p, ds[|ds| - 1].0, ds[|ds| - 1].1);
      assert ns == nsPre + (if InBounds(n, q) then [q] else []);
      assert DirectionRank(p, q) == |ds| - 1;
      forall k | 0 <= k < |ns| ensures 0 <= DirectionRank(p, ns[k]) < |ds| {
        if k < |nsPre| {
          assert ns[k] == nsPre[k];
          assert 0 <= DirectionRank(p, nsPre[k]) < |pre|;
        } else { assert ns[k] == q; }
      }
      forall i, j | 0 <= i < j < |ns| ensures DirectionRank(p, ns[i]) < DirectionRank(p, ns[j]) {
        assert ns[i] == nsPre[i];
        if j < |nsPre| { assert ns[j] == nsPre[j]; } else { assert ns[j] == q; }
      }
    }
  }

  /**
   * getNeighbors: exactly the in-bounds orthogonal neighbours (and diagonal
   * ones when asked), at most 4 (8), in the order up, down, left, right,
   * up-left, up-right, down-left, down-right.
   */
  function Neighbors(n: int, p: Pos, includeDiagonals: bool): (ns: seq<Pos>)
    ensures forall q :: q in ns <==> InBounds(n, q) && (Adjacent(p, q) || (includeDiagonals && Diagonal(p, q)))
    ensures |ns| <= if includeDiagonals then 8 else 4
  {
    var ds := Directions(includeDiagonals);
    var ns := InBoundsShifts(n, p, ds);
    forall q | InBounds(n, q) && (Adjacent(p, q) || (includeDiagonals && Diagonal(p, q)))
      ensures exists k :: 0 <= k < |ds| && q == Shift(p, ds[k].0, ds[k].1)
    {
      var k := DirectionRank(p, q);
      assert q == Shift(p, ds[k].0, ds[k].1);
    }
    ns
  }

  /** getNeighbors lists its cells in the fixed order up, down, left, right, then the diagonals. */
  lemma NeighborsOrdered(n: int, p: Pos, includeDiagonals: bool)
    ensures forall i, j :: 0 <= i < j < |Neighbors(n, p, includeDiagonals)| ==>
      DirectionRank(p, Neighbors(n, p, includeDiagonals)[i]) < DirectionRank(p, Neighbors(n, p, includeDiagonals)[j])
  {
    InBoundsShiftsOrdered(n, p, Directions(includeDiagonals));
  }

  // ---------------------------------------------------------------------
  // hasValidPath

  /**
   * The cells the neighbour loop of hasValidPath queues, in order: each
   * open cell of ns that is not yet seen, the loop marking it as it goes.
   */
  function Discovered(walls: seq<seq<bool>>, seen: set<Pos>, ns: seq<Pos>): seq<Pos>
    decreases |ns|
  {
    if ns == [] then []
    else if Open(walls, ns[0]) && ns[0] !in seen then [ns[0]] + Discovered(walls, seen + {ns[0]}, ns[1..])
    else Discovered(walls, seen, ns[1..])
  }

  /** The seen set after that loop. */
  function Marked(walls: seq<seq<bool>>, seen: set<Pos>, ns: seq<Pos>): set<Pos>
    decreases |ns|
  {
    if ns == [] then seen
    else if Open(walls, ns[0]) && ns[0] !in seen then Marked(walls, seen + {ns[0]}, ns[1..])
    else Marked(walls, seen, ns[1..])
  }

  /**
   * The neighbour loop queues exactly the open cells of ns it had not seen,
   * each once, and afterwards every open cell of ns is seen.
   */
  lemma {:induction false} DiscoveredCells(walls: seq<seq<bool>>, seen: set<Pos>, ns: seq<Pos>)
    ensures forall q :: q in Marked(walls, seen, ns) <==> q in seen || q in Discovered(walls, seen, ns)
    ensures forall q :: q in Discovered(walls, seen, ns) ==> q in ns && Open(walls, q) && q !in seen
    ensures forall q :: q in ns && Open(walls, q) ==> q in Marked(walls, seen, ns)
    decreases |ns|
  {
    if ns != [] {
      var q, rest := ns[0], ns[1..];
      assert forall x :: x in ns <==> x == q || x in rest;
      if Open(walls, q) && q !in seen {
        DiscoveredCells(walls, seen + {q}, rest);
      } else {
        DiscoveredCells(walls, seen, rest);
      }
    }
  }

  /** Each queued cell leaves the set of unseen cells, so the two counts trade off exactly. */
  lemma {:induction false} DiscoveredCount(all: set<Pos>, walls: seq<seq<bool>>, seen: set<Pos>, ns: seq<Pos>)
    requires forall q :: q in ns ==> q in all
    ensures |all - Marked(walls, seen, ns)| + |Discovered(walls, seen, ns)| == |all - seen|
    decreases |ns|
  {
    if ns != [] {
      var q, rest := ns[0], ns[1..];
      assert forall x :: x in rest ==> x in ns;
      if Open(walls, q) && q !in seen {
        DiscoveredCount(all, walls, seen + {q}, rest);
        FewerUnseen(all, seen, q);
      } else {
        DiscoveredCount(all, walls, seen, rest);
      }
    }
  }

  /**
   * What the search of hasValidPath knows between two dequeues: every seen
   * cell is reachable from s and is finished or queued, the finished cells
   * have all their open neighbours seen, and t is not finished.
   */
  ghost predicate SearchState(walls: seq<seq<bool>>, s: Pos, t: Pos,
                              seen: set<Pos>, done: set<Pos>, queue: seq<Pos>)
  {
    s in seen && seen <= AllCells(|walls|) &&
    (forall q :: q in seen ==> InBounds(|walls|, q)) &&
    (forall q :: q in queue ==> q in seen) &&
    done <= seen && t !in done &&
    (forall p :: p in seen ==> p in done || p in queue) &&
    (forall p, q :: p in done && Adjacent(p, q) && Open(walls, q) ==> q in seen) &&
    (forall p :: p in seen ==> Reachable(walls, s, p))
  }

  /** How many cells of the grid are not seen yet: the search's measure. */
  ghost function Unseen(walls: seq<seq<bool>>, seen: set<Pos>): nat {
    |AllCells(|walls|) - seen|
  }

  /** The search starts with only s seen and queued. */
  lemma SearchStart(walls: seq<seq<bool>>, s: Pos, t: Pos)
    requires InBounds(|walls|, s)
    ensures SearchState(walls, s, t, {s}, {}, [s])
  {
    ReachableRefl(walls, s);
    InAllCells(|walls|, s);
  }

  /** A dequeued cell is reachable, so finding t at the head of the queue answers yes. */
  lemma SearchFound(walls: seq<seq<bool>>, s: Pos, t: Pos, seen: set<Pos>, done: set<Pos>, queue: seq<Pos>)
    requires SearchState(walls, s, t, seen, done, queue) && queue != [] && queue[0] == t
    ensures Reachable(walls, s, t)
  {
    assert t in queue;
  }

  /** With the queue empty the finished cells are closed, so t is unreachable. */
  lemma SearchExhausted(walls: seq<seq<bool>>, s: Pos, t: Pos, seen: set<Pos>, done: set<Pos>)
    requires SearchState(walls, s, t, seen, done, [])
    ensures !Reachable(walls, s, t)
  {
    assert done == seen;
    ClosedContainsReachable(walls, done, s, t);
  }

  /**
   * One dequeue-and-expand step of that search keeps the state, and either
   * sees a new cell or shortens the queue.
   */
  lemma SearchStep(walls: seq<seq<bool>>, s: Pos, t: Pos, seen: set<Pos>, done: set<Pos>, queue: seq<Pos>)
    requires IsSquare(walls) && SearchState(walls, s, t, seen, done, queue) && queue != [] && queue[0] != t
    ensures var ns := Neighbors(|walls|, queue[0], false);
      SearchState(walls, s, t, Marked(walls, seen, ns), done + {queue[0]}, queue[1..] + Discovered(walls, seen, ns))
    ensures var ns := Neighbors(|walls|, queue[0], false);
      Unseen(walls, Marked(walls, seen, ns)) < Unseen(walls, seen) ||
      (Unseen(walls, Marked(walls, seen, ns)) == Unseen(walls, seen) &&
       |queue[1..] + Discovered(walls, seen, ns)| < |queue|)
  {
    var current, rest := queue[0], queue[1..];
    var n := |walls|;
    var ns := Neighbors(n, current, false);
    var seen', queue' := Marked(walls, seen, ns), rest + Discovered(walls, seen, ns);
    assert current in queue;
    DiscoveredCells(walls, seen, ns);
    assert seen <= seen';
    forall q | q in ns ensures q in AllCells(n) {
      InAllCells(n, q);
    }
    DiscoveredCount(AllCells(n), walls, seen, ns);
    forall q | q in seen' ensures Reachable(walls, s, q) {
      if q !in seen {
        ReachableStep(walls, s, current, q);
      }
    }
    forall p | p in seen' ensures p in done + {current} || p in queue' {
      if p in seen {
        assert p in done || p in queue;
        assert p in queue ==> p == current || p in rest;
      }
    }
    forall q | Adjacent(current, q) && Open(walls, q) ensures q in seen' {
      assert InBounds(n, q);
      assert q in ns;
    }
  }

  // ---------------------------------------------------------------------
  // export

  /** Row-major order, the order of export's nested loops. */
  predicate Before(p: Pos, q: Pos) {
    p.row < q.row || (p.row == q.row && p.col < q.col)
  }

  predicate RowMajorSorted(ps: seq<Pos>) {
    forall i, j :: 0 <= i < j < |ps| ==> Before(ps[i], ps[j])
  }

  /** Columns 0..k-1 of row r. */
  function RowCells(r: int, k: nat): (ps: seq<Pos>)
    ensures |ps| == k && forall i :: 0 <= i < k ==> ps[i] == Pos(r, i)
  {
    if k == 0 then [] else RowCells(r, k - 1) + [Pos(r, k - 1)]
  }

  /** Rows 0..r-1 of an n-column grid, in scanning order. */
  function GridCells(n: nat, r: nat): (ps: seq<Pos>)
    ensures forall q :: q in ps <==> 0 <= q.row < r && 0 <= q.col < n
    ensures RowMajorSorted(ps)
  {
    if r == 0 then []
    else
      var pre, row := GridCells(n, r - 1), RowCells(r - 1, n);
      assert forall q: Pos :: q in row <==> q.row == r - 1 && 0 <= q.col < n by {
        forall q: Pos | q.row == r - 1 && 0 <= q.col < n ensures q in row {
          assert row[q.col] == q;
        }
      }
      pre + row
  }

  /** The walls among ps, in the order of ps. */
  function WallsAmong(b: Board, ps: seq<Pos>): (ws: seq<Pos>)
    requires WellFormed(b) && forall q :: q in ps ==> InBounds(|b.cells|, q)
    ensures forall q :: q in ws <==> q in ps && At(b, q).isWall
    ensures RowMajorSorted(ps) ==> RowMajorSorted(ws)
  {
    if ps == [] then []
    else
      var pre, last := ps[..|ps| - 1], ps[|ps| - 1];
      assert forall q :: q in ps <==> q in pre || q == last;
      var wpre := WallsAmong(b, pre);
      var ws := wpre + (if At(b, last).isWall then [last] else []);
      assert RowMajorSorted(ps) ==> RowMajorSorted(ws) by {
        if RowMajorSorted(ps) {
          SortedPrefixBefore(ps, wpre);
          if At(b, last).isWall {
            SortedSnoc(wpre, last);
          } else {
            assert ws == wpre;
          }
        }
      }
      ws
  }

  /** In a sorted list the entries before the last are sorted and come before it. */
  lemma SortedPrefixBefore(ps: seq<Pos>, ws: seq<Pos>)
    requires ps != [] && RowMajorSorted(ps) && forall q :: q in ws ==> q in ps[..|ps| - 1]
    ensures RowMajorSorted(ps[..|ps| - 1]) && forall q :: q in ws ==> Before(q, ps[|ps| - 1])
  {
    var pre := ps[..|ps| - 1];
    forall q | q in ws ensures Before(q, ps[|ps| - 1]) {
      var i :| 0 <= i < |pre| && pre[i] == q;
      assert ps[i] == q;
    }
    forall i, j | 0 <= i < j < |pre| ensures Before(pre[i], pre[j]) {
      assert pre[i] == ps[i] && pre[j] == ps[j];
    }
  }

  /** Appending a cell after every entry keeps a list sorted. */
  lemma SortedSnoc(ws: seq<Pos>, x: Pos)
    requires RowMajorSorted(ws) && forall q :: q in ws ==> Before(q, x)
    ensures RowMajorSorted(ws + [x])
  {
    var s := ws + [x];
    forall i, j | 0 <= i < j < |s| ensures Before(s[i], s[j]) {
      assert s[i] == ws[i];
      if j < |ws| {
        assert s[j] == ws[j];
      } else {
        assert ws[i] in ws;
      }
    }
  }

  datatype Role = StartRole | EndRole

  predicate HasRole(c: Cell, role: Role) {
    if role == StartRole then c.isStart else c.isEnd
  }

  /**
   * The start or end export holds before reaching (row, col), cell by
   * cell: export overwrites it at every flagged cell, so it is the last
   * flagged cell scanned.
   */
  function ScanRole(b: Board, row: nat, col: nat, role: Role): Option<Pos>
    requires Initialized(b) && ((row < b.size && col <= b.size) || (row == b.size && col == 0))
    decreases row, col
  {
    if col == 0 then (if row == 0 then None else ScanRole(b, row - 1, b.size, role))
    else if HasRole(At(b, Pos(row, col - 1)), role) then Some(Pos(row, col - 1))
    else ScanRole(b, row, col - 1, role)
  }

  /** Cell q comes before (row, col) in export's row-by-row scan. */
  predicate ScannedBefore(q: Pos, row: int, col: int) {
    q.row < row || (q.row == row && q.col < col)
  }

  /** What ScanRole holds is a scanned cell with the role; it holds nothing only when no scanned cell has the role. */
  lemma {:induction false} ScanRoleFound(b: Board, row: nat, col: nat, role: Role)
    requires Initialized(b) && ((row < b.size && col <= b.size) || (row == b.size && col == 0))
    ensures ScanRole(b, row, col, role).Some? ==>
      var q := ScanRole(b, row, col, role).value;
      InBounds(b.size, q) && ScannedBefore(q, row, col) && HasRole(At(b, q), role)
    ensures ScanRole(b, row, col, role).None? ==>
      forall q :: InBounds(b.size, q) && ScannedBefore(q, row, col) ==> !HasRole(At(b, q), role)
    decreases row, col
  {
    if col == 0 {
      if row > 0 {
        ScanRoleFound(b, row - 1, b.size, role);
      }
    } else if !HasRole(At(b, Pos(row, col - 1)), role) {
      ScanRoleFound(b, row, col - 1, role);
    }
  }

  /** With the role invariant the whole scan keeps exactly the one flagged cell, or nothing when none is flagged. */
  lemma ScanRoleIsFlagged(b: Board, role: Role)
    requires Initialized(b)
    ensures Roles(b) ==> forall q :: ScanRole(b, b.size, 0, role) == Some(q) <==> InBounds(b.size, q) && HasRole(At(b, q), role)
  {
    var o := ScanRole(b, b.size, 0, role);
    ScanRoleFound(b, b.size, 0, role);
    forall q | Roles(b) && InBounds(b.size, q) && HasRole(At(b, q), role) ensures o == Some(q) {
      assert ScannedBefore(q, b.size, 0);
      assert InBounds(b.size, o.value) && HasRole(At(b, o.value), role);
    }
  }

  /** What export returns: {size, walls, start, end}, a missing role being null. */
  datatype Exported = Exported(size: int, walls: seq<Pos>, start: Option<Pos>, end: Option<Pos>)

  /**
   * export: the walls are exactly the wall cells, listed in row-major order
   * and so without repetition; with the role invariant, start and end are
   * the flagged cells, or null when no cell is flagged.
   */
  function ExportBoard(b: Board): (e: Exported)
    requires Initialized(b)
    ensures e.size == b.size
    ensures forall q :: q in e.walls <==> InBounds(b.size, q) && At(b, q).isWall
    ensures RowMajorSorted(e.walls)
    ensures Roles(b) ==> forall q :: e.start == Some(q) <==> InBounds(b.size, q) && At(b, q).isStart
    ensures Roles(b) ==> forall q :: e.end == Some(q) <==> InBounds(b.size, q) && At(b, q).isEnd
  {
    var all := GridCells(|b.cells|, |b.cells|);
    var start, end := ScanRole(b, b.size, 0, StartRole), ScanRole(b, b.size, 0, EndRole);
    ScanRoleIsFlagged(b, StartRole);
    ScanRoleIsFlagged(b, EndRole);
    Exported(b.size, WallsAmong(b, all), start, end)
  }

  /** The cells export has scanned before reaching (row, col). */
  function Scanned(n: nat, row: nat, col: nat): (ps: seq<Pos>)
    requires (row < n && col <= n) || (row == n && col == 0)
    ensures forall q :: q in ps ==> InBounds(n, q)
  {
    var ps := GridCells(n, row) + RowCells(row, col);
    assert forall q :: q in RowCells(row, col) ==> q.row == row && 0 <= q.col < col;
    ps
  }

  /** The walls export has pushed before reaching (row, col), cell by cell. */
  function ScanWalls(b: Board, row: nat, col: nat): seq<Pos>
    requires Initialized(b) && ((row < b.size && col <= b.size) || (row == b.size && col == 0))
    decreases row, col
  {
    if col == 0 then (if row == 0 then [] else ScanWalls(b, row - 1, b.size))
    else ScanWalls(b, row, col - 1) + (if At(b, Pos(row, col - 1)).isWall then [Pos(row, col - 1)] else [])
  }

  lemma ScannedNext(n: nat, row: nat, col: nat)
    requires row < n && 0 < col <= n
    ensures Scanned(n, row, col) == Scanned(n, row, col - 1) + [Pos(row, col - 1)]
  {
  }

  lemma ScannedNextRow(n: nat, row: nat)
    requires 0 < row <= n
    ensures Scanned(n, row, 0) == Scanned(n, row - 1, n)
  {
  }

  lemma WallsAmongSnoc(b: Board, ps: seq<Pos>, q: Pos)
    requires WellFormed(b) && InBounds(|b.cells|, q) && forall p :: p in ps ==> InBounds(|b.cells|, p)
    ensures WallsAmong(b, ps + [q]) == WallsAmong(b, ps) + (if At(b, q).isWall then [q] else [])
  {
    assert (ps + [q])[..|ps|] == ps;
  }

  /** The cell-by-cell scan pushes the walls ExportBoard lists. */
  lemma {:induction false} ScanWallsIsExport(b: Board, row: nat, col: nat)
    requires Initialized(b) && ((row < b.size && col <= b.size) || (row == b.size && col == 0))
    ensures ScanWalls(b, row, col) == WallsAmong(b, Scanned(b.size, row, col))
    decreases row, col
  {
    if col == 0 {
      if row > 0 {
        ScanWallsIsExport(b, row - 1, b.size);
        ScannedNextRow(b.size, row);
      }
    } else {
      ScanWallsIsExport(b, row, col - 1);
      var ps, q := Scanned(b.size, row, col - 1), Pos(row, col - 1);
      ScannedNext(b.size, row, col);
      WallsAmongSnoc(b, ps, q);
    }
  }

  /** Having scanned every row, export returns what it collected. */
  lemma ScanAll(b: Board)
    requires Initialized(b)
    ensures ExportBoard(b) == Exported(b.size, ScanWalls(b, b.size, 0),
                                       ScanRole(b, b.size, 0, StartRole), ScanRole(b, b.size, 0, EndRole))
  {
    ScanWallsIsExport(b, b.size, 0);
    assert Scanned(b.size, b.size, 0) == GridCells(|b.cells|, |b.cells|);
  }

  // ---------------------------------------------------------------------
  // import

  /**
   * The parsed object handed to import; `None` for null, and for a field
   * that is missing (size) or not an array (walls, start, end).
   */
  datatype MazeFile = MazeFile(size: Option<int>, walls: Option<seq<seq<int>>>,
                               start: Option<seq<int>>, end: Option<seq<int>>)

  datatype ImportError =
    | InvalidFormat     // the 'Formato de datos inválido' error, thrown before any change
    | InitializeFailed  // a size of 1 or below: initialize() fails at grid[1][1]

  datatype ImportResult = Imported(board: Board) | Failed(error: ImportError)

  /** `[row, col] = entry` and the range test import applies to it. */
  function EntryPos(n: int, e: seq<int>): (o: Option<Pos>)
    ensures o.Some? <==> |e| >= 2 && InBounds(n, Pos(e[0], e[1]))
    ensures o.Some? ==> o.value == Pos(e[0], e[1])
  {
    if |e| >= 2 && InBounds(n, Pos(e[0], e[1])) then Some(Pos(e[0], e[1])) else None
  }

  /** One wall entry of import: setWall(row, col, true) when the entry is in range. */
  function ApplyWall(b: Board, e: seq<int>): (r: Board)
    requires Initialized(b)
    ensures Initialized(r) && r.size == b.size && r.start == b.start && r.end == b.end
    ensures Roles(b) ==> Roles(r)
  {
    match EntryPos(b.size, e)
    case Some(p) => WithWall(b, p, true)
    case None => b
  }

  /** The wall loop of import: every entry in order. */
  function ApplyWalls(b: Board, ws: seq<seq<int>>): (r: Board)
    requires Initialized(b)
    ensures Initialized(r) && r.size == b.size && r.start == b.start && r.end == b.end
    ensures Roles(b) ==> Roles(r)
  {
    if ws == [] then b else ApplyWall(ApplyWalls(b, ws[..|ws| - 1]), ws[|ws| - 1])
  }

  predicate MissingField(data: Option<MazeFile>) {
    data.None? || data.value.size.None? || data.value.size.value == 0 ||
    data.value.walls.None? || data.value.start.None? || data.value.end.None?
  }

  /** The start line of import: setStart on an in-range entry, nothing otherwise. */
  function ApplyStart(b: Board, e: seq<int>): (r: Board)
    requires Initialized(b) && Roles(b)
    ensures Initialized(r) && Roles(r) && r.size == b.size
  {
    match EntryPos(b.size, e)
    case Some(p) => WithStartRoles(b, p); WithStart(b, p)
    case None => b
  }

  /** The end line of import: setEnd on an in-range entry, nothing otherwise. */
  function ApplyEnd(b: Board, e: seq<int>): (r: Board)
    requires Initialized(b) && Roles(b)
    ensures Initialized(r) && Roles(r) && r.size == b.size
  {
    match EntryPos(b.size, e)
    case Some(p) => WithEndRoles(b, p); WithEnd(b, p)
    case None => b
  }

  /**
   * import: rejects a missing field before changing anything; otherwise
   * re-initializes at the new size, sets the in-range walls, then the start,
   * then the end, each through the guarded setters.
   */
  function ImportBoard(data: Option<MazeFile>): (res: ImportResult)
    ensures MissingField(data) <==> res == Failed(InvalidFormat)
    ensures res.Imported? ==> Initialized(res.board) && Roles(res.board) && res.board.size == data.value.size.value >= 2
  {
    if MissingField(data) then Failed(InvalidFormat)
    else if data.value.size.value < 2 then Failed(InitializeFailed)
    else
      var f := data.value;
      var b1 := ApplyWalls(InitialBoard(f.size.value), f.walls.value);
      Imported(ApplyEnd(ApplyStart(b1, f.start.value), f.end.value))
  }

  /** The in-range wall entries of a file, as positions. */
  ghost function EntrySet(n: int, ws: seq<seq<int>>): set<Pos> {
    set e | e in ws && EntryPos(n, e).Some? :: EntryPos(n, e).value
  }

  /**
   * After the wall loop of import the walls are exactly the in-range listed
   * cells, except the default start (1,1) and end (size-2,size-2), which
   * setWall refuses because they hold their roles at that point.
   */
  lemma {:induction false} ApplyWallsFromInitial(n: int, ws: seq<seq<int>>)
    requires n >= 2
    ensures var r := ApplyWalls(InitialBoard(n), ws);
      forall q :: InBounds(n, q) ==>
        At(r, q) == InitialCell(n, q).(isWall := q in EntrySet(n, ws) && q != Pos(1, 1) && q != Pos(n - 2, n - 2))
  {
    if ws != [] {
      var pre, last := ws[..|ws| - 1], ws[|ws| - 1];
      ApplyWallsFromInitial(n, pre);
      assert forall e :: e in ws <==> e in pre || e == last;
      assert EntrySet(n, ws) == EntrySet(n, pre) + (if EntryPos(n, last).Some? then {EntryPos(n, last).value} else {});
    }
  }

  /** What exportMaze writes and JSON.parse gives back to import. */
  function AsFile(e: Exported): MazeFile {
    MazeFile(Some(e.size),
             Some(seq(|e.walls|, i requires 0 <= i < |e.walls| => [e.walls[i].row, e.walls[i].col])),
             if e.start.Some? then Some([e.start.value.row, e.start.value.col]) else None,
             if e.end.Some? then Some([e.end.value.row, e.end.value.col]) else None)
  }

  lemma NonEmptyHasMember(s: seq<Pos>)
    ensures s != [] ==> exists q :: q in s
  {
    if s != [] {
      assert s[0] in s;
    }
  }

  /** A member of a row-major sorted list is its first entry or comes after it. */
  lemma SortedFirst(xs: seq<Pos>, q: Pos)
    requires RowMajorSorted(xs) && q in xs
    ensures q == xs[0] || Before(xs[0], q)
  {
    var i :| 0 <= i < |xs| && xs[i] == q;
    if i > 0 {
      assert Before(xs[0], xs[i]);
    }
  }

  /** Two row-major sorted lists with the same members are equal. */
  lemma {:induction false} SortedUnique(xs: seq<Pos>, ys: seq<Pos>)
    requires RowMajorSorted(xs) && RowMajorSorted(ys)
    requires forall q :: q in xs <==> q in ys
    ensures xs == ys
    decreases |xs|
  {
    NonEmptyHasMember(xs);
    NonEmptyHasMember(ys);
    if xs != [] {
      assert xs[0] == ys[0] by {
        assert ys[0] in xs && xs[0] in ys;
        SortedFirst(xs, ys[0]);
        SortedFirst(ys, xs[0]);
      }
      forall q ensures q in xs[1..] <==> q in ys[1..] {
        if q in xs[1..] {
          var i :| 1 <= i < |xs| && xs[i] == q;
          assert Before(xs[0], q) && q != ys[0];
          assert q in xs;
          var j :| 0 <= j < |ys| && ys[j] == q;
          assert 1 <= j;
          assert ys[1..][j - 1] == q;
        }
        if q in ys[1..] {
          var j :| 1 <= j < |ys| && ys[j] == q;
          assert Before(ys[0], q) && q != xs[0];
          assert q in ys;
          var i :| 0 <= i < |xs| && xs[i] == q;
          assert 1 <= i;
          assert xs[1..][i - 1] == q;
        }
      }
      SortedUnique(xs[1..], ys[1..]);
      assert xs == [xs[0]] + xs[1..] && ys == [ys[0]] + ys[1..];
    }
  }

  /** Every exported wall entry is in range, so the wall loop of import sees exactly the exported walls. */
  lemma ExportedEntries(e: Exported)
    requires forall q :: q in e.walls ==> InBounds(e.size, q)
    ensures EntrySet(e.size, AsFile(e).walls.value) == set q | q in e.walls
  {
    var ws := AsFile(e).walls.value;
    forall q | q in e.walls ensures q in EntrySet(e.size, ws) {
      var i :| 0 <= i < |e.walls| && e.walls[i] == q;
      assert ws[i] == [q.row, q.col];
      assert EntryPos(e.size, ws[i]) == Some(q);
    }
    forall q | q in EntrySet(e.size, ws) ensures q in e.walls {
      var w :| w in ws && EntryPos(e.size, w).Some? && EntryPos(e.size, w).value == q;
      var i :| 0 <= i < |ws| && ws[i] == w;
      assert w == [e.walls[i].row, e.walls[i].col];
    }
  }

  /** The export as import reads it: every field present, the start and end entries in range. */
  lemma ExportedFields(b: Board, s: Pos, t: Pos)
    requires Initialized(b) && Roles(b) && b.size >= 2
    requires InBounds(b.size, s) && At(b, s).isStart && InBounds(b.size, t) && At(b, t).isEnd
    ensures var f := AsFile(ExportBoard(b));
      !MissingField(Some(f)) && f.size == Some(b.size) &&
      EntryPos(b.size, f.start.value) == Some(s) && EntryPos(b.size, f.end.value) == Some(t)
  {
    var e := ExportBoard(b);
    assert e.start == Some(s) && e.end == Some(t);
  }

  /**
   * The wall loop of import, fed an export, rebuilds the exported walls on
   * a fresh grid; the default roles stay where initialize put them.
   */
  lemma ImportedWalls(b: Board)
    requires Initialized(b) && b.size >= 2
    requires !At(b, Pos(1, 1)).isWall && !At(b, Pos(b.size - 2, b.size - 2)).isWall
    ensures var r := ApplyWalls(InitialBoard(b.size), AsFile(ExportBoard(b)).walls.value);
      forall q :: InBounds(b.size, q) ==> At(r, q) == InitialCell(b.size, q).(isWall := At(b, q).isWall)
  {
    var e := ExportBoard(b);
    ApplyWallsFromInitial(b.size, AsFile(e).walls.value);
    ExportedEntries(e);
  }

  /**
   * setStart(s) then setEnd(t) on open cells that hold neither role: s and t
   * end up flagged and referenced, and no wall changes.
   */
  lemma PlaceRoles(b: Board, s: Pos, t: Pos)
    requires Initialized(b) && Roles(b) && InBounds(b.size, s) && InBounds(b.size, t) && s != t
    requires !At(b, s).isWall && !At(b, s).isEnd && !At(b, t).isWall
    ensures var r := WithEnd(WithStart(b, s), t);
      Initialized(r) && Roles(r) && r.size == b.size && r.start == Some(s) && r.end == Some(t) &&
      At(r, s).isStart && At(r, t).isEnd &&
      forall q :: InBounds(b.size, q) ==> At(r, q).isWall == At(b, q).isWall
  {
    var b2 := WithStart(b, s);
    WithStartRoles(b, s);
    WithEndRoles(b2, t);
  }

  /** import of a complete file whose start and end entries are in range. */
  lemma ImportInRange(f: MazeFile, s: Pos, t: Pos)
    requires !MissingField(Some(f)) && f.size.value >= 2
    requires EntryPos(f.size.value, f.start.value) == Some(s) && EntryPos(f.size.value, f.end.value) == Some(t)
    ensures ImportBoard(Some(f)) ==
      Imported(WithEnd(WithStart(ApplyWalls(InitialBoard(f.size.value), f.walls.value), s), t))
  {
  }

  /**
   * Importing an export rebuilds the walls and puts start and end back on
   * the flagged cells s and t.  It needs s and t distinct, no wall on the
   * default cells (1,1) and (size-2,size-2), whose setWall is refused while
   * they hold their default roles, and a start other than the default end
   * (setStart refuses a cell still flagged end).
   */
  lemma ImportedExport(b: Board, s: Pos, t: Pos)
    requires Initialized(b) && Roles(b) && b.size >= 2
    requires InBounds(b.size, s) && At(b, s).isStart && InBounds(b.size, t) && At(b, t).isEnd && s != t
    requires s != Pos(b.size - 2, b.size - 2)
    requires !At(b, Pos(1, 1)).isWall && !At(b, Pos(b.size - 2, b.size - 2)).isWall
    ensures ImportBoard(Some(AsFile(ExportBoard(b)))).Imported?
    ensures var r := ImportBoard(Some(AsFile(ExportBoard(b)))).board;
      Initialized(r) && Roles(r) && r.size == b.size && r.start == Some(s) && r.end == Some(t) &&
      At(r, s).isStart && At(r, t).isEnd &&
      forall q :: InBounds(b.size, q) ==> At(r, q).isWall == At(b, q).isWall
  {
    var f := AsFile(ExportBoard(b));
    ExportedFields(b, s, t);
    ImportInRange(f, s, t);
    var r := ApplyWalls(InitialBoard(b.size), f.walls.value);
    ImportedWalls(b);
    assert At(r, s) == InitialCell(b.size, s).(isWall := At(b, s).isWall);
    assert At(r, t) == InitialCell(b.size, t).(isWall := At(b, t).isWall);
    PlaceRoles(r, s, t);
    var placed := WithEnd(WithStart(r, s), t);
    assert ImportBoard(Some(f)).board == placed;
    forall q | InBounds(b.size, q)
      ensures At(placed, q).isWall == At(b, q).isWall
    {
      assert At(r, q) == InitialCell(b.size, q).(isWall := At(b, q).isWall);
    }
  }

  /**
   * import(export()) reproduces the export: the same size, walls, start and
   * end, under the conditions of ImportedExport.
   */
  lemma RoundTrip(b: Board, s: Pos, t: Pos)
    requires Initialized(b) && Roles(b) && b.size >= 2
    requires InBounds(b.size, s) && At(b, s).isStart && InBounds(b.size, t) && At(b, t).isEnd && s != t
    requires s != Pos(b.size - 2, b.size - 2)
    requires !At(b, Pos(1, 1)).isWall && !At(b, Pos(b.size - 2, b.size - 2)).isWall
    ensures ImportBoard(Some(AsFile(ExportBoard(b)))).Imported?
    ensures var r := ImportBoard(Some(AsFile(ExportBoard(b)))).board;
      ExportBoard(r) == ExportBoard(b) && r.start == Some(s) && r.end == Some(t)
  {
    ImportedExport(b, s, t);
    var e := ExportBoard(b);
    var r := ImportBoard(Some(AsFile(e))).board;
    var e3 := ExportBoard(r);
    assert forall q :: q in e3.walls <==> q in e.walls;
    SortedUnique(e3.walls, e.walls);
    assert e3.start == Some(s) && e3.end == Some(t);
    assert e.start == Some(s) && e.end == Some(t);
  }
}

/**
 * generateMazeWithDFS of algorithms/generation/dfs-generation.js: fill,
 * open a random odd cell, carve recursively from it, widen the start and
 * end cells.  dfsCarve shuffles the four two-cell offsets and follows each
 * one whose target is inside the grid and still a wall: it opens the cell
 * between and the target, and recurses from the target.
 *
 * Every recursive call opens the target, a wall until then, so the number
 * of wall cells bounds the recursion.
 */
module DfsGeneration {
  import opened Geometry
  import opened MazeSpec
  import opened MazeGrid
  import opened Carving
  import opened Generators
  import opened Shuffle

  // ---------------------------------------------------------------------
  // What a carve leaves behind

  /** The cells a carve opened: walls of a that b no longer has. */
  ghost function Carved(a: Board, b: Board): set<Pos>
    requires Initialized(a) && Initialized(b)
  {
    WallCells(a) - WallCells(b)
  }

  /** Every cell of S can be reached from p through open cells. */
  ghost predicate ReachedFrom(b: Board, p: Pos, S: set<Pos>) {
    forall q :: q in S ==> Reachable(WallsOf(b), p, q)
  }

  /** Every in-bounds cell two apart from p is open. */
  ghost predicate Complete(b: Board, p: Pos) {
    Initialized(b) && forall t :: InBounds(b.size, t) && TwoApart(p, t) ==> !At(b, t).isWall
  }

  /** t is open when it is inside the grid. */
  ghost predicate OpenIfInside(b: Board, t: Pos) {
    Initialized(b) && (InBounds(b.size, t) ==> !At(b, t).isWall)
  }

  ghost predicate CompleteAll(b: Board, S: set<Pos>) {
    forall q :: q in S ==> Complete(b, q)
  }

  /**
   * What a carve from p leaves, going from board a to board b: walls were
   * only removed; every cell it opened and every cell of `started` is
   * reachable from p through open cells; and each cell of `started` has
   * every in-bounds cell two apart from it open.
   */
  ghost predicate Carves(a: Board, b: Board, p: Pos, started: set<Pos>) {
    Opens(a, b, AllCells(a.size)) &&
    ReachedFrom(b, p, Carved(a, b)) && ReachedFrom(b, p, started) && CompleteAll(b, started)
  }

  /** Opening walls keeps what was reachable reachable and what was complete complete. */
  lemma KeptByOpens(a: Board, b: Board, p: Pos, S: set<Pos>, C: set<Pos>)
    requires Opens(a, b, AllCells(a.size)) && ReachedFrom(a, p, S) && CompleteAll(a, C)
    ensures ReachedFrom(b, p, S) && CompleteAll(b, C)
  {
    forall q | q in S
      ensures Reachable(WallsOf(b), p, q)
    {
      OpensKeepsReachable(a, b, AllCells(a.size), p, q);
    }
    OpensKeepsOpen(a, b, AllCells(a.size));
  }

  /** What two carves in a row opened is what each opened. */
  lemma CarvedJoin(a: Board, b: Board, c: Board)
    requires Opens(a, b, AllCells(a.size)) && Opens(b, c, AllCells(a.size))
    ensures Carved(a, c) == Carved(a, b) + Carved(b, c)
  {
    OpensFewerWalls(a, b, AllCells(a.size), Pos(0, 0));
    OpensFewerWalls(b, c, AllCells(a.size), Pos(0, 0));
  }

  /** Everything reachable from t is reachable from p when t is. */
  lemma ReachedThrough(b: Board, p: Pos, t: Pos, S: set<Pos>)
    requires Reachable(WallsOf(b), p, t) && ReachedFrom(b, t, S)
    ensures ReachedFrom(b, p, S)
  {
    forall q | q in S
      ensures Reachable(WallsOf(b), p, q)
    {
      ReachableTrans(WallsOf(b), p, t, q);
    }
  }

  // ---------------------------------------------------------------------
  // One direction of dfsCarve

  /** The two setWall calls: the wall at (row + dr / 2, col + dc / 2), then the target. */
  method CarvePair(m: Maze, row: int, col: int, dr: int, dc: int)
    requires m.Ready() && InBounds(m.size, Pos(row, col)) && InBounds(m.size, Pos(row + dr, col + dc))
    requires TwoApart(Pos(row, col), Pos(row + dr, col + dc))
    modifies m.grid
    ensures m.Ready() && m.size == old(m.size)
    ensures var p, t := Pos(row, col), Pos(row + dr, col + dc);
      m.Model() == WithWall(WithWall(old(m.Model()), Between(p, t), false), t, false)
  {
    BetweenFacts(m.size, Pos(row, col), Pos(row + dr, col + dc));
    var wallRow := row + dr / 2;
    var wallCol := col + dc / 2;
    assert Pos(wallRow, wallCol) == Between(Pos(row, col), Pos(row + dr, col + dc));
    ghost var b := m.Model();
    m.SetWall(wallRow, wallCol, false);
    ghost var mid := m.Model();
    assert mid == WithWall(b, Pos(wallRow, wallCol), false);
    m.SetWall(row + dr, col + dc, false);
  }

  /** The two setWall(_, _, false) open w and t and nothing else. */
  lemma PairOpened(b: Board, w: Pos, t: Pos)
    requires Initialized(b) && Roles(b) && InBounds(b.size, w) && InBounds(b.size, t) && w != t
    ensures var c := WithWall(WithWall(b, w, false), t, false);
      Opens(b, c, {w, t}) && !At(c, w).isWall && !At(c, t).isWall &&
      (At(b, t).isWall ==> |WallCells(c)| < |WallCells(b)|)
  {
    var mid := WithWall(b, w, false);
    var c := WithWall(mid, t, false);
    OpensWithWall(b, w);
    OpensWithWall(mid, t);
    OpensTrans(b, mid, c, {w}, {t});
    OpenPair(b, w, t);
    if At(b, t).isWall {
      OpenTwo(b, w, t);
    }
  }

  /**
   * After the two setWall calls of a followed direction and the carve from
   * its target t: t and the cell between are open, so everything the
   * recursive carve reached from t is now reached from p too.
   */
  lemma FollowedJoin(b: Board, c1: Board, c2: Board, p: Pos, t: Pos, V: set<Pos>)
    requires Initialized(b) && InBounds(b.size, p) && InBounds(b.size, t) && TwoApart(p, t) && !At(b, p).isWall
    requires Opens(b, c1, {Between(p, t), t}) && !At(c1, Between(p, t)).isWall && !At(c1, t).isWall
    requires Carves(c1, c2, t, V)
    ensures Carves(b, c2, p, V) && !At(c2, t).isWall
  {
    var w := Between(p, t);
    BetweenFacts(b.size, p, t);
    InAllCells(b.size, w);
    InAllCells(b.size, t);
    OpensWider(b, c1, {w, t}, AllCells(b.size));
    OpensTransAll(b, c1, c2);
    OpensKeepsOpen(b, c2, AllCells(b.size));
    OpensKeepsOpen(c1, c2, AllCells(b.size));
    var walls := WallsOf(c2);
    ReachableRefl(walls, p);
    ReachableStep(walls, p, p, w);
    ReachableStep(walls, p, w, t);
    CarvedJoin(b, c1, c2);
    forall q | q in Carved(b, c1)
      ensures Reachable(walls, p, q)
    {
      assert q == w || q == t;
    }
    ReachedThrough(c2, p, t, Carved(c1, c2));
    ReachedThrough(c2, p, t, V);
  }

  /**
   * The body of the for loop for one offset (dr, dc): when the target is
   * inside the grid and a wall, open the cell between and the target and
   * carve from the target.  Afterwards the target, when inside the grid, is
   * open; walls were only removed; what was opened, and every cell a carve
   * started from (`started`), is reachable from (row, col); and each of
   * those starting cells has every cell two apart from it open.
   */
  method FollowDirection(m: Maze, row: int, col: int, dr: int, dc: int) returns (ghost started: set<Pos>)
    requires m.Ready() && InBounds(m.size, Pos(row, col)) && !At(m.Model(), Pos(row, col)).isWall
    requires TwoApart(Pos(row, col), Pos(row + dr, col + dc))
    modifies m.grid
    ensures m.Ready() && m.size == old(m.size)
    ensures Carves(old(m.Model()), m.Model(), Pos(row, col), started)
    ensures OpenIfInside(m.Model(), Pos(row + dr, col + dc))
    decreases |WallCells(m.Model())|, 0
  {
    ghost var b := m.Model();
    var newRow, newCol := row + dr, col + dc;
    ghost var t := Pos(newRow, newCol);
    if newRow >= 0 && newRow < m.size && newCol >= 0 && newCol < m.size && m.grid[newRow, newCol].isWall {
      m.ModelCell(t);
      CarvePair(m, row, col, dr, dc);
      ghost var c1 := m.Model();
      BetweenFacts(m.size, Pos(row, col), t);
      PairOpened(b, Between(Pos(row, col), t), t);
      started := DfsCarve(m, newRow, newCol);
      FollowedJoin(b, c1, m.Model(), Pos(row, col), t, started);
    } else {
      if InBounds(m.size, t) {
        m.ModelCell(t);
      }
      started := {};
      NothingCarved(b, Pos(row, col));
    }
  }

  /** A direction not followed carves nothing. */
  lemma NothingCarved(b: Board, p: Pos)
    requires Initialized(b)
    ensures Carves(b, b, p, {})
  {
    OpensRefl(b, AllCells(b.size));
    assert Carved(b, b) == {};
  }

  // ---------------------------------------------------------------------
  // dfsCarve

  /** The directions array before the shuffle. */
  method NewDirections() returns (directions: array<(int, int)>)
    ensures fresh(directions) && directions[..] == Jumps()
  {
    directions := new (int, int)[4];
    directions[0], directions[1], directions[2], directions[3] := (-2, 0), (2, 0), (0, -2), (0, 2);
  }

  /**
   * The loop invariant of dfsCarve after i of the shuffled offsets ds: what
   * Carves says, p still open, and the targets of the first i offsets open
   * when inside the grid.
   */
  ghost predicate CarveProgress(b: Board, c: Board, p: Pos, started: set<Pos>, ds: seq<(int, int)>, i: int) {
    Carves(b, c, p, started) && InBounds(b.size, p) && !At(c, p).isWall && 0 <= i <= |ds| &&
    forall k :: 0 <= k < i ==> OpenIfInside(c, Shift(p, ds[k].0, ds[k].1))
  }

  /** An offset of the shuffled array leads to a cell two apart. */
  lemma ShuffledOffset(p: Pos, ds: seq<(int, int)>, i: int)
    requires multiset(ds) == multiset(Jumps()) && 0 <= i < |ds|
    ensures TwoApart(p, Shift(p, ds[i].0, ds[i].1))
  {
    assert ds[i] in multiset(Jumps());
  }

  /**
   * dfsCarve from an open cell p = (row, col): Carves holds, with p among
   * the cells a carve started from.
   */
  method DfsCarve(m: Maze, row: int, col: int) returns (ghost started: set<Pos>)
    requires m.Ready() && InBounds(m.size, Pos(row, col)) && !At(m.Model(), Pos(row, col)).isWall
    modifies m.grid
    ensures m.Ready() && m.size == old(m.size)
    ensures Carves(old(m.Model()), m.Model(), Pos(row, col), started) && Pos(row, col) in started
    decreases |WallCells(m.Model())|, 1
  {
    var n := m.size;
    ghost var p := Pos(row, col);
    ghost var b := m.Model();
    var directions := NewDirections();
    ShuffleArray(directions);
    ghost var ds := directions[..];
    started := {};
    NothingCarved(b, p);
    ghost var cur := b;
    for i := 0 to 4
      invariant m.Ready() && m.size == n && directions[..] == ds && m.Model() == cur
      invariant CarveProgress(b, cur, p, started, ds, i)
    {
      OpensFewerWalls(b, cur, AllCells(n), p);
      ShuffledOffset(p, ds, i);
      var d := directions[i];
      var dr, dc := d.0, d.1;
      ghost var t := Pos(row + dr, col + dc);
      assert t == Shift(p, ds[i].0, ds[i].1);
      ghost var more := FollowDirection(m, row, col, dr, dc);
      assert OpenIfInside(m.Model(), t);
      DirectionDone(b, cur, m.Model(), p, started, more, ds, i);
      cur := m.Model();
      started := started + more;
    }
    Started(b, cur, p, started, ds);
    started := started + {p};
  }

  /** The loop invariant of dfsCarve carried over one followed direction. */
  lemma DirectionDone(b: Board, c1: Board, c2: Board, p: Pos, started: set<Pos>, more: set<Pos>,
                      ds: seq<(int, int)>, i: int)
    requires CarveProgress(b, c1, p, started, ds, i) && i < |ds|
    requires Carves(c1, c2, p, more)
    requires OpenIfInside(c2, Shift(p, ds[i].0, ds[i].1))
    ensures CarveProgress(b, c2, p, started + more, ds, i + 1)
  {
    OpensTransAll(b, c1, c2);
    OpensKeepsOpen(c1, c2, AllCells(b.size));
    KeptByOpens(c1, c2, p, Carved(b, c1) + started, started);
    CarvedJoin(b, c1, c2);
  }

  /** After all four offsets p is complete, and p joins the cells carves started from. */
  lemma Started(b: Board, c: Board, p: Pos, started: set<Pos>, ds: seq<(int, int)>)
    requires CarveProgress(b, c, p, started, ds, |ds|) && multiset(ds) == multiset(Jumps())
    ensures Carves(b, c, p, started + {p})
  {
    forall t | InBounds(c.size, t) && TwoApart(p, t)
      ensures !At(c, t).isWall
    {
      JumpOffsets(p, t);
      var d := (t.row - p.row, t.col - p.col);
      assert d in multiset(ds);
      var k :| 0 <= k < |ds| && ds[k] == d;
      assert Shift(p, ds[k].0, ds[k].1) == t;
    }
    ReachableRefl(WallsOf(c), p);
  }

  // ---------------------------------------------------------------------
  // generateMazeWithDFS

  /**
   * generateMazeWithDFS, with the starting coordinates drawn from the odd
   * values below size (StartCoordinate).  Before the widening the carve has
   * only removed walls from the filled grid, every cell it opened is
   * reachable from the first cell, and every cell a carve started from has
   * every cell two apart from it open.  The widening then opens at most the
   * start and end cells and their orthogonal neighbours, after which both
   * are open.
   */
  method GenerateMazeWithDfs(m: Maze) returns (ghost first: Pos, ghost carved: Board, ghost started: set<Pos>)
    requires m.Ready() && m.size >= 2
    modifies m.grid
    ensures m.Ready() && m.size == old(m.size)
    ensures OddCell(m.size, first) && first in started
    ensures Carves(Filled(old(m.Model())), carved, first, started)
    ensures Opens(carved, m.Model(), Widened(carved))
    ensures m.startCell.Some? ==> !At(m.Model(), m.startCell.value).isWall
    ensures m.endCell.Some? ==> !At(m.Model(), m.endCell.value).isWall
  {
    var n := m.size;
    FillWalls(m);
    ghost var b1 := m.Model();
    var u: real :| 0.0 <= u < 1.0;
    var v: real :| 0.0 <= v < 1.0;
    var startRow, startCol := StartCoordinate(n, u), StartCoordinate(n, v);
    first := Pos(startRow, startCol);
    m.SetWall(startRow, startCol, false);
    OpenOne(b1, first);
    ghost var b2 := m.Model();
    started := DfsCarve(m, startRow, startCol);
    carved := m.Model();
    StartJoin(b1, b2, carved, first, started);
    WidenEnds(m);
  }

  /** The opened first cell belongs to what the fill-and-carve opened. */
  lemma StartJoin(b1: Board, b2: Board, c: Board, first: Pos, started: set<Pos>)
    requires Initialized(b1) && InBounds(b1.size, first) && b2 == WithWall(b1, first, false)
    requires Opens(b1, b2, AllCells(b1.size)) && Carves(b2, c, first, started)
    ensures Carves(b1, c, first, started)
  {
    OpensTransAll(b1, b2, c);
    CarvedJoin(b1, b2, c);
    ReachableRefl(WallsOf(c), first);
    forall q | q in Carved(b1, b2)
      ensures q == first
    {
    }
  }
}

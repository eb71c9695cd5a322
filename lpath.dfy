/**
 * createPathBetweenStartAndEnd of scripts/main.js, the fallback run when a
 * generated maze has no valid path: from the start cell it moves one column
 * at a time to the end cell's column, then one row at a time to the end
 * cell's row, calling setWall(_, _, false) on every cell it enters.
 */
module LPath {
  import opened Geometry
  import opened MazeSpec
  import opened MazeGrid
  import opened Carving

  /** x lies strictly after a and up to c, on the way from a to c. */
  predicate Passed(a: int, c: int, x: int) {
    (a < x <= c) || (c <= x < a)
  }

  /** x lies between a and b inclusive. */
  predicate Toward(a: int, x: int, b: int) {
    (a <= x <= b) || (b <= x <= a)
  }

  /** One step of either loop: currentCol++ when below the target, currentCol-- otherwise. */
  function StepToward(x: int, target: int): (y: int)
    requires x != target
    ensures y == x + 1 || y == x - 1
    ensures (if x >= target then x - target else target - x) == (if y >= target then y - target else target - y) + 1
  {
    if x < target then x + 1 else x - 1
  }

  /** The cells the first loop enters: row r, columns after a up to c. */
  ghost function RowLeg(r: int, a: int, c: int): set<Pos> {
    set x: int | (if a <= c then a else c) <= x <= (if a <= c then c else a) && Passed(a, c, x) :: Pos(r, x)
  }

  /** The cells the second loop enters: column c, rows after a up to r. */
  ghost function ColumnLeg(c: int, a: int, r: int): set<Pos> {
    set y: int | (if a <= r then a else r) <= y <= (if a <= r then r else a) && Passed(a, r, y) :: Pos(y, c)
  }

  /** The L-shaped set of cells the fallback opens between s and t. */
  ghost function LCells(s: Pos, t: Pos): set<Pos> {
    RowLeg(s.row, s.col, t.col) + ColumnLeg(t.col, s.row, t.row)
  }

  lemma RowLegStep(r: int, a: int, c: int, target: int)
    requires Toward(a, c, target) && c != target
    ensures RowLeg(r, a, StepToward(c, target)) == RowLeg(r, a, c) + {Pos(r, StepToward(c, target))}
  {
    var c' := StepToward(c, target);
    forall q | q in RowLeg(r, a, c')
      ensures q in RowLeg(r, a, c) + {Pos(r, c')}
    {
      var x :| Passed(a, c', x) && q == Pos(r, x);
      if x != c' {
        assert Passed(a, c, x);
      }
    }
  }

  lemma ColumnLegStep(c: int, a: int, r: int, target: int)
    requires Toward(a, r, target) && r != target
    ensures ColumnLeg(c, a, StepToward(r, target)) == ColumnLeg(c, a, r) + {Pos(StepToward(r, target), c)}
  {
    var r' := StepToward(r, target);
    forall q | q in ColumnLeg(c, a, r')
      ensures q in ColumnLeg(c, a, r) + {Pos(r', c)}
    {
      var y :| Passed(a, r', y) && q == Pos(y, c);
      if y != r' {
        assert Passed(a, r, y);
      }
    }
  }

  lemma EmptyLegs(r: int, a: int)
    ensures RowLeg(r, a, a) == {} && ColumnLeg(r, a, a) == {}
  {
    assert forall x :: !Passed(a, a, x);
  }

  /**
   * setWall(row, col, false) on a cell next to `from`, which s reaches:
   * only that cell may lose its wall, it ends open, and s now reaches it.
   */
  method OpenNext(m: Maze, row: int, col: int, ghost s: Pos, ghost from: Pos)
    requires m.Ready() && InBounds(m.size, Pos(row, col)) && Adjacent(from, Pos(row, col))
    requires Reachable(WallsOf(m.Model()), s, from)
    modifies m.grid
    ensures m.Ready() && m.size == old(m.size)
    ensures Opens(old(m.Model()), m.Model(), {Pos(row, col)}) && !At(m.Model(), Pos(row, col)).isWall
    ensures Reachable(WallsOf(m.Model()), s, Pos(row, col))
  {
    ghost var b := m.Model();
    ghost var p := Pos(row, col);
    m.SetWall(row, col, false);
    OpensWithWall(b, p);
    OpensKeepsReachable(b, m.Model(), {p}, s, from);
    ReachableStep(WallsOf(m.Model()), s, from, p);
  }

  /** What holds between two turns of either loop, where `leg` is what has been opened so far. */
  ghost predicate Walked(b: Board, c: Board, s: Pos, cur: Pos, leg: set<Pos>) {
    Opens(b, c, leg) && InBounds(c.size, cur) && Reachable(WallsOf(c), s, cur) &&
    forall q :: q in leg ==> InBounds(c.size, q) && !At(c, q).isWall
  }

  /** A turn keeps Walked, with the entered cell added to the leg. */
  lemma WalkedStep(b: Board, c1: Board, c2: Board, s: Pos, cur: Pos, leg: set<Pos>, next: Pos)
    requires Walked(b, c1, s, cur, leg) && Initialized(c1)
    requires Opens(c1, c2, {next}) && InBounds(c1.size, next) && !At(c2, next).isWall
    requires Reachable(WallsOf(c2), s, next)
    ensures Walked(b, c2, s, next, leg + {next})
  {
    OpensTrans(b, c1, c2, leg, {next});
    OpensKeepsOpen(c1, c2, {next});
  }

  /** The first loop: from column s.col along row s.row to column endCol. */
  method WalkRow(m: Maze, s: Pos, endCol: int) returns (col: int, ghost iterations: nat)
    requires m.Ready() && InBounds(m.size, s) && 0 <= endCol < m.size
    modifies m.grid
    ensures m.Ready() && m.size == old(m.size) && col == endCol
    ensures Walked(old(m.Model()), m.Model(), s, Pos(s.row, endCol), RowLeg(s.row, s.col, endCol))
    ensures iterations == if s.col <= endCol then endCol - s.col else s.col - endCol
  {
    ghost var b := m.Model();
    var row := s.row;
    col := s.col;
    iterations := 0;
    EmptyLegs(row, col);
    OpensRefl(b, {});
    ReachableRefl(WallsOf(b), s);
    while col != endCol
      invariant m.Ready() && m.size == b.size && Toward(s.col, col, endCol)
      invariant Walked(b, m.Model(), s, Pos(row, col), RowLeg(row, s.col, col))
      invariant iterations + (if col <= endCol then endCol - col else col - endCol) ==
                (if s.col <= endCol then endCol - s.col else s.col - endCol)
      decreases if col <= endCol then endCol - col else col - endCol
    {
      ghost var c1 := m.Model();
      ghost var from := Pos(row, col);
      var next := StepToward(col, endCol);
      RowLegStep(row, s.col, col, endCol);
      OpenNext(m, row, next, s, from);
      WalkedStep(b, c1, m.Model(), s, from, RowLeg(row, s.col, col), Pos(row, next));
      col := next;
      iterations := iterations + 1;
    }
  }

  /** The second loop: from row s.row down or up column `col` to row endRow. */
  method WalkColumn(m: Maze, s: Pos, row0: int, col: int, endRow: int)
    returns (row: int, ghost iterations: nat)
    requires m.Ready() && InBounds(m.size, Pos(row0, col)) && 0 <= endRow < m.size
    requires Initialized(m.Model()) && Walked(m.Model(), m.Model(), s, Pos(row0, col), {})
    modifies m.grid
    ensures m.Ready() && m.size == old(m.size) && row == endRow
    ensures Walked(old(m.Model()), m.Model(), s, Pos(endRow, col), ColumnLeg(col, row0, endRow))
    ensures iterations == if row0 <= endRow then endRow - row0 else row0 - endRow
  {
    ghost var b := m.Model();
    row := row0;
    iterations := 0;
    EmptyLegs(col, row);
    while row != endRow
      invariant m.Ready() && m.size == b.size && Toward(row0, row, endRow)
      invariant Walked(b, m.Model(), s, Pos(row, col), ColumnLeg(col, row0, row))
      invariant iterations + (if row <= endRow then endRow - row else row - endRow) ==
                (if row0 <= endRow then endRow - row0 else row0 - endRow)
      decreases if row <= endRow then endRow - row else row - endRow
    {
      ghost var c1 := m.Model();
      ghost var from := Pos(row, col);
      var next := StepToward(row, endRow);
      ColumnLegStep(col, row0, row, endRow);
      OpenNext(m, next, col, s, from);
      WalkedStep(b, c1, m.Model(), s, from, ColumnLeg(col, row0, row), Pos(next, col));
      row := next;
      iterations := iterations + 1;
    }
  }

  /**
   * createPathBetweenStartAndEnd: without a start or an end it does
   * nothing.  Otherwise it only opens walls, on the L-shaped cells from the
   * start along its row to the end's column and then along that column to
   * the end; every one of those cells ends open, the loops make one turn
   * per step of the Manhattan distance, and afterwards the end is reachable
   * from the start, so hasValidPath() holds.
   */
  method CreatePathBetweenStartAndEnd(m: Maze) returns (ghost iterations: nat)
    requires m.Ready()
    modifies m.grid
    ensures m.Ready() && m.size == old(m.size)
    ensures m.startCell.None? || m.endCell.None? ==> m.Model() == old(m.Model()) && iterations == 0
    ensures m.startCell.Some? && m.endCell.Some? ==>
      var s, t := m.startCell.value, m.endCell.value;
      Opens(old(m.Model()), m.Model(), LCells(s, t)) &&
      (forall q :: q in LCells(s, t) ==> InBounds(m.size, q) && !At(m.Model(), q).isWall) &&
      Reachable(WallsOf(m.Model()), s, t) &&
      iterations == Manhattan(s, t)
  {
    if m.startCell.None? || m.endCell.None? {
      return 0;
    }
    ghost var b := m.Model();
    var s, t := m.startCell.value, m.endCell.value;
    var endRow, endCol := t.row, t.col;
    var currentCol, turns1 := WalkRow(m, s, endCol);
    ghost var b1 := m.Model();
    AfterRow(b, b1, s, Pos(s.row, endCol), RowLeg(s.row, s.col, endCol));
    var currentRow, turns2 := WalkColumn(m, s, s.row, currentCol, endRow);
    iterations := turns1 + turns2;
    LJoin(b, b1, m.Model(), s, t);
  }

  /** The state after the first loop starts the second one at an empty leg. */
  lemma AfterRow(b: Board, c: Board, s: Pos, cur: Pos, leg: set<Pos>)
    requires Walked(b, c, s, cur, leg)
    ensures Initialized(c) && Walked(c, c, s, cur, {})
  {
    OpensRefl(c, {});
  }

  /** The two legs together make the L from s to t. */
  lemma LJoin(b: Board, b1: Board, c: Board, s: Pos, t: Pos)
    requires Walked(b, b1, s, Pos(s.row, t.col), RowLeg(s.row, s.col, t.col))
    requires Walked(b1, c, s, t, ColumnLeg(t.col, s.row, t.row))
    ensures Opens(b, c, LCells(s, t)) && Reachable(WallsOf(c), s, t)
    ensures forall q :: q in LCells(s, t) ==> InBounds(c.size, q) && !At(c, q).isWall
  {
    OpensTrans(b, b1, c, RowLeg(s.row, s.col, t.col), ColumnLeg(t.col, s.row, t.row));
    OpensKeepsOpen(b1, c, ColumnLeg(t.col, s.row, t.row));
  }
}

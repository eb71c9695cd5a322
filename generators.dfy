/**
 * The steps the four generators of algorithms/generation/ share: the wall
 * fill, the random odd starting cell, and the widening around the start and
 * end cells.  Each generator writes these out itself; the model states them
 * once.
 */
module Generators {
  import opened Geometry
  import opened MazeSpec
  import opened MazeGrid
  import opened Carving

  /**
   * The fill loop: setWall(row, col, true) on every cell in row-major order
   * (algorithms/generation/prim.js:15-19 and its copies in kruskal.js,
   * backtracking.js and dfs-generation.js).
   */
  method FillWalls(m: Maze)
    requires m.Ready()
    modifies m.grid
    ensures m.Ready() && m.Model() == Filled(old(m.Model()))
  {
    ghost var b := m.Model();
    var n := m.size;
    FillScanStart(b);
    var row := 0;
    while row < n
      invariant 0 <= row <= n && m.Ready() && m.size == n && b.size == n
      invariant m.Model() == FillScan(b, row, 0)
    {
      FillRow(m, row, b);
      row := row + 1;
    }
    FillScanComplete(b);
  }

  /** The inner loop of the fill: setWall(row, col, true) along one row. */
  method FillRow(m: Maze, row: int, ghost b: Board)
    requires m.Ready() && Initialized(b) && b.size == m.size && 0 <= row < m.size
    requires m.Model() == FillScan(b, row, 0)
    modifies m.grid
    ensures m.Ready() && m.size == old(m.size) && m.Model() == FillScan(b, row + 1, 0)
  {
    var n := m.size;
    var col := 0;
    while col < n
      invariant 0 <= col <= n && m.Ready() && m.size == n
      invariant m.Model() == FillScan(b, row, col)
    {
      FillOne(m, row, col, b);
      col := col + 1;
    }
    FillScanRow(b, row);
  }

  /** setWall(row, col, true): the fill moves one cell on. */
  method FillOne(m: Maze, row: int, col: int, ghost b: Board)
    requires m.Ready() && Initialized(b) && b.size == m.size && InBounds(m.size, Pos(row, col))
    requires m.Model() == FillScan(b, row, col)
    modifies m.grid
    ensures m.Ready() && m.size == old(m.size) && m.Model() == FillScan(b, row, col + 1)
  {
    FillScanStep(b, row, col);
    m.SetWall(row, col, true);
  }

  /**
   * The random odd coordinate of prim.js, backtracking.js and
   * dfs-generation.js as written: Math.floor(u * (size / 2)) * 2 + 1 for
   * the Math.random() value u, with size / 2 a real division.
   */
  function WrittenStartCoordinate(size: int, u: real): int
    requires 0.0 <= u < 1.0
  {
    (u * (size as real / 2.0)).Floor * 2 + 1
  }

  /** For an odd size the written formula can land one past the last row. */
  lemma WrittenStartOutOfBounds()
    ensures WrittenStartCoordinate(5, 0.9) == 5
  {
    assert 0.9 * (5 as real / 2.0) == 2.25;
  }

  /**
   * The intended coordinate: an odd cell strictly inside the grid, drawn
   * from the floor(size / 2) odd values below size.
   */
  function StartCoordinate(size: int, u: real): (c: int)
    requires size >= 2 && 0.0 <= u < 1.0
    ensures 1 <= c < size && c % 2 == 1
  {
    var k := (u * ((size / 2) as real)).Floor;
    FloorBelow(u, size / 2);
    k * 2 + 1
  }

  /** 0 <= floor(u * m) < m for 0 <= u < 1 and m >= 1. */
  lemma FloorBelow(u: real, m: int)
    requires 0.0 <= u < 1.0 && m >= 1
    ensures 0 <= (u * (m as real)).Floor < m
  {
    var x := u * (m as real);
    assert 0.0 <= x by {
      assert 0.0 <= u && 0.0 <= m as real;
    }
    assert x < m as real by {
      assert (1.0 - u) * (m as real) > 0.0;
    }
  }

  /** Both formulas agree whenever size is even. */
  lemma StartCoordinateEven(size: int, u: real)
    requires size >= 2 && size % 2 == 0 && 0.0 <= u < 1.0
    ensures WrittenStartCoordinate(size, u) == StartCoordinate(size, u)
  {
    var k := size / 2;
    assert size == 2 * k;
    assert size as real == 2.0 * (k as real);
    assert size as real / 2.0 == k as real;
    var x, y := u * (size as real / 2.0), u * (k as real);
    assert x == y;
    assert x.Floor == y.Floor;
    assert WrittenStartCoordinate(size, u) == x.Floor * 2 + 1;
    assert StartCoordinate(size, u) == y.Floor * 2 + 1;
  }

  /**
   * Widening around a start or end cell: the cell itself is opened by a
   * direct write to isWall, then each in-bounds orthogonal neighbour is
   * opened through setWall when the 70% coin comes up (a free choice here).
   * Written out in algorithms/generation/prim.js:69-91 and its copies.
   */
  method WidenAround(m: Maze, p: Pos)
    requires m.Ready() && InBounds(m.size, p)
    modifies m.grid
    ensures m.Ready()
    ensures Opens(old(m.Model()), m.Model(), {p} + (set q | q in Neighbors(m.size, p, false)))
    ensures !At(m.Model(), p).isWall
  {
    ghost var b := m.Model();
    ghost var S := {p} + (set q | q in Neighbors(m.size, p, false));
    m.ModelCell(p);
    var cell := m.grid[p.row, p.col];
    m.grid[p.row, p.col] := cell.(isWall := false);
    ghost var widened := Put(b, p, cell.(isWall := false));
    assert Opens(b, widened, S);
    OpensKeepsRoles(b, widened, S);
    m.MirrorsModel(widened);
    var ns := m.GetNeighbors(p.row, p.col, false);
    var i := 0;
    while i < |ns|
      invariant 0 <= i <= |ns| && m.Ready()
      invariant Opens(b, m.Model(), S) && !At(m.Model(), p).isWall
    {
      if * {
        ghost var before := m.Model();
        m.SetWall(ns[i].row, ns[i].col, false);
        OpensWithWall(before, ns[i]);
        OpensTrans(b, before, m.Model(), S, {ns[i]});
        OpensWider(b, m.Model(), S + {ns[i]}, S);
      }
      i := i + 1;
    }
  }

  /** The widening of both ends: around startCell, then around endCell, each when set. */
  method WidenEnds(m: Maze)
    requires m.Ready()
    modifies m.grid
    ensures m.Ready() && Opens(old(m.Model()), m.Model(), Widened(old(m.Model())))
    ensures m.startCell.Some? ==> !At(m.Model(), m.startCell.value).isWall
    ensures m.endCell.Some? ==> !At(m.Model(), m.endCell.value).isWall
  {
    ghost var b := m.Model();
    if m.startCell.Some? {
      WidenAround(m, m.startCell.value);
    } else {
      OpensRefl(b, {});
    }
    ghost var mid := m.Model();
    if m.endCell.Some? {
      WidenAround(m, m.endCell.value);
      if m.startCell.Some? {
        OpensOnlyRemovesWalls(mid, m.Model(), Around(b.size, b.end), m.startCell.value);
      }
    } else {
      OpensRefl(mid, {});
    }
    OpensTrans(b, mid, m.Model(), Around(b.size, b.start), Around(b.size, b.end));
  }

  /** The start or end cell and its in-bounds orthogonal neighbours; nothing when unset. */
  ghost function Around(n: int, o: Option<Pos>): set<Pos> {
    if o.None? then {} else {o.value} + (set q | q in Neighbors(n, o.value, false))
  }

  /** The cells the widening may open. */
  ghost function Widened(b: Board): set<Pos> {
    Around(b.size, b.start) + Around(b.size, b.end)
  }
}

/**
 * What the four generators of algorithms/generation/ do to a maze, as
 * values: the wall fill every generator starts with, and the relation
 * "b differs from a only by walls opened inside S" that everything after
 * the fill keeps.
 */
module Carving {
  import opened Geometry
  import opened MazeSpec

  /** Two initialized boards that agree on every cell and on the references are equal. */
  lemma SameBoard(a: Board, b: Board)
    requires Initialized(a) && Initialized(b) && a.size == b.size
    requires a.start == b.start && a.end == b.end
    requires forall p :: InBounds(a.size, p) ==> At(a, p) == At(b, p)
    ensures a == b
  {
    forall r | 0 <= r < a.size
      ensures a.cells[r] == b.cells[r]
    {
      forall c | 0 <= c < a.size
        ensures a.cells[r][c] == b.cells[r][c]
      {
        assert At(a, Pos(r, c)) == At(b, Pos(r, c));
      }
    }
  }

  /** A cell both of whose coordinates are odd: the passage cells of every generator. */
  predicate OddCell(n: int, p: Pos) {
    InBounds(n, p) && p.row % 2 == 1 && p.col % 2 == 1
  }

  ghost function OddCells(n: int): set<Pos> {
    set r, c | 0 <= r < n && 0 <= c < n && r % 2 == 1 && c % 2 == 1 :: Pos(r, c)
  }

  lemma OddCellsMembers(n: int)
    ensures forall q :: q in OddCells(n) <==> OddCell(n, q)
  {
    forall q | OddCell(n, q)
      ensures q in OddCells(n)
    {
      assert q == Pos(q.row, q.col);
    }
  }

  /** A list holding exactly the odd cells. */
  lemma OddCellsListed(n: int, odd: seq<Pos>)
    requires forall q :: q in odd <==> OddCell(n, q)
    ensures (set q | q in odd) == OddCells(n)
  {
    OddCellsMembers(n);
  }

  predicate HoldsRole(c: Cell) {
    c.isStart || c.isEnd
  }

  // ---------------------------------------------------------------------
  // The fill loop: setWall(row, col, true) on every cell

  /** A cell after setWall(_, _, true): refused on start and end cells. */
  function FillCell(c: Cell): Cell {
    if HoldsRole(c) then c else c.(isWall := true)
  }

  /** The maze after the fill loop of every generator. */
  function Filled(b: Board): (r: Board)
    requires Initialized(b)
    ensures Initialized(r) && r.size == b.size && r.start == b.start && r.end == b.end
    ensures forall p :: InBounds(b.size, p) ==> At(r, p) == FillCell(At(b, p))
  {
    Board(b.size, seq(b.size, r requires 0 <= r < b.size =>
                   seq(b.size, c requires 0 <= c < b.size => FillCell(At(b, Pos(r, c))))),
          b.start, b.end)
  }

  /** After the fill every cell except the start and end cells is a wall, and no flag moves. */
  lemma FilledWalls(b: Board, p: Pos)
    requires Initialized(b) && Roles(b) && InBounds(b.size, p)
    ensures At(Filled(b), p).isWall <==> !HoldsRole(At(b, p))
    ensures At(Filled(b), p).isStart == At(b, p).isStart && At(Filled(b), p).isEnd == At(b, p).isEnd
  {
  }

  /** The fill keeps the role invariant: it moves no flag and walls no start or end cell. */
  lemma FilledRoles(b: Board)
    requires Initialized(b) && Roles(b)
    ensures Roles(Filled(b))
  {
    var f := Filled(b);
    forall p | InBounds(|f.cells|, p)
      ensures (At(f, p).isStart ==> f.start == Some(p) && !At(f, p).isWall) &&
              (At(f, p).isEnd ==> f.end == Some(p) && !At(f, p).isWall)
    {
      assert At(f, p) == FillCell(At(b, p));
    }
  }

  /** The fill loop after its first `row` rows and `col` more cells: the cells passed are filled, the rest untouched. */
  function FillScan(b: Board, row: int, col: int): (r: Board)
    requires Initialized(b)
    ensures Initialized(r) && r.size == b.size && r.start == b.start && r.end == b.end
    ensures forall q :: InBounds(b.size, q) ==> At(r, q) == if Before(q, Pos(row, col)) then FillCell(At(b, q)) else At(b, q)
  {
    Board(b.size, seq(b.size, r requires 0 <= r < b.size =>
                   seq(b.size, c requires 0 <= c < b.size =>
                     if Before(Pos(r, c), Pos(row, col)) then FillCell(At(b, Pos(r, c))) else At(b, Pos(r, c)))),
          b.start, b.end)
  }

  /** Before the first setWall nothing is filled. */
  lemma FillScanStart(b: Board)
    requires Initialized(b)
    ensures FillScan(b, 0, 0) == b
  {
    SameBoard(FillScan(b, 0, 0), b);
  }

  /** One setWall(row, col, true) of the fill loop: the loop moves one cell on. */
  lemma FillScanStep(b: Board, row: int, col: int)
    requires Initialized(b) && InBounds(b.size, Pos(row, col))
    ensures FillScan(b, row, col + 1) == WithWall(FillScan(b, row, col), Pos(row, col), true)
  {
    var prev := FillScan(b, row, col);
    var next := WithWall(prev, Pos(row, col), true);
    forall q | InBounds(b.size, q)
      ensures At(FillScan(b, row, col + 1), q) == At(next, q)
    {
      if q == Pos(row, col) {
        assert At(prev, q) == At(b, q);
      }
    }
    SameBoard(FillScan(b, row, col + 1), next);
  }

  /** The end of one row is the start of the next. */
  lemma FillScanRow(b: Board, row: int)
    requires Initialized(b)
    ensures FillScan(b, row, b.size) == FillScan(b, row + 1, 0)
  {
    SameBoard(FillScan(b, row, b.size), FillScan(b, row + 1, 0));
  }

  lemma FillScanComplete(b: Board)
    requires Initialized(b)
    ensures FillScan(b, b.size, 0) == Filled(b)
  {
    SameBoard(FillScan(b, b.size, 0), Filled(b));
  }

  // ---------------------------------------------------------------------
  // Opening walls

  /**
   * b is a with some walls inside S opened: same size and references, and
   * every cell is unchanged or has only lost its wall, which happens only
   * inside S.
   */
  ghost predicate Opens(a: Board, b: Board, S: set<Pos>) {
    Initialized(a) && Initialized(b) && b.size == a.size && b.start == a.start && b.end == a.end &&
    forall p :: InBounds(a.size, p) ==>
      (At(b, p) == At(a, p) || (p in S && At(b, p) == At(a, p).(isWall := false)))
  }

  lemma OpensRefl(a: Board, S: set<Pos>)
    requires Initialized(a)
    ensures Opens(a, a, S)
  {
  }

  lemma OpensTrans(a: Board, b: Board, c: Board, S: set<Pos>, T: set<Pos>)
    requires Opens(a, b, S) && Opens(b, c, T)
    ensures Opens(a, c, S + T)
  {
    forall p | InBounds(a.size, p)
      ensures At(c, p) == At(a, p) || (p in S + T && At(c, p) == At(a, p).(isWall := false))
    {
      assert InBounds(b.size, p);
    }
  }

  /** Two steps that each only remove walls only remove walls. */
  lemma OpensTransAll(a: Board, b: Board, c: Board)
    requires Opens(a, b, AllCells(a.size)) && Opens(b, c, AllCells(a.size))
    ensures Opens(a, c, AllCells(a.size))
  {
    OpensTrans(a, b, c, AllCells(a.size), AllCells(a.size));
    assert AllCells(a.size) + AllCells(a.size) == AllCells(a.size);
  }

  lemma OpensWider(a: Board, b: Board, S: set<Pos>, T: set<Pos>)
    requires Opens(a, b, S) && S <= T
    ensures Opens(a, b, T)
  {
  }

  /** setWall(p, false) opens at most p. */
  lemma OpensWithWall(a: Board, p: Pos)
    requires Initialized(a) && InBounds(a.size, p)
    ensures Opens(a, WithWall(a, p, false), {p})
  {
  }

  /** Opening walls never moves a role flag, and a non-wall stays a non-wall, so it keeps the role invariant. */
  lemma OpensKeepsRoles(a: Board, b: Board, S: set<Pos>)
    requires Opens(a, b, S) && Roles(a)
    ensures Roles(b)
  {
    forall p | InBounds(|b.cells|, p)
      ensures (At(b, p).isStart ==> b.start == Some(p) && !At(b, p).isWall) &&
              (At(b, p).isEnd ==> b.end == Some(p) && !At(b, p).isWall)
    {
      assert InBounds(a.size, p);
    }
  }

  /** An opened cell stays open and a wall can only become open: walls only decrease. */
  lemma OpensOnlyRemovesWalls(a: Board, b: Board, S: set<Pos>, p: Pos)
    requires Opens(a, b, S) && InBounds(a.size, p)
    ensures At(b, p).isWall ==> At(a, p).isWall
    ensures At(b, p).isWall != At(a, p).isWall ==> p in S
  {
  }

  /** A cell that is open stays open. */
  lemma OpensKeepsOpen(a: Board, b: Board, S: set<Pos>)
    requires Opens(a, b, S)
    ensures forall p :: InBounds(a.size, p) && !At(a, p).isWall ==> !At(b, p).isWall
  {
  }

  /** The wall cells of a board. */
  ghost function WallCells(b: Board): set<Pos>
    requires Initialized(b)
  {
    set p | p in AllCells(b.size) && InBounds(b.size, p) && At(b, p).isWall
  }

  /** Opening walls never adds a wall cell, and opening a wall cell leaves fewer of them. */
  lemma OpensFewerWalls(a: Board, b: Board, S: set<Pos>, q: Pos)
    requires Opens(a, b, S)
    ensures WallCells(b) <= WallCells(a) && |WallCells(b)| <= |WallCells(a)|
    ensures InBounds(a.size, q) && At(a, q).isWall && !At(b, q).isWall ==> |WallCells(b)| < |WallCells(a)|
  {
    var wa, wb := WallCells(a), WallCells(b);
    assert wa == wb + (wa - wb);
    if InBounds(a.size, q) && At(a, q).isWall && !At(b, q).isWall {
      InAllCells(a.size, q);
      assert q in wa - wb;
    }
  }

  /** setWall(p, false) for every p of ps in turn. */
  function OpenEach(b: Board, ps: seq<Pos>): (r: Board)
    requires Initialized(b) && forall i :: 0 <= i < |ps| ==> InBounds(b.size, ps[i])
    ensures Initialized(r) && r.size == b.size && r.start == b.start && r.end == b.end
    ensures Roles(b) ==> Roles(r)
    decreases |ps|
  {
    if ps == [] then b else WithWall(OpenEach(b, ps[..|ps| - 1]), ps[|ps| - 1], false)
  }

  /** Opening the cells of ps opens at most those cells, and all of them end open. */
  lemma {:induction false} OpenEachOpens(b: Board, ps: seq<Pos>)
    requires Initialized(b) && Roles(b) && forall i :: 0 <= i < |ps| ==> InBounds(b.size, ps[i])
    ensures Opens(b, OpenEach(b, ps), set q | q in ps)
    ensures forall q :: q in ps ==> !At(OpenEach(b, ps), q).isWall
    decreases |ps|
  {
    if ps != [] {
      var pre, last := ps[..|ps| - 1], ps[|ps| - 1];
      assert forall q :: q in ps <==> q in pre || q == last;
      OpenEachOpens(b, pre);
      var mid, r := OpenEach(b, pre), OpenEach(b, ps);
      OpensWithWall(mid, last);
      OpensTrans(b, mid, r, set q | q in pre, {last});
      OpensWider(b, r, (set q | q in pre) + {last}, set q | q in ps);
      OpensKeepsOpen(mid, r, {last});
    }
  }

  lemma OpenEachSnoc(b: Board, ps: seq<Pos>, q: Pos)
    requires Initialized(b) && InBounds(b.size, q) && forall i :: 0 <= i < |ps| ==> InBounds(b.size, ps[i])
    ensures OpenEach(b, ps + [q]) == WithWall(OpenEach(b, ps), q, false)
  {
    assert (ps + [q])[..|ps|] == ps;
  }

  /** Opening one cell only removes walls and never adds a wall cell. */
  lemma OpenOne(b: Board, w: Pos)
    requires Initialized(b) && InBounds(b.size, w)
    ensures Opens(b, WithWall(b, w, false), AllCells(b.size))
    ensures |WallCells(WithWall(b, w, false))| <= |WallCells(b)|
  {
    InAllCells(b.size, w);
    OpensWithWall(b, w);
    OpensWider(b, WithWall(b, w, false), {w}, AllCells(b.size));
    OpensFewerWalls(b, WithWall(b, w, false), AllCells(b.size), w);
  }

  /** Opening a cell and then a wall cell leaves strictly fewer wall cells. */
  lemma OpenTwo(b: Board, w: Pos, o: Pos)
    requires Initialized(b) && Roles(b) && InBounds(b.size, w) && InBounds(b.size, o) && o != w && At(b, o).isWall
    ensures var c := WithWall(WithWall(b, w, false), o, false);
      Opens(b, c, AllCells(b.size)) && |WallCells(c)| < |WallCells(b)|
  {
    var mid := WithWall(b, w, false);
    var c := WithWall(mid, o, false);
    OpenOne(b, w);
    OpenOne(mid, o);
    OpensTrans(b, mid, c, AllCells(b.size), AllCells(b.size));
    assert AllCells(b.size) + AllCells(b.size) == AllCells(b.size);
    OpensFewerWalls(b, c, AllCells(b.size), o);
  }

  /** The two setWall(_, _, false) of a push only open walls, and both cells end open. */
  lemma OpenPair(b: Board, w: Pos, q: Pos)
    requires Initialized(b) && Roles(b) && InBounds(b.size, w) && InBounds(b.size, q)
    ensures var c := WithWall(WithWall(b, w, false), q, false);
      Opens(b, c, AllCells(b.size)) && !At(c, w).isWall && !At(c, q).isWall
  {
    var mid := WithWall(b, w, false);
    var c := WithWall(mid, q, false);
    OpenOne(b, w);
    OpenOne(mid, q);
    OpensTrans(b, mid, c, AllCells(b.size), AllCells(b.size));
    assert AllCells(b.size) + AllCells(b.size) == AllCells(b.size);
    OpensKeepsOpen(mid, c, AllCells(b.size));
  }

  /** Opening walls keeps every walk a walk, so what was reachable stays reachable. */
  lemma OpensKeepsReachable(a: Board, b: Board, S: set<Pos>, s: Pos, t: Pos)
    requires Opens(a, b, S) && Reachable(WallsOf(a), s, t)
    ensures Reachable(WallsOf(b), s, t)
  {
    var wa, wb := WallsOf(a), WallsOf(b);
    var path :| IsWalk(wa, path) && path[0] == s && path[|path| - 1] == t;
    forall i | 0 < i < |path|
      ensures Open(wb, path[i])
    {
      assert Open(wa, path[i]);
      assert InBounds(a.size, path[i]);
    }
    assert IsWalk(wb, path);
  }

  // ---------------------------------------------------------------------
  // Moves between odd cells, as the backtracking and DFS generators make them

  /** q lies two cells from p along a row or a column. */
  predicate TwoApart(p: Pos, q: Pos) {
    (p.row == q.row && (q.col == p.col + 2 || q.col == p.col - 2)) ||
    (p.col == q.col && (q.row == p.row + 2 || q.row == p.row - 2))
  }

  /**
   * The offsets both generators try, up, down, left, right, two cells each
   * (getUnvisitedNeighbors in backtracking.js, dfsCarve in dfs-generation.js).
   */
  function Jumps(): seq<(int, int)> {
    [(-2, 0), (2, 0), (0, -2), (0, 2)]
  }

  /** The offsets lead exactly to the cells two apart. */
  lemma JumpOffsets(p: Pos, q: Pos)
    ensures TwoApart(p, q) <==> (q.row - p.row, q.col - p.col) in Jumps()
  {
  }

  /** The cell between two cells two apart: ((r1 + r2) / 2, (c1 + c2) / 2). */
  function Between(p: Pos, q: Pos): Pos {
    Pos((p.row + q.row) / 2, (p.col + q.col) / 2)
  }

  /** The cell between is a neighbour of both ends, inside the grid when they are, and odd cells move to odd cells. */
  lemma BetweenFacts(n: int, p: Pos, q: Pos)
    requires TwoApart(p, q)
    ensures Adjacent(p, Between(p, q)) && Adjacent(Between(p, q), q)
    ensures Between(p, q) != p && Between(p, q) != q
    ensures InBounds(n, p) && InBounds(n, q) ==> InBounds(n, Between(p, q))
    ensures OddCell(n, p) && InBounds(n, q) ==> OddCell(n, q)
  {
  }

  /** Every cell two apart from a member of V, inside the grid, is in V. */
  ghost predicate JumpClosed(n: int, V: set<Pos>) {
    forall p, q :: p in V && InBounds(n, q) && TwoApart(p, q) ==> q in V
  }

  /** Moving along p's row two cells at a time reaches every odd column. */
  lemma {:induction false} AlongRow(n: int, V: set<Pos>, p: Pos, c: int)
    requires JumpClosed(n, V) && p in V && OddCell(n, p) && 0 <= c < n && c % 2 == 1
    ensures Pos(p.row, c) in V
    decreases if c >= p.col then c - p.col else p.col - c
  {
    if c > p.col {
      AlongRow(n, V, p, c - 2);
      assert TwoApart(Pos(p.row, c - 2), Pos(p.row, c));
    } else if c < p.col {
      AlongRow(n, V, p, c + 2);
      assert TwoApart(Pos(p.row, c + 2), Pos(p.row, c));
    } else {
      assert Pos(p.row, c) == p;
    }
  }

  /** Moving along p's column two cells at a time reaches every odd row. */
  lemma {:induction false} AlongColumn(n: int, V: set<Pos>, p: Pos, r: int)
    requires JumpClosed(n, V) && p in V && OddCell(n, p) && 0 <= r < n && r % 2 == 1
    ensures Pos(r, p.col) in V
    decreases if r >= p.row then r - p.row else p.row - r
  {
    if r > p.row {
      AlongColumn(n, V, p, r - 2);
      assert TwoApart(Pos(r - 2, p.col), Pos(r, p.col));
    } else if r < p.row {
      AlongColumn(n, V, p, r + 2);
      assert TwoApart(Pos(r + 2, p.col), Pos(r, p.col));
    } else {
      assert Pos(r, p.col) == p;
    }
  }

  /** The odd cells are connected by moves two apart: a closed set holding one of them holds them all. */
  lemma JumpClosedAll(n: int, V: set<Pos>, p: Pos)
    requires JumpClosed(n, V) && p in V && OddCell(n, p)
    ensures OddCells(n) <= V
  {
    forall q | q in OddCells(n)
      ensures q in V
    {
      OddCellsMembers(n);
      AlongRow(n, V, p, q.col);
      AlongColumn(n, V, Pos(p.row, q.col), q.row);
    }
  }
}

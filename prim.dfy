/**
 * generateMazeWithPrim of algorithms/generation/prim.js: fill, open a random
 * odd cell, then grow from a list of frontier walls.  A frontier wall picked
 * at random is taken off the list; when exactly one of its orthogonal
 * neighbours is a passage it is opened, and so is the cell across it from
 * that passage, whose own frontier walls join the list.  Finally the start
 * and end cells are widened.
 */
module Prim {
  import opened Geometry
  import opened MazeSpec
  import opened MazeGrid
  import opened Carving
  import opened Generators

  // ---------------------------------------------------------------------
  // getPassageNeighbors

  /** q when it is an in-bounds passage, nothing otherwise. */
  function PassageAt(b: Board, q: Pos): (ps: seq<Pos>)
    requires Initialized(b)
  {
    if InBounds(b.size, q) && !At(b, q).isWall then [q] else []
  }

  /** The passages among the cells the offsets ds lead to from p, in the order of ds. */
  function PassageScan(b: Board, p: Pos, ds: seq<(int, int)>): seq<Pos>
    requires Initialized(b)
  {
    if ds == [] then []
    else PassageScan(b, p, ds[..|ds| - 1]) + PassageAt(b, Shift(p, ds[|ds| - 1].0, ds[|ds| - 1].1))
  }

  lemma PassageScanSnoc(b: Board, p: Pos, ds: seq<(int, int)>, d: (int, int))
    requires Initialized(b)
    ensures PassageScan(b, p, ds + [d]) == PassageScan(b, p, ds) + PassageAt(b, Shift(p, d.0, d.1))
  {
    assert (ds + [d])[..|ds|] == ds;
  }

  lemma PassageScanPrefix(b: Board, p: Pos, ds: seq<(int, int)>, i: int)
    requires Initialized(b) && 0 <= i < |ds|
    ensures PassageScan(b, p, ds[..i + 1]) == PassageScan(b, p, ds[..i]) + PassageAt(b, Shift(p, ds[i].0, ds[i].1))
  {
    assert ds[..i + 1] == ds[..i] + [ds[i]];
    PassageScanSnoc(b, p, ds[..i], ds[i]);
  }

  /** The four orthogonal neighbours in the order up, down, left, right. */
  function Up(p: Pos): Pos { Pos(p.row - 1, p.col) }
  function Down(p: Pos): Pos { Pos(p.row + 1, p.col) }
  function Left(p: Pos): Pos { Pos(p.row, p.col - 1) }
  function Right(p: Pos): Pos { Pos(p.row, p.col + 1) }

  lemma PassageScanFour(b: Board, p: Pos)
    requires Initialized(b)
    ensures PassageScan(b, p, Directions(false)) ==
      PassageAt(b, Up(p)) + PassageAt(b, Down(p)) + PassageAt(b, Left(p)) + PassageAt(b, Right(p))
  {
    var ds := Directions(false);
    PassageScanPrefix(b, p, ds, 0);
    PassageScanPrefix(b, p, ds, 1);
    PassageScanPrefix(b, p, ds, 2);
    PassageScanPrefix(b, p, ds, 3);
    assert ds[..4] == ds;
    assert ds[..0] == [];
  }

  /** The ranks of the cells of ns, seen from p, strictly increase. */
  predicate RankIncreasing(p: Pos, ns: seq<Pos>) {
    forall i, j :: 0 <= i < j < |ns| ==> DirectionRank(p, ns[i]) < DirectionRank(p, ns[j])
  }

  /** Appending a cell of higher rank than all others keeps the ranks increasing. */
  lemma RankAppend(b: Board, p: Pos, ns: seq<Pos>, q: Pos)
    requires Initialized(b) && RankIncreasing(p, ns)
    requires forall i :: 0 <= i < |ns| ==> DirectionRank(p, ns[i]) < DirectionRank(p, q)
    ensures RankIncreasing(p, ns + PassageAt(b, q))
    ensures forall i :: 0 <= i < |ns + PassageAt(b, q)| ==> DirectionRank(p, (ns + PassageAt(b, q))[i]) <= DirectionRank(p, q)
  {
  }

  /** getPassageNeighbors as specified: the orthogonal in-bounds neighbours of p that are not walls. */
  function PassageNeighbors(b: Board, p: Pos): (ps: seq<Pos>)
    requires Initialized(b)
    ensures |ps| <= 4
    ensures forall q :: q in ps <==> InBounds(b.size, q) && Adjacent(p, q) && !At(b, q).isWall
  {
    PassageScanFour(b, p);
    PassageScan(b, p, Directions(false))
  }

  /** They come in the order up, down, left, right. */
  lemma PassageNeighborsOrdered(b: Board, p: Pos)
    requires Initialized(b)
    ensures RankIncreasing(p, PassageNeighbors(b, p))
  {
    PassageScanFour(b, p);
    assert DirectionRank(p, Up(p)) == 0 && DirectionRank(p, Down(p)) == 1;
    assert DirectionRank(p, Left(p)) == 2 && DirectionRank(p, Right(p)) == 3;
    var s1 := PassageAt(b, Up(p));
    RankAppend(b, p, [], Up(p));
    RankAppend(b, p, s1, Down(p));
    var s2 := s1 + PassageAt(b, Down(p));
    RankAppend(b, p, s2, Left(p));
    var s3 := s2 + PassageAt(b, Left(p));
    RankAppend(b, p, s3, Right(p));
    assert [] + s1 == s1;
  }

  /** The test of one direction in getPassageNeighbors: an in-bounds cell that is not a wall is appended. */
  method CheckPassage(m: Maze, newRow: int, newCol: int, passages: seq<Pos>) returns (ps: seq<Pos>)
    requires m.Ready()
    ensures ps == passages + PassageAt(m.Model(), Pos(newRow, newCol))
  {
    ps := passages;
    if 0 <= newRow < m.size && 0 <= newCol < m.size {
      m.ModelCell(Pos(newRow, newCol));
      if !m.grid[newRow, newCol].isWall {
        ps := passages + [Pos(newRow, newCol)];
      }
    }
  }

  method GetPassageNeighbors(m: Maze, row: int, col: int) returns (passages: seq<Pos>)
    requires m.Ready()
    ensures passages == PassageNeighbors(m.Model(), Pos(row, col))
  {
    ghost var b := m.Model();
    var directions := Directions(false);
    var p := Pos(row, col);
    passages := [];
    var i := 0;
    while i < |directions|
      invariant 0 <= i <= |directions|
      invariant passages == PassageScan(b, p, directions[..i])
    {
      PassageScanPrefix(b, p, directions, i);
      passages := CheckPassage(m, row + directions[i].0, col + directions[i].1, passages);
      i := i + 1;
    }
    assert directions[..i] == directions;
  }

  // ---------------------------------------------------------------------
  // addFrontierWalls

  /** The cell two steps from p through its neighbour w. */
  function Beyond(p: Pos, w: Pos): Pos {
    Pos(2 * w.row - p.row, 2 * w.col - p.col)
  }

  /** w is a frontier wall of p: it lies between p and an in-bounds wall cell two steps away. */
  predicate FrontierWall(b: Board, p: Pos, w: Pos)
    requires Initialized(b)
  {
    Adjacent(p, w) && InBounds(b.size, Beyond(p, w)) && At(b, Beyond(p, w)).isWall
  }

  /** A frontier wall of an in-bounds cell is in bounds: it is the midpoint of two in-bounds cells. */
  lemma FrontierWallInBounds(b: Board, p: Pos, w: Pos)
    requires Initialized(b) && InBounds(b.size, p) && FrontierWall(b, p, w)
    ensures InBounds(b.size, w)
  {
  }

  /** The test of one direction in addFrontierWalls: a frontier wall not yet listed is appended. */
  method CheckFrontier(m: Maze, p: Pos, wall: Pos, newRow: int, newCol: int, f: seq<Pos>) returns (g: seq<Pos>)
    requires m.Ready() && Adjacent(p, wall) && Pos(newRow, newCol) == Beyond(p, wall)
    ensures g == f + (if FrontierWall(m.Model(), p, wall) && wall !in f then [wall] else [])
  {
    g := f;
    if 0 <= newRow < m.size && 0 <= newCol < m.size {
      m.ModelCell(Pos(newRow, newCol));
      if m.grid[newRow, newCol].isWall {
        var isInFrontier := wall in f;
        if !isInFrontier {
          g := f + [wall];
        }
      }
    }
  }

  /** Testing the direction of rank i extends what the list holds to the frontier walls of rank i. */
  lemma FrontierStep(b: Board, p: Pos, frontier: seq<Pos>, f: seq<Pos>, i: int, wall: Pos, g: seq<Pos>)
    requires Initialized(b) && Adjacent(p, wall) && DirectionRank(p, wall) == i
    requires |frontier| <= |f| && f[..|frontier|] == frontier
    requires forall w :: w in f <==> w in frontier || (FrontierWall(b, p, w) && DirectionRank(p, w) < i)
    requires g == f + (if FrontierWall(b, p, wall) && wall !in f then [wall] else [])
    ensures |f| <= |g| <= |f| + 1 && g[..|frontier|] == frontier
    ensures forall w :: w in g <==> w in frontier || (FrontierWall(b, p, w) && DirectionRank(p, w) < i + 1)
    ensures NoDuplicates(f) ==> NoDuplicates(g)
  {
    assert g[..|frontier|] == f[..|frontier|];
    forall w
      ensures w in g <==> w in frontier || (FrontierWall(b, p, w) && DirectionRank(p, w) < i + 1)
    {
      if Adjacent(p, w) && DirectionRank(p, w) == i {
        SameRank(p, w, wall);
      }
    }
  }

  /**
   * addFrontierWalls: appends, in the order up, down, left, right, the
   * frontier walls of (row, col) not already listed.  The list keeps what it
   * had, gains at most four entries, stays free of duplicates, and then
   * holds exactly the old entries and the frontier walls of (row, col).
   */
  method AddFrontierWalls(m: Maze, row: int, col: int, frontier: seq<Pos>) returns (f: seq<Pos>)
    requires m.Ready() && InBounds(m.size, Pos(row, col))
    ensures |frontier| <= |f| <= |frontier| + 4 && f[..|frontier|] == frontier
    ensures forall w :: w in f <==> w in frontier || FrontierWall(m.Model(), Pos(row, col), w)
    ensures NoDuplicates(frontier) ==> NoDuplicates(f)
    ensures (forall w :: w in frontier ==> InBounds(m.size, w)) ==> forall w :: w in f ==> InBounds(m.size, w)
  {
    ghost var b := m.Model();
    var p := Pos(row, col);
    var directions := [(-2, 0), (2, 0), (0, -2), (0, 2)];
    f := frontier;
    var i := 0;
    while i < |directions|
      invariant 0 <= i <= |directions|
      invariant |frontier| <= |f| <= |frontier| + i && f[..|frontier|] == frontier
      invariant forall w :: w in f <==> w in frontier || (FrontierWall(b, p, w) && DirectionRank(p, w) < i)
      invariant NoDuplicates(frontier) ==> NoDuplicates(f)
    {
      var (dr, dc) := directions[i];
      var wall := Pos(row + dr / 2, col + dc / 2);
      assert DirectionRank(p, wall) == i && Adjacent(p, wall) && Beyond(p, wall) == Pos(row + dr, col + dc);
      ghost var f0 := f;
      f := CheckFrontier(m, p, wall, row + dr, col + dc, f);
      FrontierStep(b, p, frontier, f0, i, wall, f);
      i := i + 1;
    }
    forall w | w in f
      ensures (forall v :: v in frontier ==> InBounds(m.size, v)) ==> InBounds(m.size, w)
    {
      if w !in frontier {
        FrontierWallInBounds(b, p, w);
      }
    }
  }

  /** Two orthogonal neighbours of p in the same direction are the same cell. */
  lemma SameRank(p: Pos, v: Pos, w: Pos)
    requires Adjacent(p, v) && Adjacent(p, w) && DirectionRank(p, v) == DirectionRank(p, w)
    ensures v == w
  {
  }

  // ---------------------------------------------------------------------
  // One iteration of the frontier loop

  /** The frontier list after splice(randomIndex, 1). */
  function Spliced(s: seq<Pos>, k: int): (r: seq<Pos>)
    requires 0 <= k < |s|
    ensures |r| == |s| - 1
    ensures forall i :: 0 <= i < |r| ==> r[i] == (if i < k then s[i] else s[i + 1])
  {
    s[..k] + s[k + 1..]
  }

  lemma SplicedMembers(s: seq<Pos>, k: int)
    requires 0 <= k < |s|
    ensures forall x :: x in Spliced(s, k) ==> x in s
    ensures NoDuplicates(s) ==> NoDuplicates(Spliced(s, k)) && s[k] !in Spliced(s, k)
  {
    var r := Spliced(s, k);
    forall x | x in r
      ensures x in s
    {
      var i :| 0 <= i < |r| && r[i] == x;
      if i < k {
        assert s[i] == x;
      } else {
        assert s[i + 1] == x;
      }
    }
    if NoDuplicates(s) {
      forall i | 0 <= i < |r|
        ensures r[i] != s[k]
      {
        if i >= k {
          assert r[i] == s[i + 1];
        }
      }
    }
  }

  /** With exactly one passage neighbour q, the cell across w from q, when in bounds, is a wall. */
  lemma OppositeIsWall(b: Board, w: Pos)
    requires Initialized(b) && |PassageNeighbors(b, w)| == 1
    ensures var q := PassageNeighbors(b, w)[0];
      Adjacent(w, q) && Beyond(q, w) != w &&
      (InBounds(b.size, Beyond(q, w)) ==> At(b, Beyond(q, w)).isWall)
  {
    var ps := PassageNeighbors(b, w);
    var q := ps[0];
    assert q in ps;
    var o := Beyond(q, w);
    if InBounds(b.size, o) {
      assert ps == [q] && o != q;
      assert Adjacent(w, o) && o !in ps;
    }
  }

  /**
   * The branch of the loop taken when `wall` has the single passage
   * neighbour `passage`: open the wall, then the cell across it, when in
   * bounds, and list that cell's frontier walls.
   */
  method CarveAcross(m: Maze, wall: Pos, passage: Pos, f0: seq<Pos>) returns (f: seq<Pos>)
    requires m.Ready() && InBounds(m.size, wall)
    modifies m.grid
    ensures m.Ready() && m.size == old(m.size)
    ensures var o := Beyond(passage, wall);
      !InBounds(m.size, o) ==> m.Model() == WithWall(old(m.Model()), wall, false) && f == f0
    ensures var o := Beyond(passage, wall);
      InBounds(m.size, o) ==>
        m.Model() == WithWall(WithWall(old(m.Model()), wall, false), o, false) &&
        |f0| <= |f| && f[..|f0|] == f0 &&
        (forall x :: x in f <==> x in f0 || FrontierWall(m.Model(), o, x)) &&
        (NoDuplicates(f0) ==> NoDuplicates(f)) &&
        ((forall x :: x in f0 ==> InBounds(m.size, x)) ==> forall x :: x in f ==> InBounds(m.size, x))
  {
    f := f0;
    m.SetWall(wall.row, wall.col, false);
    var dx, dy := wall.row - passage.row, wall.col - passage.col;
    var newRow, newCol := wall.row + dx, wall.col + dy;
    assert Pos(newRow, newCol) == Beyond(passage, wall);
    if 0 <= newRow < m.size && 0 <= newCol < m.size {
      m.SetWall(newRow, newCol, false);
      f := AddFrontierWalls(m, newRow, newCol, f);
    }
  }

  /**
   * One turn of the while loop: takes frontier[k] off the list.  The maze
   * changes only when that wall has exactly one passage neighbour; then the
   * wall is opened, and when the cell across it from the passage is in
   * bounds that cell (a wall until then) is opened too and its frontier
   * walls are appended.  Either the number of wall cells drops or the list
   * gets shorter.
   */
  method PrimStep(m: Maze, frontier: seq<Pos>, k: int) returns (f: seq<Pos>)
    requires m.Ready() && 0 <= k < |frontier| && InBounds(m.size, frontier[k])
    modifies m.grid
    ensures m.Ready() && m.size == old(m.size)
    ensures |Spliced(frontier, k)| <= |f| && f[..|frontier| - 1] == Spliced(frontier, k)
    ensures var w := frontier[k]; var ps := PassageNeighbors(old(m.Model()), w);
      |ps| != 1 ==> m.Model() == old(m.Model()) && f == Spliced(frontier, k)
    ensures var w := frontier[k]; var ps := PassageNeighbors(old(m.Model()), w);
      |ps| == 1 && !InBounds(m.size, Beyond(ps[0], w)) ==>
        m.Model() == WithWall(old(m.Model()), w, false) && f == Spliced(frontier, k)
    ensures var w := frontier[k]; var ps := PassageNeighbors(old(m.Model()), w);
      |ps| == 1 && InBounds(m.size, Beyond(ps[0], w)) ==>
        var o := Beyond(ps[0], w);
        At(old(m.Model()), o).isWall &&
        m.Model() == WithWall(WithWall(old(m.Model()), w, false), o, false) &&
        forall x :: x in f <==> x in Spliced(frontier, k) || FrontierWall(m.Model(), o, x)
    ensures Opens(old(m.Model()), m.Model(), AllCells(m.size))
    ensures |WallCells(m.Model())| < |WallCells(old(m.Model()))| ||
            (|WallCells(m.Model())| == |WallCells(old(m.Model()))| && |f| < |frontier|)
    ensures (forall w :: w in frontier ==> InBounds(m.size, w)) ==> forall w :: w in f ==> InBounds(m.size, w)
    ensures NoDuplicates(frontier) ==> NoDuplicates(f)
  {
    ghost var b := m.Model();
    var wall := frontier[k];
    f := frontier[..k] + frontier[k + 1..];
    assert f == Spliced(frontier, k);
    SplicedMembers(frontier, k);
    var neighbors := GetPassageNeighbors(m, wall.row, wall.col);
    if |neighbors| == 1 {
      OppositeIsWall(b, wall);
      var passage := neighbors[0];
      ghost var o := Beyond(passage, wall);
      f := CarveAcross(m, wall, passage, f);
      if InBounds(m.size, o) {
        OpenTwo(b, wall, o);
      } else {
        OpenOne(b, wall);
      }
    } else {
      OpensRefl(b, AllCells(m.size));
    }
  }

  // ---------------------------------------------------------------------
  // generateMazeWithPrim

  /**
   * generateMazeWithPrim, with the starting coordinates drawn from the odd
   * values below size (StartCoordinate).  Between the fill and the widening
   * the frontier loop only opens walls and leaves the starting cell open;
   * the widening then opens at most the start and end cells and their
   * orthogonal neighbours, after which both are open.
   */
  method GenerateMazeWithPrim(m: Maze) returns (ghost first: Pos, ghost carved: Board)
    requires m.Ready() && m.size >= 2
    modifies m.grid
    ensures m.Ready() && m.size == old(m.size)
    ensures OddCell(m.size, first)
    ensures Opens(Filled(old(m.Model())), carved, AllCells(m.size)) && !At(carved, first).isWall
    ensures Opens(carved, m.Model(), Widened(carved)) && !At(m.Model(), first).isWall
    ensures m.startCell.Some? ==> !At(m.Model(), m.startCell.value).isWall
    ensures m.endCell.Some? ==> !At(m.Model(), m.endCell.value).isWall
  {
    var n := m.size;
    FillWalls(m);
    ghost var b1 := m.Model();
    var u: real :| 0.0 <= u < 1.0;
    var v: real :| 0.0 <= v < 1.0;
    var startRow, startCol := StartCoordinate(n, u), StartCoordinate(n, v);
    first := Pos(startRow, startCol);
    m.SetWall(startRow, startCol, false);
    InAllCells(n, first);
    OpensWithWall(b1, first);
    OpensWider(b1, m.Model(), {first}, AllCells(n));
    var frontier := AddFrontierWalls(m, startRow, startCol, []);
    while |frontier| > 0
      invariant m.Ready() && m.size == n
      invariant forall w :: w in frontier ==> InBounds(n, w)
      invariant NoDuplicates(frontier)
      invariant Opens(b1, m.Model(), AllCells(n)) && !At(m.Model(), first).isWall
      decreases |WallCells(m.Model())|, |frontier|
    {
      var randomIndex :| 0 <= randomIndex < |frontier|;
      ghost var before := m.Model();
      assert frontier[randomIndex] in frontier;
      frontier := PrimStep(m, frontier, randomIndex);
      OpensTrans(b1, before, m.Model(), AllCells(n), AllCells(n));
      assert AllCells(n) + AllCells(n) == AllCells(n);
      OpensKeepsOpen(before, m.Model(), AllCells(n));
    }
    carved := m.Model();
    WidenEnds(m);
    OpensKeepsOpen(carved, m.Model(), Widened(carved));
  }
}

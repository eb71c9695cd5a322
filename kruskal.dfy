/**
 * generateMazeWithKruskal of algorithms/generation/kruskal.js: fill, open
 * every odd cell while listing the candidate walls between odd cells two
 * apart, shuffle them, then open a wall whenever its two cells are in
 * different sets of the union-find structure, and finally widen around the
 * start and end cells.
 */
module Kruskal {
  import opened Geometry
  import opened MazeSpec
  import opened MazeGrid
  import opened Carving
  import opened Generators
  import opened UnionFind
  import opened Shuffle

  /** A candidate {from, to, wall} of the edge list. */
  datatype Edge = Edge(from: Pos, to: Pos, wall: Pos)

  /** The edges the listing loop pushes: to the odd cell two to the right or two below, through their midpoint. */
  predicate Candidate(n: int, e: Edge) {
    OddCell(n, e.from) && InBounds(n, e.to) &&
    ((e.to == Pos(e.from.row, e.from.col + 2) && e.wall == Pos(e.from.row, e.from.col + 1)) ||
     (e.to == Pos(e.from.row + 2, e.from.col) && e.wall == Pos(e.from.row + 1, e.from.col)))
  }

  /** Both ends of a candidate are odd cells, and its wall is adjacent to both and in bounds. */
  lemma CandidateShape(n: int, e: Edge)
    requires Candidate(n, e)
    ensures OddCell(n, e.to) && InBounds(n, e.wall) && !OddCell(n, e.wall)
    ensures Adjacent(e.from, e.wall) && Adjacent(e.wall, e.to)
    ensures Manhattan(e.from, e.to) == 2
  {
  }

  // ---------------------------------------------------------------------
  // The set index of a cell

  /**
   * The set index as written, (row * size + col) / 2 in floating point.
   */
  function WrittenIndex(n: int, p: Pos): real {
    (p.row * n + p.col) as real / 2.0
  }

  /**
   * The written index is fractional for the cell (1,1) of a 4 x 4 maze, so
   * find never meets it in the parent array; in a 5 x 5 maze the cell
   * (3,3) gets index 9, one past the 9 entries the constructor allocates.
   */
  lemma WrittenIndexMisses()
    ensures WrittenIndex(4, Pos(1, 1)) == 2.5
    ensures OddCell(5, Pos(3, 3)) && WrittenIndex(5, Pos(3, 3)) == 9.0 && CellCount(5) == 9
  {
  }

  /** The intended index: odd cell (row, col) is element (row / 2) * ceil(size / 2) + col / 2, one of those allocated. */
  function SetIndex(n: int, p: Pos): (k: int)
    ensures OddCell(n, p) ==> 0 <= k < CellCount(n)
  {
    var h, r, c := CeilHalf(n), p.row / 2, p.col / 2;
    if OddCell(n, p) then IndexBound(h, r, c); r * h + c else r * h + c
  }

  /** Row r, column c of an h x h table has an index below h * h. */
  lemma IndexBound(h: int, r: int, c: int)
    requires 0 <= r < h && 0 <= c < h
    ensures 0 <= r * h + c < h * h
  {
    RowsApart(r, h, h);
  }

  /** Both cells of a candidate, and so both of its set indices, lie among the elements. */
  ghost predicate SameSet(n: int, root: seq<int>, e: Edge) {
    OddCell(n, e.from) && OddCell(n, e.to) && |root| == CellCount(n) &&
    root[SetIndex(n, e.from)] == root[SetIndex(n, e.to)]
  }

  /** Different odd cells have different indices. */
  lemma SetIndexInjective(n: int, p: Pos, q: Pos)
    requires OddCell(n, p) && OddCell(n, q) && SetIndex(n, p) == SetIndex(n, q)
    ensures p == q
  {
    var h := CeilHalf(n);
    var r1, c1, r2, c2 := p.row / 2, p.col / 2, q.row / 2, q.col / 2;
    assert 0 <= c1 < h && 0 <= c2 < h;
    if r1 < r2 {
      RowsApart(r1, r2, h);
    } else if r2 < r1 {
      RowsApart(r2, r1, h);
    }
    assert r1 == r2 && c1 == c2;
    assert p.row == 2 * r1 + 1 && q.row == 2 * r2 + 1;
    assert p.col == 2 * c1 + 1 && q.col == 2 * c2 + 1;
  }

  /** A later row of the index starts after every entry of an earlier one. */
  lemma RowsApart(r1: int, r2: int, h: int)
    requires 0 <= r1 < r2 && 0 <= h
    ensures r1 * h + h <= r2 * h
  {
    var d := r2 - r1 - 1;
    assert r2 * h == r1 * h + h + d * h;
    assert d * h >= 0;
  }

  // ---------------------------------------------------------------------
  // Cells linked by carved edges

  /** Edge e joins a and b, in one direction or the other. */
  predicate Joins(e: Edge, a: Pos, b: Pos) {
    (e.from == a && e.to == b) || (e.from == b && e.to == a)
  }

  /** Some edge of es joins a and b. */
  ghost predicate Step(es: seq<Edge>, a: Pos, b: Pos) {
    exists e :: e in es && Joins(e, a, b)
  }

  /** cells is a walk along edges of es: each cell is joined to the next by one of them. */
  ghost predicate Chained(es: seq<Edge>, cells: seq<Pos>) {
    |cells| > 0 && forall k :: 0 <= k < |cells| - 1 ==> Step(es, cells[k], cells[k + 1])
  }

  /** p and q are linked by the edges es: a walk along them leads from p to q. */
  ghost predicate Linked(es: seq<Edge>, p: Pos, q: Pos) {
    exists cells :: Chained(es, cells) && cells[0] == p && cells[|cells| - 1] == q
  }

  lemma LinkedRefl(es: seq<Edge>, p: Pos)
    ensures Linked(es, p, p)
  {
    assert Chained(es, [p]);
  }

  /** An edge of es links its two cells, both ways. */
  lemma LinkedEdge(es: seq<Edge>, e: Edge)
    requires e in es
    ensures Linked(es, e.from, e.to) && Linked(es, e.to, e.from)
  {
    assert Step(es, e.from, e.to) && Step(es, e.to, e.from);
    assert Chained(es, [e.from, e.to]) && Chained(es, [e.to, e.from]);
  }

  lemma LinkedSym(es: seq<Edge>, p: Pos, q: Pos)
    requires Linked(es, p, q)
    ensures Linked(es, q, p)
  {
    var cells :| Chained(es, cells) && cells[0] == p && cells[|cells| - 1] == q;
    var rev := seq(|cells|, i requires 0 <= i < |cells| => cells[|cells| - 1 - i]);
    forall k | 0 <= k < |rev| - 1 ensures Step(es, rev[k], rev[k + 1]) {
      var j := |cells| - 2 - k;
      assert Step(es, cells[j], cells[j + 1]);
      var e :| e in es && Joins(e, cells[j], cells[j + 1]);
      assert Joins(e, rev[k], rev[k + 1]);
    }
    assert Chained(es, rev);
  }

  lemma LinkedTrans(es: seq<Edge>, p: Pos, q: Pos, r: Pos)
    requires Linked(es, p, q) && Linked(es, q, r)
    ensures Linked(es, p, r)
  {
    var c1 :| Chained(es, c1) && c1[0] == p && c1[|c1| - 1] == q;
    var c2 :| Chained(es, c2) && c2[0] == q && c2[|c2| - 1] == r;
    var cs := c1 + c2[1..];
    forall k | 0 <= k < |cs| - 1 ensures Step(es, cs[k], cs[k + 1]) {
      if k < |c1| - 1 {
        assert cs[k] == c1[k] && cs[k + 1] == c1[k + 1];
      } else {
        var j := k - |c1| + 1;
        assert cs[k] == c2[j] && cs[k + 1] == c2[j + 1];
      }
    }
    assert Chained(es, cs);
  }

  /** Without edges a cell is linked to itself only. */
  lemma LinkedNone(p: Pos, q: Pos)
    requires Linked([], p, q)
    ensures p == q
  {
    var cells :| Chained([], cells) && cells[0] == p && cells[|cells| - 1] == q;
    assert |cells| > 1 ==> Step([], cells[0], cells[1]);
  }

  /** More edges link at least the same cells. */
  lemma LinkedMore(es: seq<Edge>, e: Edge, p: Pos, q: Pos)
    requires Linked(es, p, q)
    ensures Linked(es + [e], p, q)
  {
    var cells :| Chained(es, cells) && cells[0] == p && cells[|cells| - 1] == q;
    forall k | 0 <= k < |cells| - 1 ensures Step(es + [e], cells[k], cells[k + 1]) {
      assert Step(es, cells[k], cells[k + 1]);
      var d :| d in es && Joins(d, cells[k], cells[k + 1]);
      assert d in es + [e];
    }
    assert Chained(es + [e], cells);
  }

  /**
   * What one more edge e from a to b links: what es linked, and any two
   * cells each linked by es to a or to b.
   */
  ghost predicate LinkedVia(es: seq<Edge>, e: Edge, p: Pos, q: Pos) {
    Linked(es, p, q) ||
    ((Linked(es, p, e.from) || Linked(es, p, e.to)) && (Linked(es, q, e.from) || Linked(es, q, e.to)))
  }

  /** Adding the edge e links exactly the pairs LinkedVia describes. */
  lemma LinkedSnoc(es: seq<Edge>, e: Edge, p: Pos, q: Pos)
    ensures Linked(es + [e], p, q) <==> LinkedVia(es, e, p, q)
  {
    if Linked(es + [e], p, q) {
      var cells :| Chained(es + [e], cells) && cells[0] == p && cells[|cells| - 1] == q;
      ChainedVia(es, e, cells);
    }
    if LinkedVia(es, e, p, q) {
      var es' := es + [e];
      assert e in es';
      LinkedEdge(es', e);
      if Linked(es, p, q) {
        LinkedMore(es, e, p, q);
      } else {
        var a := if Linked(es, p, e.from) then e.from else e.to;
        var c := if Linked(es, q, e.from) then e.from else e.to;
        LinkedMore(es, e, p, a);
        LinkedMore(es, e, q, c);
        LinkedSym(es', q, c);
        LinkedRefl(es', a);
        assert Linked(es', a, c);
        LinkedTrans(es', p, a, c);
        LinkedTrans(es', p, c, q);
      }
    }
  }

  /** A walk along es + [e] from cells[0] ends at a cell LinkedVia from it, by induction on its length. */
  lemma {:induction false} ChainedVia(es: seq<Edge>, e: Edge, cells: seq<Pos>)
    requires Chained(es + [e], cells)
    ensures LinkedVia(es, e, cells[0], cells[|cells| - 1])
    decreases |cells|
  {
    var p, q := cells[0], cells[|cells| - 1];
    if |cells| == 1 {
      LinkedRefl(es, p);
      return;
    }
    var pre := cells[..|cells| - 1];
    var r := pre[|pre| - 1];
    forall k | 0 <= k < |pre| - 1 ensures Step(es + [e], pre[k], pre[k + 1]) {
      assert pre[k] == cells[k] && pre[k + 1] == cells[k + 1];
    }
    ChainedVia(es, e, pre);
    assert LinkedVia(es, e, p, r);
    assert Step(es + [e], r, q);
    var d :| d in es + [e] && Joins(d, r, q);
    if d in es {
      LinkedEdge(es, d);
      assert Linked(es, r, q);
      ViaExtends(es, e, p, r, q);
    } else {
      assert d == e;
      if Linked(es, p, r) {
        LinkedRefl(es, q);
      } else {
        LinkedRefl(es, q);
      }
    }
  }

  /** LinkedVia from p survives one more step along es. */
  lemma ViaExtends(es: seq<Edge>, e: Edge, p: Pos, r: Pos, q: Pos)
    requires LinkedVia(es, e, p, r) && Linked(es, r, q)
    ensures LinkedVia(es, e, p, q)
  {
    LinkedSym(es, r, q);
    if Linked(es, p, r) {
      LinkedTrans(es, p, r, q);
    } else if Linked(es, r, e.from) {
      LinkedTrans(es, q, r, e.from);
    } else {
      LinkedTrans(es, q, r, e.to);
    }
  }

  /**
   * Every carved edge joins two cells that the edges carved before it did
   * not link: the carved edges hold no cycle.
   */
  ghost predicate Forest(carved: seq<Edge>) {
    forall i :: 0 <= i < |carved| ==> !Linked(carved[..i], carved[i].from, carved[i].to)
  }

  lemma ForestSnoc(carved: seq<Edge>, e: Edge)
    requires Forest(carved) && !Linked(carved, e.from, e.to)
    ensures Forest(carved + [e])
  {
    var c' := carved + [e];
    forall i | 0 <= i < |c'| ensures !Linked(c'[..i], c'[i].from, c'[i].to) {
      assert c'[..i] == if i < |carved| then carved[..i] else carved;
    }
  }

  /**
   * The union-find sets match the carved edges: two odd cells share a set
   * exactly when the carved edges link them.
   */
  ghost predicate Partitioned(n: int, root: seq<int>, carved: seq<Edge>) {
    |root| == CellCount(n) &&
    forall p, q :: OddCell(n, p) && OddCell(n, q) ==> (root[SetIndex(n, p)] == root[SetIndex(n, q)] <==> Linked(carved, p, q))
  }

  /** Before any union every odd cell is alone in its set, and no edge is carved. */
  lemma IdentityPartitioned(n: int)
    ensures Partitioned(n, Identity(CellCount(n)), [])
  {
    var root := Identity(CellCount(n));
    forall p, q | OddCell(n, p) && OddCell(n, q)
      ensures root[SetIndex(n, p)] == root[SetIndex(n, q)] <==> Linked([], p, q)
    {
      if root[SetIndex(n, p)] == root[SetIndex(n, q)] {
        SetIndexInjective(n, p, q);
        LinkedRefl([], p);
      }
      if Linked([], p, q) {
        LinkedNone(p, q);
      }
    }
  }

  /**
   * One turn of the union loop on the candidate e: a union that merges two
   * sets carves e, whose cells the carved edges did not link yet; a union
   * that finds one set carves nothing.  Either way the sets still match the
   * carved edges.
   */
  lemma JoinStep(n: int, r0: seq<int>, r1: seq<int>, carved: seq<Edge>, e: Edge)
    requires Candidate(n, e) && Partitioned(n, r0, carved)
    requires Merged(r0, r1, SetIndex(n, e.from), SetIndex(n, e.to))
    ensures var joined := r0[SetIndex(n, e.from)] != r0[SetIndex(n, e.to)];
      (joined <==> !Linked(carved, e.from, e.to)) &&
      Partitioned(n, r1, if joined then carved + [e] else carved)
  {
    CandidateShape(n, e);
    var x, y := SetIndex(n, e.from), SetIndex(n, e.to);
    var joined := r0[x] != r0[y];
    var c' := if joined then carved + [e] else carved;
    forall p, q | OddCell(n, p) && OddCell(n, q)
      ensures r1[SetIndex(n, p)] == r1[SetIndex(n, q)] <==> Linked(c', p, q)
    {
      var i, j := SetIndex(n, p), SetIndex(n, q);
      assert r1[i] == r1[j] <==> r0[i] == r0[j] || ((r0[i] == r0[x] || r0[i] == r0[y]) && (r0[j] == r0[x] || r0[j] == r0[y]));
      if joined {
        LinkedSnoc(carved, e, p, q);
        assert r0[i] == r0[x] <==> Linked(carved, p, e.from);
        assert r0[i] == r0[y] <==> Linked(carved, p, e.to);
        assert r0[j] == r0[x] <==> Linked(carved, q, e.from);
        assert r0[j] == r0[y] <==> Linked(carved, q, e.to);
      }
    }
  }

  /** The sets match the carved edges, and those hold no cycle. */
  ghost predicate Tracked(n: int, root: seq<int>, carved: seq<Edge>) {
    var holds := Partitioned(n, root, carved) && Forest(carved);
    holds
  }

  /**
   * One turn of the union loop on e, from sets r0 and carved edges c0 to r1
   * and c1: the sets of e's two cells are merged, and e is carved exactly
   * when they were different sets.
   */
  ghost predicate UnionTurn(n: int, r0: seq<int>, r1: seq<int>, c0: seq<Edge>, c1: seq<Edge>, e: Edge) {
    var x, y := SetIndex(n, e.from), SetIndex(n, e.to);
    var holds := 0 <= x < |r0| && 0 <= y < |r0| && Merged(r0, r1, x, y) && c1 == if r0[x] != r0[y] then c0 + [e] else c0;
    holds
  }

  /** One turn of the union loop keeps Tracked: the carved edge, if any, closes no cycle. */
  lemma TrackedStep(n: int, r0: seq<int>, r1: seq<int>, c0: seq<Edge>, c1: seq<Edge>, e: Edge)
    requires Candidate(n, e) && Tracked(n, r0, c0)
    requires UnionTurn(n, r0, r1, c0, c1, e)
    ensures Tracked(n, r1, c1)
  {
    JoinStep(n, r0, r1, c0, e);
    if c1 != c0 {
      ForestSnoc(c0, e);
    }
  }

  /** Every odd cell is linked to the corner (1, 1) once every candidate's two cells are linked. */
  lemma {:induction false} LinkedToCorner(n: int, es: seq<Edge>, p: Pos)
    requires forall e :: Candidate(n, e) ==> Linked(es, e.from, e.to)
    requires OddCell(n, p)
    ensures Linked(es, Pos(1, 1), p)
    decreases p.row + p.col
  {
    if p == Pos(1, 1) {
      LinkedRefl(es, p);
    } else if p.col > 1 {
      var q := Pos(p.row, p.col - 2);
      assert Candidate(n, Edge(q, p, Pos(p.row, p.col - 1)));
      LinkedToCorner(n, es, q);
      LinkedTrans(es, Pos(1, 1), q, p);
    } else {
      var q := Pos(p.row - 2, p.col);
      assert Candidate(n, Edge(q, p, Pos(p.row - 1, p.col)));
      LinkedToCorner(n, es, q);
      LinkedTrans(es, Pos(1, 1), q, p);
    }
  }

  /** Candidates all linked means every two odd cells are linked: the carved edges span the odd cells. */
  lemma OddCellsLinked(n: int, es: seq<Edge>)
    requires forall e :: Candidate(n, e) ==> Linked(es, e.from, e.to)
    ensures forall p, q :: OddCell(n, p) && OddCell(n, q) ==> Linked(es, p, q)
  {
    forall p, q | OddCell(n, p) && OddCell(n, q) ensures Linked(es, p, q) {
      LinkedToCorner(n, es, p);
      LinkedToCorner(n, es, q);
      LinkedSym(es, Pos(1, 1), p);
      LinkedTrans(es, p, Pos(1, 1), q);
    }
  }

  // ---------------------------------------------------------------------
  // Opening the odd cells and listing the candidates

  /** The walls of a list of edges. */
  function EdgeWalls(es: seq<Edge>): (ws: seq<Pos>)
    ensures |ws| == |es| && forall i :: 0 <= i < |es| ==> ws[i] == es[i].wall
  {
    seq(|es|, i requires 0 <= i < |es| => es[i].wall)
  }

  /** odd lists in-bounds cells, and exactly the odd cells before (row, col). */
  ghost predicate ListsOdd(n: int, odd: seq<Pos>, row: int, col: int) {
    (forall i :: 0 <= i < |odd| ==> OddCell(n, odd[i])) &&
    (forall q :: q in odd <==> OddCell(n, q) && Before(q, Pos(row, col)))
  }

  /** edges holds exactly the candidates leaving a cell before (row, col). */
  ghost predicate ListsCandidates(n: int, edges: seq<Edge>, row: int, col: int) {
    forall e :: e in edges <==> Candidate(n, e) && Before(e.from, Pos(row, col))
  }

  /** The edges the loop pushes at odd cell p: right when p's column is not among the last two, below likewise. */
  function CellEdges(n: int, p: Pos): (es: seq<Edge>)
    requires OddCell(n, p)
    ensures forall e :: e in es <==> Candidate(n, e) && e.from == p
  {
    (if p.col + 2 < n then [Edge(p, Pos(p.row, p.col + 2), Pos(p.row, p.col + 1))] else []) +
    (if p.row + 2 < n then [Edge(p, Pos(p.row + 2, p.col), Pos(p.row + 1, p.col))] else [])
  }

  lemma ListsOddStep(n: int, odd: seq<Pos>, row: int, col: int)
    requires ListsOdd(n, odd, row, col) && OddCell(n, Pos(row, col))
    ensures ListsOdd(n, odd + [Pos(row, col)], row, col + 2)
  {
  }

  lemma ListsCandidatesStep(n: int, edges: seq<Edge>, row: int, col: int)
    requires ListsCandidates(n, edges, row, col) && OddCell(n, Pos(row, col))
    ensures ListsCandidates(n, edges + CellEdges(n, Pos(row, col)), row, col + 2)
  {
    var es := edges + CellEdges(n, Pos(row, col));
    forall e
      ensures e in es <==> Candidate(n, e) && Before(e.from, Pos(row, col + 2))
    {
      if Candidate(n, e) && Before(e.from, Pos(row, col + 2)) && !Before(e.from, Pos(row, col)) {
        assert e.from == Pos(row, col);
      }
    }
  }

  /** At the end of a row (col past the last column) the row is complete. */
  lemma ListsRowDone(n: int, odd: seq<Pos>, edges: seq<Edge>, row: int, col: int)
    requires ListsOdd(n, odd, row, col) && ListsCandidates(n, edges, row, col)
    requires row % 2 == 1 && n <= col
    ensures ListsOdd(n, odd, row + 2, 0) && ListsCandidates(n, edges, row + 2, 0)
  {
    forall e | Candidate(n, e) && Before(e.from, Pos(row + 2, 0))
      ensures Before(e.from, Pos(row, col))
    {
    }
  }

  /** The state of the odd-cell loops at (row, col): c is b with the listed odd cells opened. */
  ghost predicate Listed(n: int, b: Board, c: Board, odd: seq<Pos>, edges: seq<Edge>, row: int, col: int) {
    Initialized(b) && b.size == n &&
    ListsOdd(n, odd, row, col) && ListsCandidates(n, edges, row, col) &&
    c == OpenEach(b, odd)
  }

  /** A loop counter stepping through the odd values, one past the last below n at the end. */
  predicate OddCounter(k: int, n: int) {
    1 <= k <= n + 1 && k % 2 == 1
  }

  lemma OddCounterStep(k: int, n: int)
    requires OddCounter(k, n) && k < n
    ensures OddCounter(k + 2, n)
  {
  }

  /**
   * The odd-cell loop: opens every odd cell with setWall(row, col, false)
   * and lists exactly the candidate edges.
   */
  method CarveOddCells(m: Maze) returns (edges: seq<Edge>, ghost odd: seq<Pos>)
    requires m.Ready()
    modifies m.grid
    ensures m.Ready() && m.size == old(m.size)
    ensures forall i :: 0 <= i < |odd| ==> OddCell(m.size, odd[i])
    ensures Initialized(old(m.Model()))
    ensures forall i :: 0 <= i < |odd| ==> InBounds(old(m.Model()).size, odd[i])
    ensures m.Model() == OpenEach(old(m.Model()), odd)
    ensures forall q :: q in odd <==> OddCell(m.size, q)
    ensures forall e :: e in edges <==> Candidate(m.size, e)
  {
    ghost var b := m.Model();
    var n := m.size;
    edges, odd := [], [];
    var row := 1;
    while row < n
      invariant OddCounter(row, n) && m.Ready() && m.size == n
      invariant Listed(n, b, m.Model(), odd, edges, row, 0)
    {
      edges, odd := CarveRow(m, row, b, edges, odd);
      OddCounterStep(row, n);
      row := row + 2;
    }
    FinishedLists(n, odd, edges, row);
  }

  lemma FinishedLists(n: int, odd: seq<Pos>, edges: seq<Edge>, row: int)
    requires ListsOdd(n, odd, row, 0) && ListsCandidates(n, edges, row, 0) && n <= row
    ensures forall q :: q in odd <==> OddCell(n, q)
    ensures forall e :: e in edges <==> Candidate(n, e)
  {
  }

  /** No odd cell lies in column 0, so a row starts the same at column 0 and column 1. */
  lemma RowStart(n: int, b: Board, c: Board, odd: seq<Pos>, edges: seq<Edge>, row: int)
    requires Listed(n, b, c, odd, edges, row, 0)
    ensures Listed(n, b, c, odd, edges, row, 1)
  {
    forall q | q in odd
      ensures Before(q, Pos(row, 1))
    {
    }
    forall e | e in edges
      ensures Before(e.from, Pos(row, 1))
    {
    }
  }

  lemma RowDone(n: int, b: Board, c: Board, odd: seq<Pos>, edges: seq<Edge>, row: int, col: int)
    requires Listed(n, b, c, odd, edges, row, col) && row % 2 == 1 && n <= col
    ensures Listed(n, b, c, odd, edges, row + 2, 0)
  {
    ListsRowDone(n, odd, edges, row, col);
  }

  /** One row of the odd-cell loop. */
  method CarveRow(m: Maze, row: int, ghost b: Board, edges0: seq<Edge>, ghost odd0: seq<Pos>)
    returns (edges: seq<Edge>, ghost odd: seq<Pos>)
    requires m.Ready() && OddCounter(row, m.size) && row < m.size
    requires Listed(m.size, b, m.Model(), odd0, edges0, row, 0)
    modifies m.grid
    ensures m.Ready() && m.size == old(m.size)
    ensures Listed(m.size, b, m.Model(), odd, edges, row + 2, 0)
  {
    var n := m.size;
    edges, odd := edges0, odd0;
    var col := 1;
    RowStart(n, b, m.Model(), odd, edges, row);
    while col < n
      invariant OddCounter(col, n) && m.Ready() && m.size == n
      invariant Listed(n, b, m.Model(), odd, edges, row, col)
    {
      edges, odd := CarveCell(m, row, col, b, edges, odd);
      OddCounterStep(col, n);
      col := col + 2;
    }
    RowDone(n, b, m.Model(), odd, edges, row, col);
  }

  /** One odd cell: setWall(row, col, false), then the pushes of its two edges. */
  method CarveCell(m: Maze, row: int, col: int, ghost b: Board, edges0: seq<Edge>, ghost odd0: seq<Pos>)
    returns (edges: seq<Edge>, ghost odd: seq<Pos>)
    requires m.Ready() && OddCell(m.size, Pos(row, col))
    requires Listed(m.size, b, m.Model(), odd0, edges0, row, col)
    modifies m.grid
    ensures m.Ready() && m.size == old(m.size)
    ensures Listed(m.size, b, m.Model(), odd, edges, row, col + 2)
  {
    var n := m.size;
    ghost var p := Pos(row, col);
    m.SetWall(row, col, false);
    OpenEachSnoc(b, odd0, p);
    ListsOddStep(n, odd0, row, col);
    ListsCandidatesStep(n, edges0, row, col);
    odd := odd0 + [p];
    edges := PushEdges(n, row, col, edges0);
  }

  /** The two pushes at odd cell (row, col): the edge to the right, then the edge below, each when in range. */
  method PushEdges(n: int, row: int, col: int, edges0: seq<Edge>) returns (edges: seq<Edge>)
    requires OddCell(n, Pos(row, col))
    ensures edges == edges0 + CellEdges(n, Pos(row, col))
  {
    edges := edges0;
    if col + 2 < n {
      edges := edges + [Edge(Pos(row, col), Pos(row, col + 2), Pos(row, col + 1))];
    }
    if row + 2 < n {
      edges := edges + [Edge(Pos(row, col), Pos(row + 2, col), Pos(row + 1, col))];
    }
  }

  // ---------------------------------------------------------------------
  // The union loop

  /** The board after setWall(wall, false) on the wall of every edge of es in turn. */
  function OpenWalls(b: Board, es: seq<Edge>): (r: Board)
    requires Initialized(b) && forall k :: 0 <= k < |es| ==> Candidate(b.size, es[k])
    ensures Initialized(r) && r.size == b.size && r.start == b.start && r.end == b.end
  {
    WallsInBounds(b.size, es);
    OpenEach(b, EdgeWalls(es))
  }

  lemma WallsInBounds(n: int, es: seq<Edge>)
    requires forall k :: 0 <= k < |es| ==> Candidate(n, es[k])
    ensures forall k :: 0 <= k < |es| ==> InBounds(n, EdgeWalls(es)[k])
  {
    forall k | 0 <= k < |es|
      ensures InBounds(n, EdgeWalls(es)[k])
    {
      CandidateShape(n, es[k]);
    }
  }

  lemma OpenWallsSnoc(b: Board, es: seq<Edge>, e: Edge)
    requires Initialized(b) && forall k :: 0 <= k < |es| ==> Candidate(b.size, es[k])
    requires Candidate(b.size, e)
    ensures forall k :: 0 <= k < |es + [e]| ==> Candidate(b.size, (es + [e])[k])
    ensures OpenWalls(b, es + [e]) == WithWall(OpenWalls(b, es), e.wall, false)
  {
    var es' := es + [e];
    forall k | 0 <= k < |es'|
      ensures Candidate(b.size, es'[k])
    {
      if k < |es| {
        assert es'[k] == es[k];
      }
    }
    CandidateShape(b.size, e);
    assert EdgeWalls(es') == EdgeWalls(es) + [e.wall];
    WallsInBounds(b.size, es);
    OpenEachSnoc(b, EdgeWalls(es), e.wall);
  }

  /**
   * The loop over the shuffled edges: a wall is opened exactly when find
   * gives its two cells different representatives, and then the two sets
   * are merged.  So the opened edges are the successful unions: each one
   * is a candidate, and their number is the number of sets lost.
   * Afterwards the two cells of every edge share a set.  Started from one
   * set per cell, the sets end as the cells the carved edges link, and
   * each carved edge joined cells no earlier one had linked.
   */
  method JoinEdges(m: Maze, sets: DisjointSets, walls: seq<Edge>) returns (ghost carved: seq<Edge>)
    requires m.Ready() && sets.Valid() && sets.parent.Length == CellCount(m.size)
    requires forall i :: 0 <= i < |walls| ==> Candidate(m.size, walls[i])
    modifies m.grid, sets, sets.parent, sets.rank
    ensures m.Ready() && m.size == old(m.size)
    ensures sets.Valid() && sets.parent == old(sets.parent) && sets.rank == old(sets.rank)
    ensures forall i :: 0 <= i < |carved| ==> Candidate(m.size, carved[i]) && carved[i] in walls
    ensures Initialized(old(m.Model()))
    ensures m.Model() == OpenWalls(old(m.Model()), carved)
    ensures |Classes(sets.root)| + |carved| == |Classes(old(sets.root))|
    ensures forall i :: 0 <= i < |walls| ==> SameSet(m.size, sets.root, walls[i])
    ensures Partitioned(m.size, old(sets.root), []) ==> Tracked(m.size, sets.root, carved)
  {
    ghost var b := m.Model();
    ghost var classes0 := Classes(sets.root);
    ghost var fresh0 := Partitioned(m.size, sets.root, []);
    if fresh0 {
      assert Forest([]);
    }
    var n := m.size;
    carved := [];
    var i := 0;
    while i < |walls|
      invariant 0 <= i <= |walls| && m.Ready() && m.size == n && b.size == n && Initialized(b)
      invariant sets.Valid() && sets.parent == old(sets.parent) && sets.rank == old(sets.rank)
      invariant forall k :: 0 <= k < |carved| ==> Candidate(n, carved[k]) && carved[k] in walls
      invariant m.Model() == OpenWalls(b, carved)
      invariant |Classes(sets.root)| + |carved| == |classes0|
      invariant forall k :: 0 <= k < i ==> SameSet(n, sets.root, walls[k])
      invariant fresh0 ==> Tracked(n, sets.root, carved)
    {
      ghost var root0, carved0 := sets.root, carved;
      carved := JoinEdge(m, sets, walls[i], b, carved);
      JoinedPrefix(n, root0, sets.root, walls, i);
      if fresh0 {
        TrackedStep(n, root0, sets.root, carved0, carved, walls[i]);
      }
      i := i + 1;
    }
  }

  lemma JoinedPrefix(n: int, r0: seq<int>, r1: seq<int>, walls: seq<Edge>, i: int)
    requires 0 <= i < |walls| && Coarser(r0, r1) && SameSet(n, r1, walls[i])
    requires forall k :: 0 <= k < i ==> SameSet(n, r0, walls[k])
    ensures forall k :: 0 <= k < i + 1 ==> SameSet(n, r1, walls[k])
  {
    forall k | 0 <= k < i
      ensures SameSet(n, r1, walls[k])
    {
      CoarserJoined(n, r0, r1, walls[k]);
    }
  }

  lemma CoarserJoined(n: int, r0: seq<int>, r1: seq<int>, e: Edge)
    requires SameSet(n, r0, e) && Coarser(r0, r1)
    ensures SameSet(n, r1, e)
  {
  }

  /** One edge of the union loop. */
  method JoinEdge(m: Maze, sets: DisjointSets, e: Edge, ghost b: Board, ghost carved0: seq<Edge>)
    returns (ghost carved: seq<Edge>)
    requires m.Ready() && sets.Valid() && sets.parent.Length == CellCount(m.size) && Candidate(m.size, e)
    requires Initialized(b) && b.size == m.size
    requires forall k :: 0 <= k < |carved0| ==> Candidate(m.size, carved0[k])
    requires m.Model() == OpenWalls(b, carved0)
    modifies m.grid, sets, sets.parent, sets.rank
    ensures m.Ready() && m.size == old(m.size)
    ensures sets.Valid() && sets.parent == old(sets.parent) && sets.rank == old(sets.rank)
    ensures carved == carved0 || carved == carved0 + [e]
    ensures UnionTurn(m.size, old(sets.root), sets.root, carved0, carved, e)
    ensures forall k :: 0 <= k < |carved| ==> Candidate(m.size, carved[k])
    ensures m.Model() == OpenWalls(b, carved)
    ensures |Classes(sets.root)| + |carved| == |Classes(old(sets.root))| + |carved0|
    ensures SameSet(m.size, sets.root, e) && Coarser(old(sets.root), sets.root)
  {
    var n := m.size;
    CandidateShape(n, e);
    var fromIndex, toIndex := SetIndex(n, e.from), SetIndex(n, e.to);
    var joined := TryUnion(sets, fromIndex, toIndex);
    ghost var root1 := sets.root;
    carved := carved0;
    if joined {
      carved := OpenEdge(m, e, b, carved0);
    }
    assert sets.root == root1;
  }

  /** setWall(wall, false) on the wall of a joining edge, which joins the carved list. */
  method OpenEdge(m: Maze, e: Edge, ghost b: Board, ghost carved0: seq<Edge>) returns (ghost carved: seq<Edge>)
    requires m.Ready() && Candidate(m.size, e) && Initialized(b) && b.size == m.size
    requires forall k :: 0 <= k < |carved0| ==> Candidate(m.size, carved0[k])
    requires m.Model() == OpenWalls(b, carved0)
    modifies m.grid
    ensures m.Ready() && m.size == old(m.size) && carved == carved0 + [e]
    ensures forall k :: 0 <= k < |carved| ==> Candidate(m.size, carved[k])
    ensures m.Model() == OpenWalls(b, carved)
  {
    CandidateShape(m.size, e);
    m.SetWall(e.wall.row, e.wall.col, false);
    OpenWallsSnoc(b, carved0, e);
    carved := carved0 + [e];
  }

  /** The test of the loop body: union x and y when find tells them apart, which merges two sets into one. */
  method TryUnion(sets: DisjointSets, x: int, y: int) returns (joined: bool)
    requires sets.Valid() && 0 <= x < sets.parent.Length && 0 <= y < sets.parent.Length
    modifies sets, sets.parent, sets.rank
    ensures sets.Valid() && sets.parent == old(sets.parent) && sets.rank == old(sets.rank)
    ensures joined <==> old(sets.root[x]) != old(sets.root[y])
    ensures sets.root[x] == sets.root[y] && Coarser(old(sets.root), sets.root) && Merged(old(sets.root), sets.root, x, y)
    ensures |Classes(sets.root)| == |Classes(old(sets.root))| - (if joined then 1 else 0)
  {
    ghost var root0 := sets.root;
    MergedCases(root0, x, y);
    var rx := sets.Find(x);
    var ry := sets.Find(y);
    joined := rx != ry;
    if joined {
      sets.Union(x, y);
      RelabelClasses(root0, y, x);
      RelabelClasses(root0, x, y);
    } else {
      RelabelCoarser(root0, 0, 0);
    }
  }

  /**
   * generateMazeWithKruskal, with the set index corrected to SetIndex: after
   * the fill the generator only opens walls, at odd cells, at the walls of
   * the carved edges and around the start and end cells; every odd cell and
   * every carved wall ends open, and so do the start and end cells.  The
   * carved edges are candidates, one per successful union: their number is
   * the number of cells minus the number of sets left, and the two cells of
   * every candidate end in the same set.  No carved edge closes a cycle,
   * and the carved edges link every two odd cells: they form a spanning
   * tree of the odd cells.
   */
  method GenerateKruskal(m: Maze) returns (ghost carved: seq<Edge>, ghost root: seq<int>)
    requires m.Ready()
    modifies m.grid
    ensures m.Ready() && m.size == old(m.size)
    ensures Opens(Filled(old(m.Model())), m.Model(),
                  OddCells(m.size) + CarvedWalls(carved) + Widened(old(m.Model())))
    ensures forall q :: OddCell(m.size, q) ==> !At(m.Model(), q).isWall
    ensures forall e :: e in carved ==> Candidate(m.size, e) && InBounds(m.size, e.wall) && !At(m.Model(), e.wall).isWall
    ensures m.startCell.Some? ==> !At(m.Model(), m.startCell.value).isWall
    ensures m.endCell.Some? ==> !At(m.Model(), m.endCell.value).isWall
    ensures |root| == CellCount(m.size) && |carved| + |Classes(root)| == CellCount(m.size)
    ensures forall e :: Candidate(m.size, e) ==> SameSet(m.size, root, e)
    ensures Forest(carved) && forall p, q :: OddCell(m.size, p) && OddCell(m.size, q) ==> Linked(carved, p, q)
  {
    ghost var b0 := m.Model();
    FillWalls(m);
    ghost var b1 := m.Model();
    var edges, odd := CarveOddCells(m);
    ghost var b2 := m.Model();
    carved, root := JoinAll(m, edges);
    ghost var b3 := m.Model();
    WidenEnds(m);
    FilledRoles(b0);
    KruskalOpens(b1, b2, b3, m.Model(), odd, carved);
  }

  /**
   * The sets of the cell indices, the shuffled copy of the edge list and the
   * union loop over it.
   */
  method JoinAll(m: Maze, edges: seq<Edge>) returns (ghost carved: seq<Edge>, ghost root: seq<int>)
    requires m.Ready()
    requires forall e :: e in edges <==> Candidate(m.size, e)
    modifies m.grid
    ensures m.Ready() && m.size == old(m.size)
    ensures forall i :: 0 <= i < |carved| ==> Candidate(m.size, carved[i])
    ensures m.Model() == OpenWalls(old(m.Model()), carved)
    ensures |root| == CellCount(m.size) && |carved| + |Classes(root)| == CellCount(m.size)
    ensures forall e :: Candidate(m.size, e) ==> SameSet(m.size, root, e)
    ensures Tracked(m.size, root, carved)
    ensures forall p, q :: OddCell(m.size, p) && OddCell(m.size, q) ==> Linked(carved, p, q)
  {
    var n := m.size;
    ghost var b := m.Model();
    var walls := Shuffled(edges);
    CandidatesListed(n, walls);
    var sets := new DisjointSets(n);
    IdentityClasses(CellCount(n));
    IdentityPartitioned(n);
    ghost var classes0 := Classes(sets.root);
    assert m.Model() == b;
    carved := JoinEdges(m, sets, walls);
    root := sets.root;
    AllJoined(n, root, walls);
    CandidatesLinked(n, root, carved);
    OddCellsLinked(n, carved);
  }

  /** Sets that match the carved edges and join every candidate's cells: the carved edges link every candidate's cells. */
  lemma CandidatesLinked(n: int, root: seq<int>, carved: seq<Edge>)
    requires Partitioned(n, root, carved) && forall e :: Candidate(n, e) ==> SameSet(n, root, e)
    ensures forall e :: Candidate(n, e) ==> Linked(carved, e.from, e.to)
  {
    forall e | Candidate(n, e) ensures Linked(carved, e.from, e.to) {
      assert SameSet(n, root, e);
    }
  }

  /** shuffleArray on a fresh copy of the edge list: the same edges, each as often. */
  method Shuffled(edges: seq<Edge>) returns (walls: seq<Edge>)
    ensures multiset(walls) == multiset(edges)
    ensures forall e :: e in walls <==> e in edges
  {
    var a := new Edge[|edges|](i requires 0 <= i < |edges| => edges[i]);
    assert a[..] == edges;
    ShuffleArray(a);
    walls := a[..];
    forall e
      ensures e in walls <==> e in edges
    {
      assert e in walls <==> e in multiset(walls);
      assert e in edges <==> e in multiset(edges);
    }
  }

  lemma CandidatesListed(n: int, walls: seq<Edge>)
    requires forall e :: e in walls <==> Candidate(n, e)
    ensures forall i :: 0 <= i < |walls| ==> Candidate(n, walls[i])
  {
    forall i | 0 <= i < |walls|
      ensures Candidate(n, walls[i])
    {
      assert walls[i] in walls;
    }
  }

  lemma AllJoined(n: int, root: seq<int>, walls: seq<Edge>)
    requires forall i :: 0 <= i < |walls| ==> SameSet(n, root, walls[i])
    requires forall e :: e in walls <==> Candidate(n, e)
    ensures forall e :: Candidate(n, e) ==> SameSet(n, root, e)
  {
    forall e | Candidate(n, e)
      ensures SameSet(n, root, e)
    {
      assert e in walls;
      var k :| 0 <= k < |walls| && walls[k] == e;
    }
  }

  /** The chain of boards of GenerateKruskal, from the fill to the widening. */
  lemma KruskalOpens(b1: Board, b2: Board, b3: Board, b4: Board, odd: seq<Pos>, carved: seq<Edge>)
    requires Initialized(b1) && Roles(b1)
    requires forall i :: 0 <= i < |odd| ==> InBounds(b1.size, odd[i])
    requires forall q :: q in odd <==> OddCell(b1.size, q)
    requires b2 == OpenEach(b1, odd) && Initialized(b2) && b2.size == b1.size
    requires forall i :: 0 <= i < |carved| ==> Candidate(b2.size, carved[i])
    requires b3 == OpenWalls(b2, carved)
    requires Opens(b3, b4, Widened(b3))
    ensures Opens(b1, b4, OddCells(b1.size) + CarvedWalls(carved) + Widened(b1))
    ensures forall q :: OddCell(b1.size, q) ==> !At(b4, q).isWall
    ensures forall e :: e in carved ==> InBounds(b4.size, e.wall) && !At(b4, e.wall).isWall
  {
    var ws := EdgeWalls(carved);
    WallsInBounds(b1.size, carved);
    OpenEachOpens(b1, odd);
    OpenEachOpens(b2, ws);
    OddCellsListed(b1.size, odd);
    CarvedWallsListed(carved);
    OpensTrans(b1, b2, b3, OddCells(b1.size), CarvedWalls(carved));
    OpensTrans(b1, b3, b4, OddCells(b1.size) + CarvedWalls(carved), Widened(b3));
    OpensKeepsOpen(b2, b3, CarvedWalls(carved));
    OpensKeepsOpen(b3, b4, Widened(b3));
    forall e | e in carved
      ensures e.wall in ws && InBounds(b1.size, e.wall)
    {
      var i :| 0 <= i < |carved| && carved[i] == e;
      assert ws[i] == e.wall;
    }
  }

  ghost function CarvedWalls(carved: seq<Edge>): set<Pos> {
    set e | e in carved :: e.wall
  }

  lemma CarvedWallsListed(carved: seq<Edge>)
    ensures (set q | q in EdgeWalls(carved)) == CarvedWalls(carved)
  {
    var ws := EdgeWalls(carved);
    forall e | e in carved
      ensures e.wall in ws
    {
      var i :| 0 <= i < |carved| && carved[i] == e;
      assert ws[i] == e.wall;
    }
  }
}

/**
 * What the class solvers of algorithms/solving share: they change only
 * the search marks of the maze, they filter neighbour lists the same way,
 * and their reconstructPath methods are identical.
 */
module Solving {
  import opened Geometry
  import opened MazeSpec
  import opened MazeGrid
  import Carving

  // ---------------------------------------------------------------------
  // The layout a solver leaves alone

  /** Same walls, same role flags, same start/end references: only search marks may differ. */
  ghost predicate SameLayout(a: Board, b: Board) {
    Initialized(a) && Initialized(b) && a.size == b.size && a.start == b.start && a.end == b.end &&
    forall p :: InBounds(a.size, p) ==>
      At(a, p).isWall == At(b, p).isWall && At(a, p).isStart == At(b, p).isStart && At(a, p).isEnd == At(b, p).isEnd
  }

  lemma SameLayoutFacts(a: Board, b: Board, c: Board)
    ensures Initialized(a) ==> SameLayout(a, a)
    ensures SameLayout(a, b) ==> SameLayout(b, a)
    ensures SameLayout(a, b) && SameLayout(b, c) ==> SameLayout(a, c)
  {
  }

  /** The same layout has the same wall snapshot and keeps the role invariant. */
  lemma SameLayoutWalls(a: Board, b: Board)
    requires SameLayout(a, b)
    ensures WallsOf(a) == WallsOf(b)
    ensures Roles(a) ==> Roles(b)
  {
    SameWalls(a, b);
  }

  /** markVisited, markFrontier and markPath change only search marks. */
  lemma MarksKeepLayout(b: Board, p: Pos)
    requires Initialized(b) && InBounds(b.size, p)
    ensures SameLayout(b, WithVisited(b, p))
    ensures SameLayout(b, WithFrontier(b, p))
    ensures SameLayout(b, WithPathMark(b, p))
  {
  }

  // ---------------------------------------------------------------------
  // The cells still to be visited: every loop's measure

  /** In the grid, open, neither start nor end, and not visited: what markVisited can still mark. */
  /** No cell carries the visited flag, as resetVisited leaves the board before every solve. */
  ghost predicate NoneVisited(b: Board) {
    Initialized(b) && forall q :: InBounds(b.size, q) ==> !At(b, q).isVisited
  }

  lemma ResetNoneVisited(b: Board)
    requires Initialized(b)
    ensures NoneVisited(Reset(b))
  {
  }

  ghost function Unvisited(b: Board): set<Pos>
    requires Initialized(b)
  {
    set p | p in AllCells(b.size) && InBounds(b.size, p) && !Unmarkable(At(b, p)) && !At(b, p).isVisited
  }

  lemma UnvisitedMember(b: Board, q: Pos)
    requires Initialized(b)
    ensures q in Unvisited(b) <==> InBounds(b.size, q) && !Unmarkable(At(b, q)) && !At(b, q).isVisited
  {
    if InBounds(b.size, q) {
      InAllCells(b.size, q);
    }
  }

  /** markVisited takes q out of the unvisited cells; markFrontier and markPath leave them alone. */
  lemma MarkUnvisited(b: Board, q: Pos)
    requires Initialized(b) && InBounds(b.size, q)
    ensures Unvisited(WithVisited(b, q)) == Unvisited(b) - {q}
    ensures Unvisited(WithFrontier(b, q)) == Unvisited(b)
    ensures Unvisited(WithPathMark(b, q)) == Unvisited(b)
  {
    var v := WithVisited(b, q);
    forall p ensures p in Unvisited(v) <==> p in Unvisited(b) - {q} {
      UnvisitedMember(b, p);
      UnvisitedMember(v, p);
    }
    var f := WithFrontier(b, q);
    forall p ensures p in Unvisited(f) <==> p in Unvisited(b) {
      UnvisitedMember(b, p);
      UnvisitedMember(f, p);
    }
    var m := WithPathMark(b, q);
    forall p ensures p in Unvisited(m) <==> p in Unvisited(b) {
      UnvisitedMember(b, p);
      UnvisitedMember(m, p);
    }
  }

  /** The same layout with no fewer visited cells has no more unvisited cells. */
  lemma UnvisitedShrinks(a: Board, b: Board)
    requires SameLayout(a, b)
    requires forall p :: InBounds(a.size, p) && At(a, p).isVisited ==> At(b, p).isVisited
    ensures Unvisited(b) <= Unvisited(a)
  {
    forall p | p in Unvisited(b) ensures p in Unvisited(a) {
      UnvisitedMember(a, p);
      UnvisitedMember(b, p);
    }
  }

  /** A subset is no larger than its superset. */
  lemma {:induction false} SubsetSize(a: set<Pos>, b: set<Pos>)
    requires a <= b
    ensures |a| <= |b|
    decreases |b|
  {
    if a != {} {
      var x :| x in a;
      SubsetSize(a - {x}, b - {x});
    }
  }

  /** The visited cells of the grid. */
  ghost function Visited(b: Board): set<Pos>
    requires Initialized(b)
  {
    set p | p in AllCells(b.size) && InBounds(b.size, p) && At(b, p).isVisited
  }

  lemma VisitedMember(b: Board, q: Pos)
    requires Initialized(b)
    ensures q in Visited(b) <==> InBounds(b.size, q) && At(b, q).isVisited
  {
    if InBounds(b.size, q) {
      InAllCells(b.size, q);
    }
  }

  /** The cells of S that markVisited would mark: in the grid and neither wall, start nor end. */
  ghost function Markable(b: Board, S: set<Pos>): set<Pos>
    requires Initialized(b)
  {
    set q | q in S && InBounds(b.size, q) && !Unmarkable(At(b, q))
  }

  /** Markable depends only on the layout and distributes over union. */
  lemma MarkableFacts(a: Board, b: Board, S: set<Pos>, T: set<Pos>, q: Pos)
    requires Initialized(a)
    ensures SameLayout(a, b) ==> Markable(a, S) == Markable(b, S)
    ensures Markable(a, S + T) == Markable(a, S) + Markable(a, T)
    ensures Markable(a, S) <= S && Markable(a, {}) == {}
    ensures InBounds(a.size, q) ==> Markable(a, {q}) == if Unmarkable(At(a, q)) then {} else {q}
  {
  }

  /** markVisited adds q to the visited cells when q is markable; markFrontier and markPath leave them alone. */
  lemma VisitedAfterMarks(b: Board, q: Pos)
    requires Initialized(b) && InBounds(b.size, q)
    ensures Visited(WithVisited(b, q)) == Visited(b) + Markable(b, {q})
    ensures Visited(WithFrontier(b, q)) == Visited(b)
    ensures Visited(WithPathMark(b, q)) == Visited(b)
  {
    var v, f, m := WithVisited(b, q), WithFrontier(b, q), WithPathMark(b, q);
    forall p ensures p in Visited(v) <==> p in Visited(b) + Markable(b, {q}) {
      VisitedMember(b, p);
      VisitedMember(v, p);
    }
    forall p ensures p in Visited(f) <==> p in Visited(b) {
      VisitedMember(b, p);
      VisitedMember(f, p);
    }
    forall p ensures p in Visited(m) <==> p in Visited(b) {
      VisitedMember(b, p);
      VisitedMember(m, p);
    }
  }

  /** markVisited seen against a fixed layout b0: the layout stays, and q joins the visited cells when b0 lets it. */
  lemma VisitKeepsLayout(b0: Board, b: Board, q: Pos)
    requires SameLayout(b0, b) && InBounds(b0.size, q)
    ensures SameLayout(b0, WithVisited(b, q))
    ensures Visited(WithVisited(b, q)) == Visited(b) + Markable(b0, {q})
  {
    MarksKeepLayout(b, q);
    VisitedAfterMarks(b, q);
    MarkableFacts(b0, b, {q}, {}, q);
  }

  /** markFrontier and markPath seen against a fixed layout b0: the layout and the visited cells stay. */
  lemma FlagKeepsLayout(b0: Board, b: Board, q: Pos)
    requires SameLayout(b0, b) && InBounds(b0.size, q)
    ensures SameLayout(b0, WithFrontier(b, q)) && Visited(WithFrontier(b, q)) == Visited(b)
    ensures SameLayout(b0, WithPathMark(b, q)) && Visited(WithPathMark(b, q)) == Visited(b)
  {
    MarksKeepLayout(b, q);
    VisitedAfterMarks(b, q);
  }

  /**
   * The solvers' filter `!cell.isWall && !cell.isVisited` on a board with
   * layout b0: an open cell of b0 that is not visited.
   */
  lemma FilterAgainstLayout(b0: Board, b: Board, ns: seq<Pos>, fs: seq<Pos>)
    requires SameLayout(b0, b) && forall q :: q in ns ==> InBounds(b0.size, q)
    requires forall q :: q in fs <==> q in ns && !At(b, q).isWall && !At(b, q).isVisited
    ensures forall q :: q in fs <==> q in ns && Open(WallsOf(b0), q) && q !in Visited(b)
  {
    SameLayoutWalls(b0, b);
    forall q | q in ns ensures (!At(b, q).isWall <==> Open(WallsOf(b0), q)) && (At(b, q).isVisited <==> q in Visited(b)) {
      VisitedMember(b, q);
    }
  }

  /** The unvisited cells are the markable cells not visited. */
  lemma UnvisitedIsMarkable(b: Board)
    requires Initialized(b)
    ensures Unvisited(b) == Markable(b, AllCells(b.size)) - Visited(b)
  {
    forall p ensures p in Unvisited(b) <==> p in Markable(b, AllCells(b.size)) - Visited(b) {
      UnvisitedMember(b, p);
      VisitedMember(b, p);
    }
  }

  // ---------------------------------------------------------------------
  // Sequences of cells

  /** The cells of a sequence. */
  ghost function Members(s: seq<Pos>): set<Pos> {
    set q | q in s
  }

  /** The prefixes of s gain one cell at a time. */
  lemma MembersPrefix(s: seq<Pos>, i: int)
    requires 0 <= i <= |s|
    ensures Members(s[..0]) == {}
    ensures i < |s| ==> Members(s[..i + 1]) == Members(s[..i]) + {s[i]}
  {
    if i < |s| {
      assert s[..i + 1] == s[..i] + [s[i]];
    }
  }

  /** Appending the prefixes of s one cell longer appends that cell. */
  lemma AppendPrefix(a: seq<Pos>, s: seq<Pos>, i: int)
    requires 0 <= i < |s|
    ensures a + s[..i + 1] == a + s[..i] + [s[i]]
  {
    assert s[..i + 1] == s[..i] + [s[i]];
  }

  /** The suffixes of a sequence without duplicates lose one cell at a time. */
  lemma MembersSuffix(s: seq<Pos>, i: int)
    requires 0 <= i < |s| && NoDuplicates(s)
    ensures Members(s[i + 1..]) == Members(s[i..]) - {s[i]}
  {
    assert s[i..] == [s[i]] + s[i + 1..];
    forall k | i + 1 <= k < |s| ensures s[k] != s[i] {
    }
  }

  /** A cell not yet in a duplicate-free path can be appended. */
  lemma AppendFresh(path: seq<Pos>, p: Pos)
    requires NoDuplicates(path) && p !in Members(path)
    ensures NoDuplicates(path + [p]) && Members(path + [p]) == Members(path) + {p}
  {
    var s := path + [p];
    forall i, j | 0 <= i < j < |s| ensures s[i] != s[j] {
      if j == |path| {
        assert s[i] == path[i] && path[i] in Members(path);
      } else {
        assert s[i] == path[i] && s[j] == path[j];
      }
    }
  }

  // ---------------------------------------------------------------------
  // Neighbour lists

  /** getNeighbors never lists a cell twice, nor the cell itself. */
  lemma NeighborsDistinct(n: int, p: Pos)
    ensures NoDuplicates(Neighbors(n, p, false))
    ensures p !in Neighbors(n, p, false)
  {
    NeighborsOrdered(n, p, false);
  }

  /** `.filter(cell => !cell.isWall && !cell.isVisited)`, as every class solver filters getNeighbors. */
  function OpenUnvisited(b: Board, ns: seq<Pos>): (fs: seq<Pos>)
    requires forall q :: q in ns ==> InGrid(b, q)
    ensures forall q :: q in fs <==> q in ns && !At(b, q).isWall && !At(b, q).isVisited
    ensures NoDuplicates(ns) ==> NoDuplicates(fs)
    ensures |fs| <= |ns|
    decreases |ns|
  {
    if ns == [] then []
    else
      var pre, q := ns[..|ns| - 1], ns[|ns| - 1];
      assert forall x :: x in ns <==> x in pre || x == q;
      var rest := OpenUnvisited(b, pre);
      if !At(b, q).isWall && !At(b, q).isVisited then rest + [q] else rest
  }

  /** The filter as a loop over the grid, leaving the maze unchanged. */
  method FilterOpenUnvisited(m: Maze, ns: seq<Pos>) returns (fs: seq<Pos>)
    requires m.Ready() && forall q :: q in ns ==> InBounds(m.size, q)
    ensures fs == OpenUnvisited(m.Model(), ns)
  {
    fs := [];
    var i := 0;
    while i < |ns|
      invariant 0 <= i <= |ns|
      invariant fs == OpenUnvisited(m.Model(), ns[..i])
    {
      assert ns[..i + 1][..i] == ns[..i];
      var q := ns[i];
      m.ModelCell(q);
      var cell := m.grid[q.row, q.col];
      if !cell.isWall && !cell.isVisited {
        fs := fs + [q];
      }
      i := i + 1;
    }
    assert ns[..i] == ns;
  }

  // ---------------------------------------------------------------------
  // reconstructPath

  /**
   * The parentMap ranks that make reconstructPath's loop terminate: a parent
   * that is neither the start nor without a parent of its own ranks lower
   * than its child.
   */
  ghost predicate Ranked(parentMap: map<Pos, Pos>, start: Pos, rank: map<Pos, nat>) {
    forall p {:trigger parentMap[p]} :: p in parentMap ==>
      p in rank && (parentMap[p] != start && parentMap[p] in parentMap ==> parentMap[p] in rank && rank[parentMap[p]] < rank[p])
  }

  /**
   * path follows parentMap forward from origin to end: each cell's parent is
   * the cell before it, the first one's parent is origin, and an empty path
   * means origin is end itself.
   */
  ghost predicate Chain(parentMap: map<Pos, Pos>, origin: Pos, path: seq<Pos>, end: Pos) {
    (path == [] ==> origin == end) &&
    (path != [] ==> path[|path| - 1] == end) &&
    forall i {:trigger Prior(origin, path, i)} :: 0 <= i < |path| ==> path[i] in parentMap && parentMap[path[i]] == Prior(origin, path, i)
  }

  /** The cell before path[i] on a walk from origin along path. */
  function Prior(origin: Pos, path: seq<Pos>, i: int): Pos
    requires 0 <= i <= |path|
  {
    if i == 0 then origin else path[i - 1]
  }

  /** The trail the loop has pushed so far, from end back towards current. */
  ghost predicate Trail(parentMap: map<Pos, Pos>, current: Pos, trail: seq<Pos>, end: Pos) {
    (trail == [] ==> current == end) &&
    (trail != [] ==> trail[0] == end && trail[|trail| - 1] in parentMap && parentMap[trail[|trail| - 1]] == current) &&
    forall i :: 0 <= i < |trail| ==> trail[i] in parentMap && (i + 1 < |trail| ==> parentMap[trail[i]] == trail[i + 1])
  }

  /** path.reverse(). */
  function Reverse(s: seq<Pos>): (r: seq<Pos>)
    ensures |r| == |s| && forall i :: 0 <= i < |s| ==> r[i] == s[|s| - 1 - i]
  {
    if s == [] then [] else Reverse(s[1..]) + [s[0]]
  }

  lemma TrailIsChain(parentMap: map<Pos, Pos>, current: Pos, trail: seq<Pos>, end: Pos)
    requires Trail(parentMap, current, trail, end)
    ensures Chain(parentMap, current, Reverse(trail), end)
  {
    var path := Reverse(trail);
    forall i | 0 <= i < |path|
      ensures path[i] in parentMap && parentMap[path[i]] == Prior(current, path, i)
    {
      if i > 0 {
        assert path[i - 1] == trail[|trail| - i];
      }
    }
  }

  /**
   * reconstructPath: from end, push the current cell and step to its parent
   * while the current cell is not the start and has a parent; then reverse.
   * The result follows parentMap from where the walk stopped (the start, or
   * a cell without a parent) to end, and never holds the start.
   */
  method ReconstructPath(parentMap: map<Pos, Pos>, start: Pos, end: Pos, ghost rank: map<Pos, nat>)
    returns (path: seq<Pos>, ghost origin: Pos)
    requires Ranked(parentMap, start, rank)
    ensures Chain(parentMap, origin, path, end)
    ensures origin == start || origin !in parentMap
    ensures start !in path
  {
    var trail: seq<Pos> := [];
    var current := end;
    while current != start && current in parentMap
      invariant Trail(parentMap, current, trail, end)
      invariant start !in trail
      decreases if current != start && current in parentMap then rank[current] + 1 else 0
    {
      trail := trail + [current];
      current := parentMap[current];
    }
    TrailIsChain(parentMap, current, trail, end);
    path := Reverse(trail);
    origin := current;
  }

  /** What a class solver's parentMap satisfies besides the ranks. */
  ghost predicate ParentEdges(walls: seq<seq<bool>>, parentMap: map<Pos, Pos>, start: Pos) {
    forall p {:trigger parentMap[p]} :: p in parentMap ==>
      Adjacent(parentMap[p], p) && Open(walls, p) && (parentMap[p] == start || parentMap[p] in parentMap)
  }

  /**
   * When every parent is an orthogonal neighbour of an open child, a chain
   * that begins at the start is a walk from the start to end, one cell
   * longer than the reconstructed path.
   */
  lemma ChainIsWalk(walls: seq<seq<bool>>, parentMap: map<Pos, Pos>, start: Pos, path: seq<Pos>, end: Pos)
    requires ParentEdges(walls, parentMap, start) && InBounds(|walls|, start)
    requires Chain(parentMap, start, path, end)
    ensures IsWalk(walls, [start] + path)
    ensures ([start] + path)[|path|] == end
  {
    var walk := [start] + path;
    assert walk[0] == start;
    forall i | 0 < i < |walk| ensures Adjacent(walk[i - 1], walk[i]) && Open(walls, walk[i]) {
      var q := path[i - 1];
      assert walk[i] == q;
      assert walk[i - 1] == Prior(start, path, i - 1);
      assert q in parentMap && parentMap[q] == Prior(start, path, i - 1);
      assert Adjacent(parentMap[q], q) && Open(walls, q);
    }
  }

  /**
   * The origin a Chain ends at, for a parentMap whose parents are the start
   * or have parents: the start, as soon as end is the start or has a parent.
   */
  lemma ChainFromStart(walls: seq<seq<bool>>, parentMap: map<Pos, Pos>, start: Pos, origin: Pos, path: seq<Pos>, end: Pos)
    requires ParentEdges(walls, parentMap, start)
    requires Chain(parentMap, origin, path, end) && (origin == start || origin !in parentMap)
    requires end == start || end in parentMap
    ensures origin == start
  {
    if path != [] {
      assert Prior(origin, path, 0) == origin && parentMap[path[0]] == origin;
    }
  }

  // ---------------------------------------------------------------------
  // The path marks of animatePath

  function PathCell(c: Cell, marked: bool): Cell {
    if marked && !Unmarkable(c) then c.(isPath := true) else c
  }

  /** The board after markPath on every cell of S. */
  function PathMarked(b: Board, S: set<Pos>): (r: Board)
    requires Initialized(b)
    ensures Initialized(r) && r.size == b.size && r.start == b.start && r.end == b.end
    ensures forall p :: InBounds(b.size, p) ==> At(r, p) == PathCell(At(b, p), p in S)
  {
    b.(cells := seq(|b.cells|, i requires 0 <= i < |b.cells| =>
         seq(|b.cells[i]|, j requires 0 <= j < |b.cells[i]| => PathCell(b.cells[i][j], Pos(i, j) in S))))
  }

  lemma PathMarkedStep(b: Board, S: set<Pos>, q: Pos)
    requires Initialized(b) && InBounds(b.size, q)
    ensures PathMarked(b, S + {q}) == WithPathMark(PathMarked(b, S), q)
  {
    Carving.SameBoard(PathMarked(b, S + {q}), WithPathMark(PathMarked(b, S), q));
  }

  /**
   * The animatePath loop: markPath on each cell of the path in order.
   * Every open cell of the path that is neither start nor end gets isPath;
   * nothing else changes.
   */
  method MarkPathCells(m: Maze, path: seq<Pos>)
    requires m.Ready() && forall q :: q in path ==> InBounds(m.size, q)
    modifies m.grid
    ensures m.Ready() && m.size == old(m.size)
    ensures m.Model() == PathMarked(old(m.Model()), Members(path))
  {
    ghost var b := m.Model();
    var i := 0;
    Carving.SameBoard(PathMarked(b, {}), b);
    MembersPrefix(path, 0);
    while i < |path|
      invariant 0 <= i <= |path| && m.Ready() && m.size == b.size
      invariant m.Model() == PathMarked(b, Members(path[..i]))
    {
      MembersPrefix(path, i);
      PathMarkedStep(b, Members(path[..i]), path[i]);
      m.MarkPath(path[i].row, path[i].col);
      i := i + 1;
    }
    assert path[..i] == path;
  }

  /** Marking a path keeps the layout, and every cell of it ends marked unless it is a wall, start or end. */
  lemma PathMarkedLayout(b: Board, S: set<Pos>)
    requires Initialized(b)
    ensures SameLayout(b, PathMarked(b, S))
    ensures Unvisited(PathMarked(b, S)) == Unvisited(b)
    ensures forall p :: p in S && InBounds(b.size, p) && !Unmarkable(At(b, p)) ==> At(PathMarked(b, S), p).isPath
  {
    forall p ensures p in Unvisited(PathMarked(b, S)) <==> p in Unvisited(b) {
      UnvisitedMember(b, p);
      UnvisitedMember(PathMarked(b, S), p);
    }
  }

  // ---------------------------------------------------------------------
  // What a class solver leaves

  /** The initial board is built, keeps the role invariant and has a start and an end. */
  ghost predicate Base(b0: Board) {
    Initialized(b0) && Roles(b0) && b0.start.Some? && b0.end.Some?
  }

  /** A maze with a start and an end in the grid, and a board with its layout. */
  ghost predicate Starting(b0: Board, b: Board) {
    var holds := Base(b0) && SameLayout(b0, b) && InBounds(b0.size, b0.start.value);
    holds
  }

  lemma Started(b0: Board, b: Board)
    requires Starting(b0, b)
    ensures Base(b0) && SameLayout(b0, b)
  {
  }

  /**
   * A found path on the board b a solver ends with, against the board b0 it
   * started on: a walk from the start to the end that leaves the start out,
   * so the end is reachable, and each of its cells that can carry a mark is
   * marked.
   */
  ghost predicate Found(b0: Board, b: Board, path: seq<Pos>)
    requires Base(b0) && SameLayout(b0, b)
  {
    var s, t := b0.start.value, b0.end.value;
    IsWalk(WallsOf(b0), [s] + path) && ([s] + path)[|path|] == t && s !in path &&
    Reachable(WallsOf(b0), s, t) &&
    forall q :: q in path ==> InBounds(b0.size, q) && (!Unmarkable(At(b0, q)) ==> At(b, q).isPath)
  }

  /** Walls and flags are as they were; a found path is Found, and with nothing found the path is empty. */
  ghost predicate Outcome(b0: Board, b: Board, found: bool, path: seq<Pos>) {
    Base(b0) && SameLayout(b0, b) && (found ==> Found(b0, b, path)) && (!found ==> path == [])
  }

  /** A marked walk from the start to the end is Found. */
  lemma FoundOutcome(b0: Board, b: Board, path: seq<Pos>)
    requires Base(b0) && SameLayout(b0, b)
    requires IsWalk(WallsOf(b0), [b0.start.value] + path) && ([b0.start.value] + path)[|path|] == b0.end.value
    requires b0.start.value !in path
    requires forall q :: q in path ==> InBounds(b0.size, q) && (!Unmarkable(At(b0, q)) ==> At(b, q).isPath)
    ensures Found(b0, b, path)
  {
    var walk := [b0.start.value] + path;
    assert walk[0] == b0.start.value && walk[|walk| - 1] == b0.end.value;
  }

  /** The reconstructed path, which starts at the start, is a walk to the end inside the grid. */
  lemma PathFacts(b0: Board, parentMap: map<Pos, Pos>, origin: Pos, path: seq<Pos>)
    requires Base(b0) && ParentEdges(WallsOf(b0), parentMap, b0.start.value)
    requires Chain(parentMap, origin, path, b0.end.value) && (origin == b0.start.value || origin !in parentMap)
    requires b0.end.value == b0.start.value || b0.end.value in parentMap
    ensures IsWalk(WallsOf(b0), [b0.start.value] + path) && ([b0.start.value] + path)[|path|] == b0.end.value
    ensures forall q :: q in path ==> InBounds(b0.size, q)
  {
    var s, t := b0.start.value, b0.end.value;
    ChainFromStart(WallsOf(b0), parentMap, s, origin, path, t);
    ChainIsWalk(WallsOf(b0), parentMap, s, path, t);
    forall q | q in path ensures InBounds(b0.size, q) {
      var i :| 0 <= i < |path| && path[i] == q;
      assert ([s] + path)[i + 1] == q;
    }
  }

  /** animatePath keeps the layout and leaves every markable cell of the path marked. */
  lemma MarksAfter(b0: Board, b: Board, path: seq<Pos>)
    requires SameLayout(b0, b) && forall q :: q in path ==> InBounds(b0.size, q)
    ensures SameLayout(b0, PathMarked(b, Members(path)))
    ensures forall q :: q in path ==> InBounds(b0.size, q) && (!Unmarkable(At(b0, q)) ==> At(PathMarked(b, Members(path)), q).isPath)
  {
    PathMarkedLayout(b, Members(path));
    SameLayoutFacts(b0, b, PathMarked(b, Members(path)));
  }

  // ---------------------------------------------------------------------
  // reconstructPath with animatePath, as every class solver runs it

  /**
   * What a search that reached the end hands to reconstructPath: a ranked
   * tree of open steps rooted at the start in which the end has a parent
   * or is the start.
   */
  ghost predicate Traceable(b0: Board, parentMap: map<Pos, Pos>, rank: map<Pos, nat>) {
    Base(b0) && Ranked(parentMap, b0.start.value, rank) && ParentEdges(WallsOf(b0), parentMap, b0.start.value) &&
    (b0.end.value == b0.start.value || b0.end.value in parentMap)
  }

  /** The reconstructed path, once marked, is Found. */
  lemma MarkedPathFound(b0: Board, b: Board, parentMap: map<Pos, Pos>, origin: Pos, path: seq<Pos>)
    requires SameLayout(b0, b) && Base(b0) && ParentEdges(WallsOf(b0), parentMap, b0.start.value)
    requires b0.end.value == b0.start.value || b0.end.value in parentMap
    requires Chain(parentMap, origin, path, b0.end.value) && (origin == b0.start.value || origin !in parentMap)
    requires b0.start.value !in path
    ensures forall q :: q in path ==> InBounds(b0.size, q)
    ensures SameLayout(b0, PathMarked(b, Members(path))) && Found(b0, PathMarked(b, Members(path)), path)
  {
    PathFacts(b0, parentMap, origin, path);
    MarksAfter(b0, b, path);
    FoundOutcome(b0, PathMarked(b, Members(path)), path);
  }

  /**
   * The shared body of the class solvers' reconstructPath: follow the
   * parents back from the end, reverse, and markPath each cell in order.
   * The path is a marked walk from the start to the end, start excluded.
   */
  method TracePath(m: Maze, parentMap: map<Pos, Pos>, ghost rank: map<Pos, nat>, ghost b0: Board) returns (path: seq<Pos>)
    requires m.Ready() && SameLayout(b0, m.Model()) && Traceable(b0, parentMap, rank)
    modifies m.grid
    ensures m.Ready() && m.Model() == PathMarked(old(m.Model()), Members(path))
    ensures SameLayout(b0, m.Model()) && Found(b0, m.Model(), path)
    ensures Chain(parentMap, b0.start.value, path, b0.end.value)
  {
    var s, t := m.startCell.value, m.endCell.value;
    ghost var origin;
    path, origin := ReconstructPath(parentMap, s, t, rank);
    ChainFromStart(WallsOf(b0), parentMap, s, origin, path, t);
    MarkedPathFound(b0, m.Model(), parentMap, origin, path);
    MarkPathCells(m, path);
  }
}

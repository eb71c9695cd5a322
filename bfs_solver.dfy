/**
 * BFSSolver of algorithms/solving/breadth-first.js.  Each processCell call
 * is one turn of the loop in Search: shift the queue; stop at the end cell;
 * otherwise mark, count, enqueue and parent every open unvisited neighbour.
 */
module BreadthFirst {
  import opened Geometry
  import opened MazeSpec
  import opened MazeGrid
  import opened Solving
  import opened BreadthFirstSpec
  import opened BreadthFirstOptimality

  class BFSSolver {
    const maze: Maze
    var visitedCount: nat
    var pathLength: nat

    constructor (maze: Maze)
      ensures this.maze == maze && visitedCount == 0 && pathLength == 0
    {
      this.maze := maze;
      visitedCount := 0;
      pathLength := 0;
    }

    /**
     * markVisited then markFrontier on q, one turn of the for loop.
     * Against the layout b0 the board keeps its walls and flags, and q joins
     * the visited cells unless it is the start or the end.
     */
    method Discover(q: Pos, ghost b0: Board)
      requires maze.Ready() && SameLayout(b0, maze.Model()) && InBounds(b0.size, q)
      modifies maze.grid
      ensures maze.Ready() && maze.Model() == WithFrontier(WithVisited(old(maze.Model()), q), q)
      ensures SameLayout(b0, maze.Model()) && Visited(maze.Model()) == Visited(old(maze.Model())) + Markable(b0, {q})
    {
      ghost var b := maze.Model();
      VisitKeepsLayout(b0, b, q);
      FlagKeepsLayout(b0, WithVisited(b, q), q);
      maze.MarkVisited(q.row, q.col);
      maze.MarkFrontier(q.row, q.col);
    }

    /**
     * The for loop over the filtered neighbours fs of current: each is
     * discovered in turn, so all of them are enqueued in order and get
     * current as their parent, and the markable ones join the visited cells.
     */
    method DiscoverAll(queue: seq<Pos>, parentMap: map<Pos, Pos>, current: Pos, fs: seq<Pos>, ghost b0: Board)
      returns (queue': seq<Pos>, parentMap': map<Pos, Pos>)
      requires maze.Ready() && SameLayout(b0, maze.Model())
      requires forall q :: q in fs ==> InBounds(b0.size, q)
      modifies maze.grid
      ensures maze.Ready() && maze.Model() == Enqueued(old(maze.Model()), fs)
      ensures SameLayout(b0, maze.Model()) && Visited(maze.Model()) == Visited(old(maze.Model())) + Markable(b0, Members(fs))
      ensures queue' == queue + fs && parentMap' == parentMap + ParentsOf(fs, current)
    {
      ghost var b := maze.Model();
      queue', parentMap' := queue, parentMap;
      var i := 0;
      ForStart(b0, b, fs, parentMap, current);
      while i < |fs|
        invariant 0 <= i <= |fs| && maze.Ready() && maze.Model() == Enqueued(b, fs[..i])
        invariant SameLayout(b0, maze.Model()) && Visited(maze.Model()) == Visited(b) + Markable(b0, Members(fs[..i]))
        invariant queue' == queue + fs[..i] && parentMap' == parentMap + ParentsOf(fs[..i], current)
      {
        var q := fs[i];
        ForTurn(b0, b, fs, i, parentMap, current);
        Discover(q, b0);
        queue' := queue' + [q];
        parentMap' := parentMap'[q := current];
        AppendPrefix(queue, fs, i);
        i := i + 1;
      }
      assert fs[..i] == fs;
    }

    /**
     * The rest of processCell once current is shifted off the queue and is
     * not the end: getNeighbors, the filter, and the for loop.
     */
    method Expand(queue: seq<Pos>, parentMap: map<Pos, Pos>, current: Pos, ghost b0: Board)
      returns (fs: seq<Pos>, queue': seq<Pos>, parentMap': map<Pos, Pos>)
      requires maze.Ready() && SameLayout(b0, maze.Model())
      modifies this, maze.grid
      ensures forall q :: q in fs <==> q in Neighbors(b0.size, current, false) && Open(WallsOf(b0), q) && q !in Visited(old(maze.Model()))
      ensures NoDuplicates(fs) && current !in fs
      ensures forall q :: q in fs ==> Adjacent(current, q) && InBounds(b0.size, q) && !At(b0, q).isWall
      ensures maze.Ready() && maze.Model() == Enqueued(old(maze.Model()), fs)
      ensures SameLayout(b0, maze.Model()) && Visited(maze.Model()) == Visited(old(maze.Model())) + Markable(b0, Members(fs))
      ensures queue' == queue + fs && parentMap' == parentMap + ParentsOf(fs, current)
      ensures visitedCount == old(visitedCount) + |fs| && pathLength == old(pathLength)
    {
      var ns := maze.GetNeighbors(current.row, current.col, false);
      fs := Filter(ns, b0, current);
      queue', parentMap' := DiscoverAll(queue, parentMap, current, fs, b0);
      visitedCount := visitedCount + |fs|;
    }

    /**
     * The loop of processCell turns until the queue is empty or the end is
     * shifted off it.  `found` says which: with the end found, parentMap is
     * a ranked tree of open steps in which the end has a parent or is the
     * start; with the queue exhausted, the end is unreachable whenever no
     * cell was visited before the search.
     */
    method Search(queue0: seq<Pos>, ghost b0: Board)
      returns (found: bool, parentMap: map<Pos, Pos>, ghost rank: map<Pos, nat>, ghost depth: nat)
      requires maze.Ready() && Base(b0) && SameLayout(b0, maze.Model())
      requires queue0 == [b0.start.value] && Visited(maze.Model()) == Visited(b0) + Markable(b0, {b0.start.value})
      modifies this, maze.grid
      ensures maze.Ready() && SameLayout(b0, maze.Model()) && pathLength == old(pathLength)
      ensures found ==> Traceable(b0, parentMap, rank)
      ensures !found && Visited(b0) == {} ==> !Reachable(WallsOf(b0), b0.start.value, b0.end.value)
      ensures found && Visited(b0) == {} ==> Shallow(b0, parentMap, depth)
      ensures visitedCount >= old(visitedCount)
    {
      var queue := queue0;
      parentMap := map[];
      rank := map[];
      ghost var V, clock, log, done := Visited(maze.Model()), 0, [], {};
      ghost var qd: seq<nat>, dep, level := [0], map[b0.start.value := 0], 0;
      InvStart(b0);
      LayeredStart(b0);
      while queue != [] && queue[0] != maze.endCell.value
        invariant maze.Ready() && SameLayout(b0, maze.Model()) && Visited(maze.Model()) == V
        invariant Inv(b0, V, queue, parentMap, rank, clock, log, done, {})
        invariant Layered(b0, queue, qd, log, done, parentMap, dep, level)
        invariant visitedCount == old(visitedCount) + |log| && pathLength == old(pathLength)
        decreases |ToVisit(b0, V)|, WeightSum(b0, queue)
      {
        var current := queue[0];
        ghost var queue0, parentMap0 := queue, parentMap;
        var fs;
        fs, queue, parentMap := Expand(queue[1..], parentMap, current, b0);
        InvStep(b0, V, queue0, parentMap0, rank, clock, log, done, fs);
        LayeredStep(b0, V, queue0, parentMap0, rank, clock, log, done, fs, qd, dep, level);
        qd, dep, level := qd[1..] + Repeat(qd[0] + 1, |fs|), Reached(dep, fs, qd[0] + 1), qd[0];
        V, rank, clock, log, done := V + Markable(b0, Members(fs)), rank + RanksOf(fs, clock), clock + 1, log + fs, done + {current};
      }
      found := queue != [];
      InvOutcome(b0, V, queue, parentMap, rank, clock, log, done);
      depth := if found then qd[0] else 0;
      if found && Visited(b0) == {} {
        LayeredFound(b0, V, queue, parentMap, rank, clock, log, done, qd, dep, level);
      }
    }

    /**
     * reconstructPath from the end: follow parentMap back to the start,
     * reverse, set pathLength, and markPath every cell in order
     * (animatePath).  The path is a walk from the start to the end that
     * leaves the start out, and each of its cells that can carry a mark
     * ends marked.
     */
    method ReconstructPath(parentMap: map<Pos, Pos>, ghost rank: map<Pos, nat>, ghost b0: Board) returns (path: seq<Pos>)
      requires maze.Ready() && SameLayout(b0, maze.Model()) && Traceable(b0, parentMap, rank)
      modifies this, maze.grid
      ensures maze.Ready() && maze.Model() == PathMarked(old(maze.Model()), Members(path))
      ensures SameLayout(b0, maze.Model()) && Found(b0, maze.Model(), path)
      ensures pathLength == |path| && visitedCount == old(visitedCount)
      ensures Chain(parentMap, b0.start.value, path, b0.end.value)
    {
      path := TracePath(maze, parentMap, rank, b0);
      pathLength := |path|;
    }

    /**
     * The set-up of solve once the start and the end exist: both counts
     * restart, the queue holds the start, and the start is marked visited
     * and counted.
     */
    method Begin(ghost b0: Board) returns (queue: seq<Pos>)
      requires maze.Ready() && maze.HasStartAndEnd() && b0 == maze.Model()
      modifies this, maze.grid
      ensures maze.Ready() && Base(b0) && SameLayout(b0, maze.Model())
      ensures maze.Model() == WithVisited(b0, b0.start.value)
      ensures queue == [b0.start.value] && Visited(maze.Model()) == Visited(b0) + Markable(b0, {b0.start.value})
      ensures visitedCount == 1 && pathLength == 0
    {
      visitedCount := 0;
      pathLength := 0;
      var s := maze.startCell.value;
      queue := [s];
      visitedCount := visitedCount + 1;
      assert maze.Model() == b0;
      VisitKeepsLayout(b0, b0, s);
      SameLayoutFacts(b0, b0, b0);
      maze.MarkVisited(s.row, s.col);
    }

    /**
     * solve: without a start or an end nothing changes and the callback
     * gets (0, 0).  Otherwise the counts restart, the start is marked
     * visited and counted, and the loop of processCell runs; the callback
     * gets (visitedCount, pathLength), and the outcome is Solved.
     */
    method Solve() returns (visited: nat, length: nat, found: bool, path: seq<Pos>)
      requires maze.Ready()
      modifies this, maze.grid
      ensures maze.Ready()
      ensures !old(maze.HasStartAndEnd()) ==>
        visited == 0 && length == 0 && !found && path == [] && maze.Model() == old(maze.Model()) &&
        visitedCount == old(visitedCount) && pathLength == old(pathLength)
      ensures old(maze.HasStartAndEnd()) ==>
        Solved(old(maze.Model()), maze.Model(), found, path) &&
        visited == visitedCount >= 1 && length == pathLength == |path|
    {
      if !maze.HasStartAndEnd() {
        return 0, 0, false, [];
      }
      ghost var b0 := maze.Model();
      var queue := Begin(b0);
      var parentMap;
      ghost var rank, depth;
      found, parentMap, rank, depth := Search(queue, b0);
      if found {
        path := ReconstructPath(parentMap, rank, b0);
        if Visited(b0) == {} {
          ShallowPath(b0, parentMap, depth, path);
        }
      } else {
        path := [];
      }
      visited, length := visitedCount, pathLength;
    }

    /** The filter of processCell: the open unvisited neighbours, without duplicates and not current itself. */
    method Filter(ns: seq<Pos>, ghost b0: Board, current: Pos) returns (fs: seq<Pos>)
      requires maze.Ready() && SameLayout(b0, maze.Model()) && ns == Neighbors(b0.size, current, false)
      ensures forall q :: q in fs <==> q in Neighbors(b0.size, current, false) && Open(WallsOf(b0), q) && q !in Visited(maze.Model())
      ensures NoDuplicates(fs) && current !in fs
      ensures forall q :: q in fs ==> Adjacent(current, q) && InBounds(b0.size, q) && !At(b0, q).isWall
    {
      fs := FilterOpenUnvisited(maze, ns);
      NeighborsDistinct(b0.size, current);
      FilterAgainstLayout(b0, maze.Model(), ns, fs);
      SameLayoutWalls(b0, maze.Model());
    }
  }

  /**
   * What solve leaves: an Outcome, and on a board with no visited cell the
   * end is found exactly when it is reachable from the start, along a path
   * no walk from the start to the end is shorter than.
   */
  ghost predicate Solved(b0: Board, b: Board, found: bool, path: seq<Pos>) {
    Outcome(b0, b, found, path) &&
    (Visited(b0) == {} ==> (found <==> Reachable(WallsOf(b0), b0.start.value, b0.end.value))) &&
    (Visited(b0) == {} && found ==> NoShorterWalk(WallsOf(b0), b0.start.value, b0.end.value, |path|))
  }

  /** Before the for loop nothing is processed. */
  lemma ForStart(b0: Board, b: Board, fs: seq<Pos>, parentMap: map<Pos, Pos>, current: Pos)
    requires SameLayout(b0, b)
    ensures fs[..0] == [] && Members(fs[..0]) == {} && Enqueued(b, fs[..0]) == b
    ensures Visited(b) + Markable(b0, Members(fs[..0])) == Visited(b)
    ensures parentMap + ParentsOf(fs[..0], current) == parentMap
  {
    MembersPrefix(fs, 0);
    MarkableFacts(b0, b0, {}, {}, current);
  }

  /** The facts one turn of the for loop needs about the i-th filtered neighbour. */
  lemma ForTurn(b0: Board, b: Board, fs: seq<Pos>, i: int, parentMap: map<Pos, Pos>, current: Pos)
    requires SameLayout(b0, b) && 0 <= i < |fs| && forall q :: q in fs ==> InBounds(b0.size, q)
    ensures Visited(b) + Markable(b0, Members(fs[..i + 1])) == Visited(b) + Markable(b0, Members(fs[..i])) + Markable(b0, {fs[i]})
    ensures fs[..i + 1] == fs[..i] + [fs[i]] && InBounds(b0.size, fs[i])
    ensures Enqueued(b, fs[..i + 1]) == WithFrontier(WithVisited(Enqueued(b, fs[..i]), fs[i]), fs[i])
    ensures parentMap + ParentsOf(fs[..i + 1], current) == (parentMap + ParentsOf(fs[..i], current))[fs[i] := current]
  {
    MembersPrefix(fs, i);
    MarkableFacts(b0, b0, Members(fs[..i]), {fs[i]}, fs[i]);
    assert fs[..i + 1] == fs[..i] + [fs[i]];
    assert fs[..i + 1][..i] == fs[..i];
    assert fs[i] in fs;
    ParentsSnoc(parentMap, fs, i, current);
  }
}

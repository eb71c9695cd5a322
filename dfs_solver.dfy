/**
 * DFSSolver of algorithms/solving/depth-first.js.  Each processCell call is
 * one turn of the loop in Search: pop the stack; skip a cell already
 * visited; otherwise mark and count it, stop at the end cell, and push every
 * open unvisited neighbour, giving a parent only to cells without one.
 */
module DepthFirst {
  import opened Geometry
  import opened MazeSpec
  import opened MazeGrid
  import opened Solving
  import opened DepthFirstSpec

  class DFSSolver {
    const maze: Maze
    var visitedCount: nat
    var pathLength: nat

    constructor (maze: Maze)
      ensures this.maze == maze && visitedCount == 0 && pathLength == 0
    {
      this.maze := maze;
      visitedCount := 0;
      pathLength := 0;
    }

    /**
     * The for loop over the filtered neighbours fs of current: each is
     * pushed, adopted by current unless it already has a parent, and
     * marked as frontier.
     */
    method PushAll(stack: seq<Pos>, parentMap: map<Pos, Pos>, current: Pos, fs: seq<Pos>, ghost b0: Board)
      returns (stack': seq<Pos>, parentMap': map<Pos, Pos>)
      requires maze.Ready() && SameLayout(b0, maze.Model()) && forall q :: q in fs ==> InBounds(b0.size, q)
      modifies maze.grid
      ensures maze.Ready() && maze.Model() == Frontiered(old(maze.Model()), fs)
      ensures stack' == stack + fs && parentMap' == parentMap + Adopted(parentMap, fs, current)
    {
      ghost var b := maze.Model();
      stack', parentMap' := stack, parentMap;
      var i := 0;
      assert fs[..0] == [];
      while i < |fs|
        invariant 0 <= i <= |fs| && maze.Ready() && maze.size == b.size
        invariant forall q :: q in fs[..i] ==> InBounds(b.size, q)
        invariant maze.Model() == Frontiered(b, fs[..i])
        invariant stack' == stack + fs[..i] && parentMap' == parentMap + Adopted(parentMap, fs[..i], current)
      {
        var neighbor := fs[i];
        assert neighbor in fs;
        FrontieredSnoc(b, fs, i);
        AdoptSnoc(parentMap, fs, i, current);
        AppendPrefix(stack, fs, i);
        stack' := stack' + [neighbor];
        if neighbor !in parentMap' {
          parentMap' := parentMap'[neighbor := current];
        }
        maze.MarkFrontier(neighbor.row, neighbor.col);
        i := i + 1;
      }
      assert fs[..i] == fs;
    }

    /**
     * The rest of processCell once current is popped, marked visited and
     * is not the end: getNeighbors, the filter and the for loop.  The
     * pushed cells are the open unvisited neighbours of current, in
     * getNeighbors order.
     */
    method Expand(stack: seq<Pos>, parentMap: map<Pos, Pos>, current: Pos, ghost b0: Board)
      returns (fs: seq<Pos>, stack': seq<Pos>, parentMap': map<Pos, Pos>)
      requires maze.Ready() && SameLayout(b0, maze.Model())
      modifies maze.grid
      ensures fs == OpenUnvisited(old(maze.Model()), Neighbors(maze.size, current, false))
      ensures maze.Ready() && maze.Model() == Frontiered(old(maze.Model()), fs)
      ensures stack' == stack + fs && parentMap' == parentMap + Adopted(parentMap, fs, current)
    {
      var ns := maze.GetNeighbors(current.row, current.col, false);
      fs := FilterOpenUnvisited(maze, ns);
      assert forall q :: q in fs ==> InBounds(b0.size, q);
      stack', parentMap' := PushAll(stack, parentMap, current, fs, b0);
    }

    /**
     * One processCell call on a non-empty stack: pop; a visited cell is
     * skipped without counting; otherwise it is marked visited and counted,
     * and then either it is the end (found) or its open unvisited
     * neighbours are pushed (Turn says exactly how).
     */
    method ProcessCell(stack: seq<Pos>, parentMap: map<Pos, Pos>, ghost b0: Board)
      returns (stack': seq<Pos>, parentMap': map<Pos, Pos>, found: bool)
      requires maze.Ready() && Base(b0) && SameLayout(b0, maze.Model()) && stack != []
      requires InBounds(b0.size, stack[|stack| - 1])
      modifies this, maze.grid
      ensures maze.Ready() && pathLength == old(pathLength)
      ensures Turn(b0, old(maze.Model()), maze.Model(), stack, parentMap, stack', parentMap', found)
      ensures visitedCount == old(visitedCount) + if At(old(maze.Model()), stack[|stack| - 1]).isVisited then 0 else 1
    {
      ghost var b := maze.Model();
      var current := stack[|stack| - 1];
      stack', parentMap', found := stack[..|stack| - 1], parentMap, false;
      maze.ModelCell(current);
      if maze.grid[current.row, current.col].isVisited {
        return;
      }
      maze.MarkVisited(current.row, current.col);
      visitedCount := visitedCount + 1;
      VisitKeepsLayout(b0, b, current);
      if current == maze.endCell.value {
        found := true;
        return;
      }
      var fs;
      fs, stack', parentMap' := Expand(stack', parentMap', current, b0);
    }

    /**
     * The loop of processCell turns until the stack is empty or the end is
     * popped unvisited.  With the end found, parentMap is a ranked tree of
     * open steps in which the end has a parent or is the start.
     */
    method Search(stack0: seq<Pos>, ghost b0: Board) returns (found: bool, parentMap: map<Pos, Pos>, ghost rank: map<Pos, nat>)
      requires maze.Ready() && Base(b0) && SameLayout(b0, maze.Model())
      requires stack0 == [b0.start.value]
      modifies this, maze.grid
      ensures maze.Ready() && SameLayout(b0, maze.Model()) && pathLength == old(pathLength)
      ensures found ==> Traceable(b0, parentMap, rank)
      ensures visitedCount >= old(visitedCount)
    {
      var stack := stack0;
      parentMap, found := map[], false;
      rank := map[];
      ghost var clock := 0;
      InvStart(b0);
      while stack != [] && !found
        invariant maze.Ready() && SameLayout(b0, maze.Model()) && pathLength == old(pathLength)
        invariant found ==> Traceable(b0, parentMap, rank)
        invariant !found ==> Inv(b0, stack, parentMap, rank, clock)
        invariant visitedCount >= old(visitedCount)
        decreases !found, |Unvisited(maze.Model())|, StackWeight(b0, stack)
      {
        ghost var b := maze.Model();
        ghost var stack0, parentMap0 := stack, parentMap;
        InvPop(b0, stack, parentMap, rank, clock);
        stack, parentMap, found := ProcessCell(stack, parentMap, b0);
        rank, clock := TurnInv(b0, b, maze.Model(), stack0, parentMap0, rank, clock, stack, parentMap, found);
      }
    }

    /**
     * reconstructPath from the end: follow parentMap back to the start,
     * reverse, set pathLength, and markPath every cell in order
     * (animatePath).  The path is a walk from the start to the end that
     * leaves the start out, and each of its cells that can carry a mark
     * ends marked.
     */
    method ReconstructPath(parentMap: map<Pos, Pos>, ghost rank: map<Pos, nat>, ghost b0: Board) returns (path: seq<Pos>)
      requires maze.Ready() && SameLayout(b0, maze.Model()) && Traceable(b0, parentMap, rank)
      modifies this, maze.grid
      ensures maze.Ready() && maze.Model() == PathMarked(old(maze.Model()), Members(path))
      ensures SameLayout(b0, maze.Model()) && Found(b0, maze.Model(), path)
      ensures pathLength == |path| && visitedCount == old(visitedCount)
    {
      path := TracePath(maze, parentMap, rank, b0);
      pathLength := |path|;
    }

    /**
     * solve: without a start or an end nothing changes and the callback
     * gets (0, 0).  Otherwise both counts restart, the stack holds the
     * start, and the loop of processCell runs; a found path is a walk from
     * the start to the end, and the callback gets (visitedCount, pathLength).
     */
    method Solve() returns (visited: nat, length: nat, found: bool, path: seq<Pos>)
      requires maze.Ready()
      modifies this, maze.grid
      ensures maze.Ready()
      ensures !old(maze.HasStartAndEnd()) ==>
        visited == 0 && length == 0 && !found && path == [] && maze.Model() == old(maze.Model()) &&
        visitedCount == old(visitedCount) && pathLength == old(pathLength)
      ensures old(maze.HasStartAndEnd()) ==>
        Outcome(old(maze.Model()), maze.Model(), found, path) &&
        visited == visitedCount && length == pathLength == |path|
    {
      if !maze.HasStartAndEnd() {
        return 0, 0, false, [];
      }
      ghost var b0 := maze.Model();
      SameLayoutFacts(b0, b0, b0);
      visitedCount := 0;
      pathLength := 0;
      var stack := [maze.startCell.value];
      var parentMap;
      ghost var rank;
      found, parentMap, rank := Search(stack, b0);
      if found {
        path := ReconstructPath(parentMap, rank, b0);
      } else {
        path := [];
      }
      visited, length := visitedCount, pathLength;
    }
  }

  /**
   * One processCell call from board b to board b': the popped cell is
   * skipped when visited; otherwise it is marked visited, and it is the end
   * (found) or its open unvisited neighbours are pushed and marked frontier,
   * the new ones adopted by it.
   */
  ghost predicate Turn(b0: Board, b: Board, b': Board, stack: seq<Pos>, parentMap: map<Pos, Pos>,
                       stack': seq<Pos>, parentMap': map<Pos, Pos>, found: bool) {
    Base(b0) && Initialized(b) && stack != [] && InBounds(b.size, stack[|stack| - 1]) &&
    var current, rest := stack[|stack| - 1], stack[..|stack| - 1];
    if At(b, current).isVisited then
      !found && b' == b && stack' == rest && parentMap' == parentMap
    else if current == b0.end.value then
      found && b' == WithVisited(b, current) && stack' == rest && parentMap' == parentMap
    else
      var v := WithVisited(b, current);
      var fs := OpenUnvisited(v, Neighbors(b.size, current, false));
      !found && b' == Frontiered(v, fs) && stack' == rest + fs && parentMap' == parentMap + Adopted(parentMap, fs, current)
  }

  /**
   * A Turn keeps the layout and the invariant, and either finds the end or
   * makes progress: a markable cell leaves the unvisited cells, or the
   * stack gets lighter (a popped visited cell; the walled or flagged
   * start, which outweighs the at most four cells it pushes).
   */
  lemma TurnInv(b0: Board, b: Board, b': Board, stack: seq<Pos>, parentMap: map<Pos, Pos>, rank: map<Pos, nat>, clock: nat,
                stack': seq<Pos>, parentMap': map<Pos, Pos>, found: bool)
    returns (rank': map<Pos, nat>, clock': nat)
    requires SameLayout(b0, b) && Inv(b0, stack, parentMap, rank, clock) && stack != []
    requires Turn(b0, b, b', stack, parentMap, stack', parentMap', found)
    ensures SameLayout(b0, b')
    ensures found ==> Traceable(b0, parentMap', rank')
    ensures !found ==> Inv(b0, stack', parentMap', rank', clock')
    ensures !found ==> (|Unvisited(b')| < |Unvisited(b)| ||
      (Unvisited(b') == Unvisited(b) && StackWeight(b0, stack') < StackWeight(b0, stack)))
  {
    var current, rest := stack[|stack| - 1], stack[..|stack| - 1];
    InvPop(b0, stack, parentMap, rank, clock);
    rank', clock' := rank, clock;
    if At(b, current).isVisited {
      PopLightens(b0, stack);
      return;
    }
    var v := WithVisited(b, current);
    VisitKeepsLayout(b0, b, current);
    if current == b0.end.value {
      return;
    }
    var ns := Neighbors(b.size, current, false);
    var fs := OpenUnvisited(v, ns);
    SameLayoutWalls(b0, v);
    NeighborsDistinct(b0.size, current);
    forall q | q in fs ensures Adjacent(current, q) && InBounds(b0.size, q) && !At(b0, q).isWall {
      assert q in ns;
    }
    FrontieredKeeps(b0, v, fs);
    InvPush(b0, rest, parentMap, rank, clock, current, fs);
    rank', clock' := rank + AdoptedRanks(parentMap, fs, clock), clock + 1;
    assert !At(b0, current).isEnd && (At(b0, current).isStart ==> current == b0.start.value) by {
      assert Roles(b0);
    }
    if Unmarkable(At(b, current)) {
      StartLightens(b0, stack, fs);
    } else {
      VisitShrinks(b, current);
    }
  }
}

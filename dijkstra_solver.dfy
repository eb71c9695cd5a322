/**
 * DijkstraSolver of algorithms/solving/dijkstra.js.  Each processCell call
 * is one turn of the loop in Search: dequeue the cell of least distance;
 * skip it when visited; otherwise mark it visited and count it, stop at
 * the end cell, and relax every open unvisited neighbour.
 */
module Dijkstra {
  import opened Geometry
  import opened MazeSpec
  import opened MazeGrid
  import opened StableSort
  import opened PriorityQueues
  import opened Solving
  import opened DijkstraSpec
  import opened DijkstraOptimality

  class DijkstraSolver {
    const maze: Maze
    var visitedCount: nat
    var pathLength: nat

    constructor (maze: Maze)
      ensures this.maze == maze && visitedCount == 0 && pathLength == 0
    {
      this.maze := maze;
      visitedCount := 0;
      pathLength := 0;
    }

    /** The nested loops that set every cell of the grid to Infinity. */
    method InitDistances() returns (distances: map<Pos, Cost>)
      requires maze.Ready()
      ensures AllInfinite(maze.size, distances)
    {
      distances := map[];
      var row := 0;
      while row < maze.size
        invariant 0 <= row <= maze.size
        invariant forall p :: p in distances <==> 0 <= p.row < row && 0 <= p.col < maze.size
        invariant forall p :: p in distances ==> distances[p] == Infinity
      {
        var col := 0;
        while col < maze.size
          invariant 0 <= col <= maze.size
          invariant forall p :: p in distances <==> (0 <= p.row < row && 0 <= p.col < maze.size) || (p.row == row && 0 <= p.col < col)
          invariant forall p :: p in distances ==> distances[p] == Infinity
        {
          distances := distances[Pos(row, col) := Infinity];
          col := col + 1;
        }
        row := row + 1;
      }
    }

    /** `current.isVisited = true`: the flag is written whatever the cell holds. */
    method SetVisitedFlag(p: Pos)
      requires maze.Valid() && InBounds(maze.grid.Length0, p)
      modifies maze.grid
      ensures maze.Valid() && maze.Model() == WithVisitedFlag(old(maze.Model()), p)
    {
      ghost var b := maze.Model();
      var cell := maze.grid[p.row, p.col];
      maze.grid[p.row, p.col] := cell.(isVisited := true);
      maze.MirrorsModel(WithVisitedFlag(b, p));
    }

    /**
     * One turn of the for loop: on a strictly smaller distance through
     * current, the distance, the parent and the queue change together and
     * the neighbour is marked frontier; the new state is Relax of the old.
     */
    method RelaxNeighbor(queue: PriorityQueue<Pos>, parentMap: map<Pos, Pos>, distances: map<Pos, Cost>, current: Pos, neighbor: Pos)
      returns (parentMap': map<Pos, Pos>, distances': map<Pos, Cost>)
      requires maze.Ready() && queue.Valid()
      requires current in distances && InBounds(maze.size, neighbor) && neighbor in distances
      modifies maze.grid, queue
      ensures maze.Ready() && queue.Valid()
      ensures Scan(maze.Model(), queue.elements, parentMap', distances') ==
        Relax(Scan(old(maze.Model()), old(queue.elements), parentMap, distances), current, neighbor)
    {
      parentMap', distances' := parentMap, distances;
      var newDistance := Succ(distances[current]);
      if Below(newDistance, distances[neighbor]) {
        distances' := distances[neighbor := newDistance];
        parentMap' := parentMap[neighbor := current];
        queue.Enqueue(neighbor, newDistance.n);
        maze.MarkFrontier(neighbor.row, neighbor.col);
      }
    }

    /**
     * The for loop over the filtered neighbours fs of current, one
     * RelaxNeighbor each: the state after the loop is RelaxAll of the state
     * before it.
     */
    method RelaxNeighbors(queue: PriorityQueue<Pos>, parentMap: map<Pos, Pos>, distances: map<Pos, Cost>, current: Pos, fs: seq<Pos>)
      returns (parentMap': map<Pos, Pos>, distances': map<Pos, Cost>)
      requires maze.Ready() && queue.Valid()
      requires current in distances && forall q :: q in fs ==> InBounds(maze.size, q) && q in distances
      modifies maze.grid, queue
      ensures maze.Ready() && queue.Valid()
      ensures Scan(maze.Model(), queue.elements, parentMap', distances') ==
        RelaxAll(Scan(old(maze.Model()), old(queue.elements), parentMap, distances), current, fs)
    {
      ghost var st0 := Scan(maze.Model(), queue.elements, parentMap, distances);
      parentMap', distances' := parentMap, distances;
      var i := 0;
      assert fs[..0] == [];
      while i < |fs|
        invariant 0 <= i <= |fs| && maze.Ready() && queue.Valid()
        invariant Scan(maze.Model(), queue.elements, parentMap', distances') == RelaxAll(st0, current, fs[..i])
      {
        RelaxAllSnoc(st0, current, fs, i);
        parentMap', distances' := RelaxNeighbor(queue, parentMap', distances', current, fs[i]);
        i := i + 1;
      }
      assert fs[..i] == fs;
    }

    /** markVisited and then `current.isVisited = true`: the board becomes Visit of the old one. */
    method VisitCell(current: Pos)
      requires maze.Ready() && InBounds(maze.size, current)
      modifies maze.grid
      ensures maze.Ready() && maze.Model() == Visit(old(maze.Model()), current)
    {
      maze.MarkVisited(current.row, current.col);
      SetVisitedFlag(current);
    }

    /**
     * The rest of processCell once current is visited and is not the end:
     * getNeighbors, the filter, and the for loop of relaxations.
     */
    method Expand(queue: PriorityQueue<Pos>, parentMap: map<Pos, Pos>, distances: map<Pos, Cost>, current: Pos)
      returns (parentMap': map<Pos, Pos>, distances': map<Pos, Cost>)
      requires maze.Ready() && queue.Valid()
      requires current in distances && forall p :: InBounds(maze.size, p) ==> p in distances
      modifies maze.grid, queue
      ensures maze.Ready() && queue.Valid()
      ensures Scan(maze.Model(), queue.elements, parentMap', distances') ==
        RelaxAll(Scan(old(maze.Model()), old(queue.elements), parentMap, distances), current,
                 OpenUnvisited(old(maze.Model()), Neighbors(maze.size, current, false)))
    {
      var ns := maze.GetNeighbors(current.row, current.col, false);
      var fs := FilterOpenUnvisited(maze, ns);
      parentMap', distances' := RelaxNeighbors(queue, parentMap, distances, current, fs);
    }

    /**
     * What Advance needs: a ready maze with an end, a valid queue, and the
     * turn st from this maze whose dequeued head is the unvisited current.
     */
    ghost predicate Advanceable(queue: PriorityQueue<Pos>, parentMap: map<Pos, Pos>, distances: map<Pos, Cost>, current: Pos,
                                b0: Board, st: Scan)
      reads this, maze, maze.grid, queue
    {
      var holds := maze.Ready() && queue.Valid() && maze.endCell == b0.end && TurnFrom(b0, st) &&
        st == Scan(maze.Model(), [st.es[0]] + queue.elements, parentMap, distances) &&
        current == st.es[0].element && !At(st.b, current).isVisited;
      holds
    }

    /**
     * processCell once the dequeued cell current is found unvisited: count
     * it, mark it visited, and then either it is the end (found) or its open
     * unvisited neighbours are relaxed.
     */
    method Advance(queue: PriorityQueue<Pos>, parentMap: map<Pos, Pos>, distances: map<Pos, Cost>, current: Pos,
                   ghost b0: Board, ghost st: Scan)
      returns (parentMap': map<Pos, Pos>, distances': map<Pos, Cost>, found: bool)
      requires Advanceable(queue, parentMap, distances, current, b0, st)
      modifies this, maze.grid, queue
      ensures maze.Ready() && queue.Valid() && pathLength == old(pathLength) && visitedCount == old(visitedCount) + 1
      ensures Advanced(b0, st, Scan(maze.Model(), queue.elements, parentMap', distances'), found)
    {
      assert st.es[1..] == queue.elements;
      parentMap', distances' := parentMap, distances;
      visitedCount := visitedCount + 1;
      VisitCell(current);
      found := current == maze.endCell.value;
      if !found {
        parentMap', distances' := Expand(queue, parentMap', distances', current);
      }
    }

    /**
     * One processCell call on a non-empty queue: dequeue; a visited cell is
     * skipped without counting; otherwise Advance (Turn says exactly how).
     */
    method ProcessCell(queue: PriorityQueue<Pos>, parentMap: map<Pos, Pos>, distances: map<Pos, Cost>, ghost b0: Board)
      returns (parentMap': map<Pos, Pos>, distances': map<Pos, Cost>, found: bool)
      requires maze.Ready() && queue.Valid() && Base(b0) && Initialized(maze.Model()) && b0.size == maze.size && b0.end == maze.endCell
      requires queue.elements != [] && InBounds(b0.size, queue.elements[0].element)
      requires forall p :: InBounds(b0.size, p) ==> p in distances
      modifies this, maze.grid, queue
      ensures maze.Ready() && queue.Valid() && pathLength == old(pathLength)
      ensures Turn(b0, Scan(old(maze.Model()), old(queue.elements), parentMap, distances),
                   Scan(maze.Model(), queue.elements, parentMap', distances'), found)
      ensures visitedCount == old(visitedCount) + if At(old(maze.Model()), old(queue.elements)[0].element).isVisited then 0 else 1
    {
      ghost var st := Scan(maze.Model(), queue.elements, parentMap, distances);
      assert TurnFrom(b0, st);
      var r := queue.Dequeue();
      var current := r.value;
      assert maze.Model() == st.b && [st.es[0]] + queue.elements == st.es;
      maze.ModelCell(current);
      if maze.grid[current.row, current.col].isVisited {
        parentMap', distances', found := parentMap, distances, false;
        TurnOfSkip(b0, st);
      } else {
        parentMap', distances', found := Advance(queue, parentMap, distances, current, b0, st);
        TurnOfAdvance(b0, st, Scan(maze.Model(), queue.elements, parentMap', distances'), found);
      }
    }

    /**
     * The loop of processCell turns until the queue is empty or the end is
     * dequeued unvisited.  With the end found, parentMap is a ranked tree
     * of open steps in which the end has a parent or is the start.  Each
     * counted cell is counted once, and the cells were processed in order
     * of non-decreasing distance.
     */
    method Search(queue: PriorityQueue<Pos>, distances0: map<Pos, Cost>, ghost b0: Board)
      returns (found: bool, parentMap: map<Pos, Pos>, distances: map<Pos, Cost>, ghost log: seq<Pos>)
      requires maze.Ready() && queue.Valid() && Base(b0) && SameLayout(b0, maze.Model())
      requires Inv(b0, Scan(maze.Model(), queue.elements, map[], distances0), [], 0)
      requires Settled(b0, Scan(maze.Model(), queue.elements, map[], distances0), [], false)
      modifies this, maze.grid, queue
      ensures maze.Ready() && SameLayout(b0, maze.Model()) && pathLength == old(pathLength)
      ensures found ==> Traceable(b0, parentMap, Ranks(parentMap, distances))
      ensures visitedCount == old(visitedCount) + |log| && NoDuplicates(log) && InOrder(log, distances)
      ensures Exact(b0, parentMap, distances, found)
    {
      parentMap, distances, found := map[], distances0, false;
      log := [];
      ghost var last := 0;
      while !found && !queue.IsEmpty()
        invariant maze.Ready() && queue.Valid() && SameLayout(b0, maze.Model()) && pathLength == old(pathLength)
        invariant Inv(b0, Scan(maze.Model(), queue.elements, parentMap, distances), log, last)
        invariant found ==> Traceable(b0, parentMap, Ranks(parentMap, distances))
        invariant Settled(b0, Scan(maze.Model(), queue.elements, parentMap, distances), log, found)
        invariant visitedCount == old(visitedCount) + |log|
        decreases |NotVisited(maze.Model())|, |queue.elements|
      {
        ghost var st := Scan(maze.Model(), queue.elements, parentMap, distances);
        InvHead(b0, st, log, last);
        parentMap, distances, found := ProcessCell(queue, parentMap, distances, b0);
        SettledTurn(b0, st, log, last, Scan(maze.Model(), queue.elements, parentMap, distances), found);
        log, last := TurnInv(b0, st, log, last, Scan(maze.Model(), queue.elements, parentMap, distances), found);
      }
      InvLog(b0, Scan(maze.Model(), queue.elements, parentMap, distances), log, last);
      SettledExit(b0, Scan(maze.Model(), queue.elements, parentMap, distances), log, last, found);
    }

    /**
     * reconstructPath from the end: follow parentMap back to the start,
     * reverse, set pathLength, and markPath every cell in order
     * (animatePath).  The path is a walk from the start to the end that
     * leaves the start out, and each of its cells that can carry a mark
     * ends marked.
     */
    method ReconstructPath(parentMap: map<Pos, Pos>, ghost rank: map<Pos, nat>, ghost b0: Board) returns (path: seq<Pos>)
      requires maze.Ready() && SameLayout(b0, maze.Model()) && Traceable(b0, parentMap, rank)
      modifies this, maze.grid
      ensures maze.Ready() && maze.Model() == PathMarked(old(maze.Model()), Members(path))
      ensures SameLayout(b0, maze.Model()) && Found(b0, maze.Model(), path)
      ensures pathLength == |path| && visitedCount == old(visitedCount)
      ensures Chain(parentMap, b0.start.value, path, b0.end.value)
    {
      path := TracePath(maze, parentMap, rank, b0);
      pathLength := |path|;
    }

    /**
     * The set-up of solve once the start and the end exist: every distance
     * is Infinity but the start's, which is 0, and the queue holds the start
     * at priority 0.
     */
    method Begin(ghost b0: Board) returns (queue: PriorityQueue<Pos>, distances: map<Pos, Cost>)
      requires maze.Ready() && maze.HasStartAndEnd() && b0 == maze.Model()
      ensures fresh(queue) && queue.Valid() && Starting(b0, maze.Model())
      ensures queue.elements == [Entry(b0.start.value, 0)]
      ensures Inv(b0, Scan(maze.Model(), queue.elements, map[], distances), [], 0)
      ensures Settled(b0, Scan(maze.Model(), queue.elements, map[], distances), [], false)
    {
      SameLayoutFacts(b0, b0, b0);
      assert Starting(b0, b0);
      queue := new PriorityQueue<Pos>();
      distances := InitDistances();
      var s := maze.startCell.value;
      ghost var d0 := distances;
      distances := distances[s := Finite(0)];
      queue.Enqueue(s, 0);
      assert distances[s := Infinity] == d0;
      InvStart(b0, b0, d0);
      SettledStart(b0, distances);
    }

    /**
     * solve: without a start or an end nothing changes and the callback
     * gets (0, 0).  Otherwise both counts restart, the queue holds the
     * start at distance 0, and the loop of processCell runs; a found path
     * is a walk from the start to the end, and the callback gets
     * (visitedCount, pathLength).
     */
    method Solve() returns (visited: nat, length: nat, found: bool, path: seq<Pos>)
      requires maze.Ready()
      modifies this, maze.grid
      ensures maze.Ready()
      ensures !old(maze.HasStartAndEnd()) ==>
        visited == 0 && length == 0 && !found && path == [] && maze.Model() == old(maze.Model()) &&
        visitedCount == old(visitedCount) && pathLength == old(pathLength)
      ensures old(maze.HasStartAndEnd()) ==>
        Outcome(old(maze.Model()), maze.Model(), found, path) &&
        visited == visitedCount && length == pathLength == |path|
      ensures old(maze.HasStartAndEnd()) && NoneVisited(old(maze.Model())) ==>
        var b0 := old(maze.Model());
        (found <==> Reachable(WallsOf(b0), b0.start.value, b0.end.value)) &&
        (found ==> NoShorterWalk(WallsOf(b0), b0.start.value, b0.end.value, |path|))
    {
      if !maze.HasStartAndEnd() {
        return 0, 0, false, [];
      }
      ghost var b0 := maze.Model();
      visitedCount := 0;
      pathLength := 0;
      var queue, distances := Begin(b0);
      Started(b0, maze.Model());
      var parentMap;
      ghost var log;
      found, parentMap, distances, log := Search(queue, distances, b0);
      if found {
        path := ReconstructPath(parentMap, Ranks(parentMap, distances), b0);
        if NoneVisited(b0) {
          ExactPath(b0, parentMap, distances, path);
        }
      } else {
        path := [];
      }
      visited, length := visitedCount, pathLength;
    }
  }
}

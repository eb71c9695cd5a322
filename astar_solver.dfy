/**
 * AStarSolver of algorithms/solving/a-star.js.  Each processCell call is
 * one turn of the loop in Search: dequeue the cell of least fScore; stop at
 * the end cell; otherwise close it, mark it visited, count it, and relax
 * every open neighbour outside the closed set.
 */
module AStar {
  import opened Geometry
  import opened MazeSpec
  import opened MazeGrid
  import opened StableSort
  import opened PriorityQueues
  import opened Solving
  import opened AStarSpec

  class AStarSolver {
    const maze: Maze
    var visitedCount: nat
    var pathLength: nat

    constructor (maze: Maze)
      ensures this.maze == maze && visitedCount == 0 && pathLength == 0
    {
      this.maze := maze;
      visitedCount := 0;
      pathLength := 0;
    }

    /** openSet.enqueue at the given priority, then markFrontier. */
    method Admit(queue: PriorityQueue<Pos>, neighbor: Pos, priority: nat)
      requires maze.Ready() && queue.Valid() && InBounds(maze.size, neighbor)
      modifies maze.grid, queue
      ensures maze.Ready() && queue.Valid()
      ensures maze.Model() == WithFrontier(old(maze.Model()), neighbor)
      ensures queue.elements == InsertBy(old(queue.elements), Entry(neighbor, priority), Priority)
      ensures queue.elementSet == old(queue.elementSet) + {neighbor}
    {
      queue.Enqueue(neighbor, priority);
      maze.MarkFrontier(neighbor.row, neighbor.col);
    }

    /**
     * One turn of the for loop: on a first gScore or a strictly smaller one
     * through current, the parent, gScore and fScore change together, and a
     * neighbour the open set does not contain is enqueued at its fScore and
     * marked frontier; the new state is Relax of the old.
     */
    method RelaxNeighbor(queue: PriorityQueue<Pos>, closed: set<Pos>, parentMap: map<Pos, Pos>, gScore: map<Pos, nat>,
                         fScore: map<Pos, nat>, current: Pos, neighbor: Pos)
      returns (parentMap': map<Pos, Pos>, gScore': map<Pos, nat>, fScore': map<Pos, nat>)
      requires maze.Ready() && queue.Valid() && maze.endCell.Some?
      requires current in gScore && InBounds(maze.size, neighbor)
      modifies maze.grid, queue
      ensures maze.Ready() && queue.Valid()
      ensures Scan(maze.Model(), queue.elements, queue.elementSet, closed, parentMap', gScore', fScore') ==
        Relax(Scan(old(maze.Model()), old(queue.elements), old(queue.elementSet), closed, parentMap, gScore, fScore),
              current, neighbor, maze.endCell.value)
    {
      parentMap', gScore', fScore' := parentMap, gScore, fScore;
      var tentative := gScore[current] + 1;
      if neighbor !in gScore || tentative < gScore[neighbor] {
        parentMap' := parentMap[neighbor := current];
        gScore' := gScore[neighbor := tentative];
        var h := Manhattan(neighbor, maze.endCell.value);
        fScore' := fScore[neighbor := tentative + h];
        if !queue.Contains(neighbor) {
          Admit(queue, neighbor, tentative + h);
        }
      }
    }

    /**
     * The for loop over the filtered neighbours fs of current, one
     * RelaxNeighbor each: the state after the loop is RelaxAll of the state
     * before it.
     */
    method RelaxNeighbors(queue: PriorityQueue<Pos>, closed: set<Pos>, parentMap: map<Pos, Pos>, gScore: map<Pos, nat>,
                          fScore: map<Pos, nat>, current: Pos, fs: seq<Pos>)
      returns (parentMap': map<Pos, Pos>, gScore': map<Pos, nat>, fScore': map<Pos, nat>)
      requires maze.Ready() && queue.Valid() && maze.endCell.Some?
      requires current in gScore && forall q :: q in fs ==> InBounds(maze.size, q)
      modifies maze.grid, queue
      ensures maze.Ready() && queue.Valid()
      ensures Scan(maze.Model(), queue.elements, queue.elementSet, closed, parentMap', gScore', fScore') ==
        RelaxAll(Scan(old(maze.Model()), old(queue.elements), old(queue.elementSet), closed, parentMap, gScore, fScore),
                 current, fs, maze.endCell.value)
    {
      ghost var st0 := Scan(maze.Model(), queue.elements, queue.elementSet, closed, parentMap, gScore, fScore);
      ghost var end := maze.endCell.value;
      parentMap', gScore', fScore' := parentMap, gScore, fScore;
      var i := 0;
      assert fs[..0] == [];
      while i < |fs|
        invariant 0 <= i <= |fs| && maze.Ready() && queue.Valid()
        invariant Scan(maze.Model(), queue.elements, queue.elementSet, closed, parentMap', gScore', fScore') ==
          RelaxAll(st0, current, fs[..i], end)
      {
        RelaxAllSnoc(st0, current, fs, end, i);
        parentMap', gScore', fScore' := RelaxNeighbor(queue, closed, parentMap', gScore', fScore', current, fs[i]);
        i := i + 1;
      }
      assert fs[..i] == fs;
    }

    /** `.filter(cell => !cell.isWall && !closedSet.has(cell))` as a loop over the grid. */
    method FilterOpenUnclosed(closed: set<Pos>, ns: seq<Pos>) returns (fs: seq<Pos>)
      requires maze.Ready() && forall q :: q in ns ==> InBounds(maze.size, q)
      ensures fs == OpenUnclosed(maze.Model(), closed, ns)
    {
      fs := [];
      var i := 0;
      while i < |ns|
        invariant 0 <= i <= |ns|
        invariant fs == OpenUnclosed(maze.Model(), closed, ns[..i])
      {
        assert ns[..i + 1][..i] == ns[..i];
        var q := ns[i];
        maze.ModelCell(q);
        if !maze.grid[q.row, q.col].isWall && q !in closed {
          fs := fs + [q];
        }
        i := i + 1;
      }
      assert ns[..i] == ns;
    }

    /**
     * The rest of processCell once current is closed and marked visited:
     * getNeighbors, the filter, and the for loop of relaxations.
     */
    method Expand(queue: PriorityQueue<Pos>, closed: set<Pos>, parentMap: map<Pos, Pos>, gScore: map<Pos, nat>,
                  fScore: map<Pos, nat>, current: Pos)
      returns (parentMap': map<Pos, Pos>, gScore': map<Pos, nat>, fScore': map<Pos, nat>)
      requires maze.Ready() && queue.Valid() && maze.endCell.Some? && current in gScore
      modifies maze.grid, queue
      ensures maze.Ready() && queue.Valid()
      ensures Scan(maze.Model(), queue.elements, queue.elementSet, closed, parentMap', gScore', fScore') ==
        RelaxAll(Scan(old(maze.Model()), old(queue.elements), old(queue.elementSet), closed, parentMap, gScore, fScore),
                 current, OpenUnclosed(old(maze.Model()), closed, Neighbors(maze.size, current, false)), maze.endCell.value)
    {
      var ns := maze.GetNeighbors(current.row, current.col, false);
      var fs := FilterOpenUnclosed(closed, ns);
      parentMap', gScore', fScore' := RelaxNeighbors(queue, closed, parentMap, gScore, fScore, current, fs);
    }

    /**
     * What Advance needs: a ready maze with an end, a valid queue, and the
     * turn st from this maze whose dequeued head current is not the end.
     */
    ghost predicate Advanceable(queue: PriorityQueue<Pos>, closed: set<Pos>, parentMap: map<Pos, Pos>,
                                gScore: map<Pos, nat>, fScore: map<Pos, nat>, current: Pos, b0: Board, st: Scan)
      reads this, maze, maze.grid, queue
    {
      var holds := maze.Ready() && queue.Valid() && maze.endCell == b0.end && TurnFrom(b0, st) &&
        current == st.es[0].element && current != b0.end.value &&
        st.b == maze.Model() && st.es[1..] == queue.elements && st.open - {current} == queue.elementSet &&
        st.closed == closed && st.parentMap == parentMap && st.g == gScore && st.f == fScore;
      holds
    }

    /**
     * processCell once the dequeued cell current is not the end: add it to
     * the closed set, markVisited, count it, and relax its neighbours.
     */
    method Advance(queue: PriorityQueue<Pos>, closed: set<Pos>, parentMap: map<Pos, Pos>, gScore: map<Pos, nat>,
                   fScore: map<Pos, nat>, current: Pos, ghost b0: Board, ghost st: Scan)
      returns (closed': set<Pos>, parentMap': map<Pos, Pos>, gScore': map<Pos, nat>, fScore': map<Pos, nat>)
      requires Advanceable(queue, closed, parentMap, gScore, fScore, current, b0, st)
      modifies this, maze.grid, queue
      ensures maze.Ready() && queue.Valid() && pathLength == old(pathLength) && visitedCount == old(visitedCount) + 1
      ensures Expanded(b0, st, Scan(maze.Model(), queue.elements, queue.elementSet, closed', parentMap', gScore', fScore'))
    {
      closed' := closed + {current};
      maze.MarkVisited(current.row, current.col);
      visitedCount := visitedCount + 1;
      ghost var closing := st.(b := WithVisited(st.b, current), es := st.es[1..], open := st.open - {current}, closed := closed');
      assert Scan(maze.Model(), queue.elements, queue.elementSet, closed', parentMap, gScore, fScore) == closing;
      parentMap', gScore', fScore' := Expand(queue, closed', parentMap, gScore, fScore, current);
    }

    /**
     * One processCell call on a non-empty open set: dequeue; the end stops
     * the search without counting; any other cell is Advanced (Turn says
     * exactly how).
     */
    method ProcessCell(queue: PriorityQueue<Pos>, closed: set<Pos>, parentMap: map<Pos, Pos>, gScore: map<Pos, nat>,
                       fScore: map<Pos, nat>, ghost b0: Board)
      returns (closed': set<Pos>, parentMap': map<Pos, Pos>, gScore': map<Pos, nat>, fScore': map<Pos, nat>, found: bool)
      requires maze.Ready() && queue.Valid() && maze.endCell == b0.end
      requires TurnFrom(b0, Scan(maze.Model(), queue.elements, queue.elementSet, closed, parentMap, gScore, fScore))
      modifies this, maze.grid, queue
      ensures maze.Ready() && queue.Valid() && pathLength == old(pathLength)
      ensures Turn(b0, Scan(old(maze.Model()), old(queue.elements), old(queue.elementSet), closed, parentMap, gScore, fScore),
                   Scan(maze.Model(), queue.elements, queue.elementSet, closed', parentMap', gScore', fScore'), found)
      ensures visitedCount == old(visitedCount) + if found then 0 else 1
    {
      ghost var st := Scan(maze.Model(), queue.elements, queue.elementSet, closed, parentMap, gScore, fScore);
      var r := queue.Dequeue();
      var current := r.value;
      assert maze.Model() == st.b && st.es[1..] == queue.elements && st.open - {current} == queue.elementSet;
      if current == maze.endCell.value {
        closed', parentMap', gScore', fScore', found := closed, parentMap, gScore, fScore, true;
        TurnOfEnd(b0, st);
      } else {
        closed', parentMap', gScore', fScore' := Advance(queue, closed, parentMap, gScore, fScore, current, b0, st);
        found := false;
        TurnOfExpand(b0, st, Scan(maze.Model(), queue.elements, queue.elementSet, closed', parentMap', gScore', fScore'));
      }
    }

    /**
     * The loop of processCell turns until the open set is empty or the end
     * is dequeued.  With the end found, parentMap is a tree of open steps,
     * ranked by gScore, in which the end has a parent or is the start; each
     * closed cell is counted once.
     */
    method Search(queue: PriorityQueue<Pos>, gScore0: map<Pos, nat>, fScore0: map<Pos, nat>, ghost b0: Board)
      returns (found: bool, parentMap: map<Pos, Pos>, gScore: map<Pos, nat>, ghost closed: set<Pos>)
      requires maze.Ready() && queue.Valid() && maze.endCell == b0.end
      requires Inv(b0, Scan(maze.Model(), queue.elements, queue.elementSet, {}, map[], gScore0, fScore0))
      modifies this, maze.grid, queue
      ensures maze.Ready() && SameLayout(b0, maze.Model()) && pathLength == old(pathLength)
      ensures found ==> Traceable(b0, parentMap, gScore)
      ensures visitedCount == old(visitedCount) + |closed|
    {
      var closedSet, fScore;
      closedSet, parentMap, gScore, fScore, found := {}, map[], gScore0, fScore0, false;
      while !found && !queue.IsEmpty()
        invariant maze.Ready() && queue.Valid() && maze.endCell == b0.end && pathLength == old(pathLength)
        invariant Inv(b0, Scan(maze.Model(), queue.elements, queue.elementSet, closedSet, parentMap, gScore, fScore))
        invariant found ==> Traceable(b0, parentMap, gScore)
        invariant visitedCount == old(visitedCount) + |closedSet|
        decreases |NotClosed(b0, Scan(maze.Model(), queue.elements, queue.elementSet, closedSet, parentMap, gScore, fScore))|,
          |queue.elements|
      {
        ghost var st := Scan(maze.Model(), queue.elements, queue.elementSet, closedSet, parentMap, gScore, fScore);
        InvTurnFrom(b0, st);
        closedSet, parentMap, gScore, fScore, found := ProcessCell(queue, closedSet, parentMap, gScore, fScore, b0);
        TurnInv(b0, st, Scan(maze.Model(), queue.elements, queue.elementSet, closedSet, parentMap, gScore, fScore), found);
      }
      InvLayout(b0, Scan(maze.Model(), queue.elements, queue.elementSet, closedSet, parentMap, gScore, fScore));
      closed := closedSet;
    }

    /**
     * reconstructPath from the end: follow parentMap back to the start,
     * reverse, set pathLength, and markPath every cell in order
     * (animatePath).  The path is a walk from the start to the end that
     * leaves the start out, and each of its cells that can carry a mark
     * ends marked.
     */
    method ReconstructPath(parentMap: map<Pos, Pos>, ghost rank: map<Pos, nat>, ghost b0: Board) returns (path: seq<Pos>)
      requires maze.Ready() && SameLayout(b0, maze.Model()) && Traceable(b0, parentMap, rank)
      modifies this, maze.grid
      ensures maze.Ready() && maze.Model() == PathMarked(old(maze.Model()), Members(path))
      ensures SameLayout(b0, maze.Model()) && Found(b0, maze.Model(), path)
      ensures pathLength == |path| && visitedCount == old(visitedCount)
    {
      path := TracePath(maze, parentMap, rank, b0);
      pathLength := |path|;
    }

    /**
     * The set-up of solve once the start and the end exist: gScore holds
     * the start at 0, fScore holds it at its heuristic, and the open set
     * holds the start at that priority.
     */
    method Begin(ghost b0: Board) returns (queue: PriorityQueue<Pos>, gScore: map<Pos, nat>, fScore: map<Pos, nat>)
      requires maze.Ready() && maze.HasStartAndEnd() && b0 == maze.Model()
      ensures fresh(queue) && queue.Valid() && Starting(b0, maze.Model())
      ensures queue.elements == [Entry(b0.start.value, Manhattan(b0.start.value, b0.end.value))]
      ensures Inv(b0, Scan(maze.Model(), queue.elements, queue.elementSet, {}, map[], gScore, fScore))
    {
      SameLayoutFacts(b0, b0, b0);
      assert Starting(b0, b0);
      var s := maze.startCell.value;
      var h := Manhattan(s, maze.endCell.value);
      gScore := map[s := 0];
      fScore := map[s := h];
      queue := new PriorityQueue<Pos>();
      queue.Enqueue(s, h);
      InvStart(b0, b0);
    }

    /**
     * solve: without a start or an end nothing changes and the callback
     * gets (0, 0).  Otherwise both counts restart, the open set holds the
     * start, and the loop of processCell runs; a found path is a walk from
     * the start to the end, and the callback gets (visitedCount,
     * pathLength).
     */
    method Solve() returns (visited: nat, length: nat, found: bool, path: seq<Pos>)
      requires maze.Ready()
      modifies this, maze.grid
      ensures maze.Ready()
      ensures !old(maze.HasStartAndEnd()) ==>
        visited == 0 && length == 0 && !found && path == [] && maze.Model() == old(maze.Model()) &&
        visitedCount == old(visitedCount) && pathLength == old(pathLength)
      ensures old(maze.HasStartAndEnd()) ==>
        Outcome(old(maze.Model()), maze.Model(), found, path) &&
        visited == visitedCount && length == pathLength == |path|
    {
      if !maze.HasStartAndEnd() {
        return 0, 0, false, [];
      }
      ghost var b0 := maze.Model();
      visitedCount := 0;
      pathLength := 0;
      var queue, gScore, fScore := Begin(b0);
      Started(b0, maze.Model());
      var parentMap;
      ghost var closed;
      found, parentMap, gScore, closed := Search(queue, gScore, fScore, b0);
      if found {
        path := ReconstructPath(parentMap, gScore, b0);
      } else {
        path := [];
      }
      visited, length := visitedCount, pathLength;
    }
  }
}

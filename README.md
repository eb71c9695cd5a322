# MazeViz in Dafny

A verified model of the algorithmic layer of MazeViz, a browser application
that generates square grid mazes and animates their solution. The model
covers:

- **The maze grid** (`Maze` of scripts/maze.js). A `size x size` grid of cells.
  Each cell has wall, start, end, visited, frontier and path flags, a distance
  and a parent. The `startCell`/`endCell` references belong to the grid.
  The class `MazeGrid.Maze` keeps the grid in an `array2<Cell>`. Each method is
  proved against a function on the value view `MazeSpec.Board`. The methods
  are `initialize`, the guarded `setWall`/`setStart`/`setEnd`, the mark
  methods, `resetVisited`, `getNeighbors`, the breadth-first `hasValidPath`,
  and `export`/`import`.
- **Kruskal's helpers.** The union-find forest `UnionFind.DisjointSets` keeps
  its parent and rank arrays and uses path compression and union by rank.
  The Fisher-Yates `shuffleArray` works on an array in place.
- **The four generators.**
  - Prim's frontier growth (`Prim`).
  - Kruskal's edge union (`Kruskal`).
  - The explicit-stack backtracker (`Backtracking`, with its walk in
    `BacktrackingSpec`).
  - The recursive carver (`DfsGeneration`).

  Each one fills the grid with walls, carves odd cells and the walls between
  them, and then widens around the start and the end. `Carving` and
  `Generators` hold the steps they share.
- **The fallback L-shaped carver** `createPathBetweenStartAndEnd` of
  scripts/main.js (`LPath`).
- **The class solvers** of algorithms/solving/:
  - A* with its sorted-array priority queue (`AStar`, `AStarSpec`,
    `PriorityQueues`, `StableSort`);
  - Dijkstra (`Dijkstra`, `DijkstraSpec`, with its shortest-path proof in
    `DijkstraOptimality`);
  - breadth-first search (`BreadthFirst`, `BreadthFirstSpec`, with its
    shortest-path proof in `BreadthFirstOptimality`);
  - depth-first search (`DepthFirst`, `DepthFirstSpec`);
  - the right-hand wall follower (`WallFollower`).

  `Solving` holds what these solvers share: the filters, the traceable parent
  tree, and the found-path outcome.
- **The alternate solvers** of algorithms/a-star.js, algorithms/dijkstra.js
  and algorithms/depth-first.js (`AsyncAStar`, `AsyncDijkstra`,
  `AsyncDepthFirst`). They share one `reconstructPath` (`AsyncSearch`).

## How the solvers are modelled

Each `setTimeout`-scheduled `processCell`/`processStep` call becomes one turn
of a loop in `Search` (or `Walk` for the wall follower). How a turn is proved
differs by solver:

- A*, Dijkstra and depth-first search: the turn is a method `ProcessCell`.
  Every call is proved to be one `Turn`, a relation on value states (board,
  queue or stack, parent map and score maps). The lemma `TurnInv` carries the
  spec module's `Inv` across a turn and shows that the loop measure falls.
- Breadth-first search: the turn is the loop body itself, which shifts the
  head and calls `Expand`. The lemma `BreadthFirstSpec.InvStep` carries `Inv`
  across the expansion and shows that the measure falls.
- The wall follower: the lemma `WallFollower.WalkOn` carries the predicate
  `Walking` across one step of the right-hand rule. There is no `Inv` and no
  `Turn`.

Dijkstra and breadth-first search are also proved to return a shortest path.
This holds when they start from a board without visited cells, as the
`resetVisited` call in scripts/main.js leaves it. Each keeps a ghost
bookkeeping beside its loop:

- Dijkstra: the processed cells with their distances (`Settled`).
- Breadth-first search: the depth of every seen cell and of every queue entry
  (`Layered`).

`reconstructPath` follows the parents back from
the end cell, reverses the result and marks it as the path. Its result is
proved to be a walk of open cells from the start to the end that leaves the
start out. `pathLength` is proved to be the length of that walk. The
callback's `(visitedCount, pathLength)` become out-parameters of `Solve`.

The alternate solvers write scratch fields on the cells. The model keeps those
fields in maps of a datatype instead, and the maze is only read. These solvers
do not filter walls, so their paths are walks over the grid (`GridWalk`), not
walks over open cells.

Randomness becomes a nondeterministic choice inside the model:
- `Math.random()` indices are `:|` choices;
- the 70% widening coin is an `if *`;
- the random odd start of Prim, the backtracker and the recursive carver is
  drawn inside the generator, as a `:|` choice of a real `u` with
  `0.0 <= u < 1.0` that stands for `Math.random()`. It goes through the
  corrected start formula (see Findings).

Every contract holds for every possible choice.

`Infinity` becomes a missing map key or the `Cost` value `Infinity`.

## Model

| member | source | states |
|---|---|---|
| Geometry.InAllCells | scripts/maze.js:28-45 | every in-bounds position is one of the size x size cells initialize builds |
| Geometry.FewerUnseen | scripts/maze.js:318-320 | marking one more unseen cell visited shrinks the unseen part of the grid by exactly one, the measure of every search loop |
| Geometry.ReachableRefl | scripts/maze.js:304-313 | the start cell reaches itself, so a search whose start is its end answers yes |
| Geometry.ReachableStep | scripts/maze.js:316-321 | a walk extended by one open orthogonal neighbour is a walk, the step every search takes |
| Geometry.ReachableTrans | scripts/maze.js:307-323 | walks join end to end |
| Geometry.ClosedContainsWalk | scripts/maze.js:307-326 | a walk that starts in a set closed under open orthogonal steps ends in it |
| Geometry.ClosedContainsReachable | scripts/maze.js:325-326 | a set that contains the start and is closed under open steps contains every reachable cell, which is why an exhausted search may answer no |
| Geometry.Manhattan | algorithms/a-star.js:107-110 | the Manhattan heuristic is zero exactly on the goal |
| Geometry.ManhattanStep | algorithms/solving/a-star.js:128-130 | the heuristic is consistent: one orthogonal step changes it by at most one |
| Geometry.WalkAtLeastManhattan | algorithms/solving/a-star.js:128-130 | the heuristic is admissible: no walk between two cells is shorter than their Manhattan distance |
| Geometry.WalkInBounds | scripts/maze.js:262-291 | every cell of a walk on the square grid is in bounds, as getNeighbors only yields in-grid cells |
| MazeSpec.WallsOf | scripts/maze.js:318 | the wall snapshot is open exactly where the cell's isWall flag is false |
| MazeSpec.SameWalls | scripts/maze.js:201-253 | two boards whose cells agree on isWall have the same snapshot |
| MazeSpec.Put | scripts/maze.js:139-146 | writing one cell changes that cell only and keeps the size and both references |
| MazeSpec.InitialBoard | scripts/maze.js:24-55 | initialize builds size x size blank cells, flags (1,1) start and (size-2,size-2) end, references both and satisfies the role invariant |
| MazeSpec.WithWall | scripts/maze.js:139-146 | setWall leaves the board unchanged on a start or end cell and otherwise changes only that cell's isWall; the role invariant is kept |
| MazeSpec.ClearStart | scripts/maze.js:155-157 | the old start cell loses its isStart flag and nothing else changes |
| MazeSpec.ClearEnd | scripts/maze.js:175-177 | the old end cell loses its isEnd flag and nothing else changes |
| MazeSpec.WithStart | scripts/maze.js:153-166 | setStart clears the old flag, then moves the reference only when the target is neither wall nor end; only isStart flags change |
| MazeSpec.WithStartRoles | scripts/maze.js:153-166 | after setStart exactly the accepted target is flagged start (no cell when refused) and the role invariant holds |
| MazeSpec.WithEnd | scripts/maze.js:173-186 | setEnd clears the old flag, then moves the reference only when the target is neither wall nor start; only isEnd flags change |
| MazeSpec.WithEndRoles | scripts/maze.js:173-186 | after setEnd exactly the accepted target is flagged end (no cell when refused) and the role invariant holds |
| MazeSpec.WithVisited | scripts/maze.js:201-209 | markVisited ignores walls, start and end; otherwise it sets isVisited and clears isFrontier on that cell only; walls and roles kept |
| MazeSpec.WithFrontier | scripts/maze.js:216-223 | markFrontier ignores walls, start and end; otherwise it sets isFrontier on that cell only |
| MazeSpec.WithPathMark | scripts/maze.js:230-237 | markPath ignores walls, start and end; otherwise it sets isPath on that cell only |
| MazeSpec.Reset | scripts/maze.js:242-253 | resetVisited clears the visited, frontier and path marks, the distance and the parent of every cell; walls and roles stay |
| MazeSpec.ResetIdempotent | scripts/maze.js:242-253 | resetting twice is resetting once |
| MazeSpec.InBoundsShifts | scripts/maze.js:280-288 | the kept cells are exactly the in-bounds shifts by the tried offsets, at most one per offset |
| MazeSpec.InBoundsShiftsSnoc | scripts/maze.js:280-288 | one more offset appends its cell exactly when that cell is in bounds |
| MazeSpec.InBoundsShiftsOrdered | scripts/maze.js:280-288 | the kept cells appear in the order of their offsets |
| MazeSpec.Neighbors | scripts/maze.js:262-291 | getNeighbors returns exactly the in-bounds orthogonal neighbours, plus the diagonal ones when asked, at most 4 (8) |
| MazeSpec.NeighborsOrdered | scripts/maze.js:264-278 | getNeighbors lists up, down, left, right, then up-left, up-right, down-left, down-right |
| MazeSpec.DiscoveredCells | scripts/maze.js:317-322 | the neighbour loop of hasValidPath queues exactly the open unvisited neighbours, once each, and afterwards every open neighbour is visited |
| MazeSpec.DiscoveredCount | scripts/maze.js:317-322 | every queued cell leaves the unvisited part of the grid |
| MazeSpec.SearchStart | scripts/maze.js:303-305 | the search starts with only the start cell visited and queued |
| MazeSpec.SearchFound | scripts/maze.js:308-313 | a dequeued end cell is reachable, so answering true is right |
| MazeSpec.SearchExhausted | scripts/maze.js:307-326 | with the queue empty the end is unreachable, so answering false is right |
| MazeSpec.SearchStep | scripts/maze.js:307-323 | one dequeue-and-expand step keeps the search invariant and lowers the measure (unvisited cells, then queue length) |
| MazeSpec.RowCells | scripts/maze.js:340 | the inner loop of export visits columns 0..size-1 in order |
| MazeSpec.GridCells | scripts/maze.js:339-355 | the nested loops of export visit every cell once in row-major order |
| MazeSpec.WallsAmong | scripts/maze.js:343-345 | the pushed walls are exactly the scanned wall cells, in scan order |
| MazeSpec.SortedPrefixBefore | scripts/maze.js:339-355 | in row-major order the earlier cells come before the last one |
| MazeSpec.SortedSnoc | scripts/maze.js:343-345 | pushing a later cell keeps the wall list in row-major order |
| MazeSpec.ScanRoleFound | scripts/maze.js:347-353 | the start (end) export is the last flagged cell scanned, and null only when no scanned cell is flagged |
| MazeSpec.ScanRoleIsFlagged | scripts/maze.js:347-353 | under the role invariant the exported start (end) is exactly the one flagged cell |
| MazeSpec.ExportBoard | scripts/maze.js:333-363 | export lists exactly the wall cells in row-major order, and the flagged start and end or null |
| MazeSpec.Scanned | scripts/maze.js:339-341 | every cell export reads is in bounds |
| MazeSpec.ScannedNext | scripts/maze.js:340 | one more column scans one more cell |
| MazeSpec.ScannedNextRow | scripts/maze.js:339 | finishing a row is starting the next |
| MazeSpec.WallsAmongSnoc | scripts/maze.js:343-345 | one more scanned cell adds it to the walls exactly when it is a wall |
| MazeSpec.ScanWallsIsExport | scripts/maze.js:339-355 | the cell-by-cell scan pushes the walls export lists |
| MazeSpec.ScanAll | scripts/maze.js:357-362 | after the full scan export returns the collected walls, start and end |
| MazeSpec.EntryPos | scripts/maze.js:381-382 | an entry is used exactly when it has two coordinates inside the grid |
| MazeSpec.ApplyWall | scripts/maze.js:381-385 | one wall entry keeps the size, both references and the role invariant |
| MazeSpec.ApplyWalls | scripts/maze.js:381-385 | the wall loop keeps the size, both references and the role invariant |
| MazeSpec.ApplyStart | scripts/maze.js:388-393 | the start line of import keeps the board initialized with the role invariant |
| MazeSpec.ApplyEnd | scripts/maze.js:389-397 | the end line of import keeps the board initialized with the role invariant |
| MazeSpec.ImportBoard | scripts/maze.js:369-398 | import fails with an invalid-format error exactly when a field is missing; a successful import leaves an initialized board of the file's size with the role invariant |
| MazeSpec.ApplyWallsFromInitial | scripts/maze.js:377-385 | after the wall loop the walls are exactly the in-range listed cells except (1,1) and (size-2,size-2), which setWall refuses |
| MazeSpec.SortedFirst | scripts/maze.js:339-355 | a member of a row-major list is its first entry or after it |
| MazeSpec.SortedUnique | scripts/maze.js:339-355 | two row-major lists with the same members are equal, so export's wall list is determined by the wall set |
| MazeSpec.ExportedEntries | scripts/maze.js:381-385 | every exported wall entry is in range, so import's wall loop sees exactly the exported walls |
| MazeSpec.ExportedFields | scripts/maze.js:369-374 | an export has every field import asks for, with in-range start and end |
| MazeSpec.ImportedWalls | scripts/maze.js:377-385 | importing an export's walls onto a fresh grid rebuilds exactly those walls |
| MazeSpec.PlaceRoles | scripts/maze.js:391-397 | setStart then setEnd on open cells leaves both flagged and referenced and no wall changed |
| MazeSpec.ImportInRange | scripts/maze.js:369-398 | import of a complete file with in-range start and end is initialize, the walls, setStart, setEnd |
| MazeSpec.ImportedExport | scripts/maze.js:333-398 | importing an export rebuilds the walls and puts start and end back, given distinct roles, a start not on (size-2,size-2) and no wall on the default cells |
| MazeSpec.RoundTrip | scripts/maze.js:333-398 | under those conditions export(import(export(b))) == export(b) |
| MazeGrid.AddShift | scripts/maze.js:281-287 | one offset of the getNeighbors loop appends the shifted cell when it is in bounds |
| MazeGrid.Maze.MirrorsModel | scripts/maze.js:24-45 | a grid that agrees with a board cell by cell has that board as its value |
| MazeGrid.Maze.constructor | scripts/maze.js:11-19 | the constructor stores the size with an empty grid and no start or end |
| MazeGrid.Maze.Initialize | scripts/maze.js:24-55 | initialize allocates a fresh size x size grid whose value is InitialBoard(size) |
| MazeGrid.Maze.SetWall | scripts/maze.js:139-146 | the new maze is WithWall of the old one |
| MazeGrid.Maze.SetStart | scripts/maze.js:153-166 | the new maze is WithStart of the old one, in the same grid |
| MazeGrid.Maze.SetEnd | scripts/maze.js:173-186 | the new maze is WithEnd of the old one, in the same grid |
| MazeGrid.Maze.MarkVisited | scripts/maze.js:201-209 | the new maze is WithVisited of the old one |
| MazeGrid.Maze.MarkFrontier | scripts/maze.js:216-223 | the new maze is WithFrontier of the old one |
| MazeGrid.Maze.MarkPath | scripts/maze.js:230-237 | the new maze is WithPathMark of the old one |
| MazeGrid.Maze.ResetVisited | scripts/maze.js:242-253 | the new maze is Reset of the old one |
| MazeGrid.Maze.GetNeighbors | scripts/maze.js:262-291 | the loop returns Neighbors(size, cell, includeDiagonals) |
| MazeGrid.Maze.ModelCell | scripts/maze.js:24-45 | cell (row, col) of the value is grid[row][col] |
| MazeGrid.Maze.ModelAt | scripts/maze.js:318 | the snapshot is open exactly where the grid has no wall |
| MazeGrid.Maze.VisitNeighbor | scripts/maze.js:318-321 | an open unvisited neighbour is marked visited and queued; the visited matrix keeps standing for the seen set |
| MazeGrid.Maze.ExploreAt | scripts/maze.js:317-322 | neighbour i of the loop moves one step along Discovered |
| MazeGrid.Maze.ExploreNeighbors | scripts/maze.js:316-322 | the neighbour loop queues Discovered and marks Marked of the orthogonal neighbours |
| MazeGrid.Maze.Search | scripts/maze.js:303-326 | the breadth-first loop answers true exactly when the end is reachable from the start |
| MazeGrid.Maze.HasValidPath | scripts/maze.js:297-327 | hasValidPath is true exactly when start and end are set and the end is reachable from the start through non-wall cells |
| MazeGrid.Maze.Export | scripts/maze.js:333-363 | the loop returns ExportBoard of the maze |
| MazeGrid.Maze.SetWalls | scripts/maze.js:381-385 | the wall loop of import leaves ApplyWalls of the old maze |
| MazeGrid.Maze.SetStartEntry | scripts/maze.js:388-393 | the start line of import leaves ApplyStart of the old maze |
| MazeGrid.Maze.SetEndEntry | scripts/maze.js:389-397 | the end line of import leaves ApplyEnd of the old maze |
| MazeGrid.Maze.Import | scripts/maze.js:369-398 | import reports an error exactly when ImportBoard fails; a missing field changes nothing; a size below 2 leaves the partial grid initialize built; otherwise the maze is ImportBoard's board |
| Shuffle.Swapped | algorithms/generation/kruskal.js:162 | one Fisher-Yates swap exchanges two entries, keeps the others and keeps the multiset |
| Shuffle.ShuffleArray | algorithms/generation/kruskal.js:159-164 | shuffleArray permutes the array in place: the same elements, each as often |
| UnionFind.CeilHalf | algorithms/generation/kruskal.js:110 | Math.ceil(size / 2) is the h with 2h-1 <= size <= 2h |
| UnionFind.CellCount | algorithms/generation/kruskal.js:110 | the constructor allocates ceil(size/2)^2 elements |
| UnionFind.Relabel | algorithms/generation/kruskal.js:144-151 | moving one set into another changes exactly the representatives of its members |
| UnionFind.RelabelJoins | algorithms/generation/kruskal.js:137-152 | after a union two elements share a set exactly when they did before or each was in one of the two merged sets |
| UnionFind.RelabelCoarser | algorithms/generation/kruskal.js:137-152 | a union never separates elements that shared a set |
| UnionFind.RelabelClasses | algorithms/generation/kruskal.js:137-152 | a union of two different sets leaves exactly one set fewer |
| UnionFind.Identity | algorithms/generation/kruskal.js:113 | every element starts as its own parent |
| UnionFind.IdentityClasses | algorithms/generation/kruskal.js:113 | the initial partition of n elements has n sets |
| UnionFind.Compress | algorithms/generation/kruskal.js:125-128 | path compression keeps the forest invariant (parents in range, roots self-parented, ranks strictly rising towards the root) |
| UnionFind.Deepened | algorithms/generation/kruskal.js:144-151 | hanging one tree under another root deepens exactly its members by one |
| UnionFind.Link | algorithms/generation/kruskal.js:144-151 | linking a lower-or-equal-rank root under another, with the rank bump on a tie, keeps the forest invariant |
| UnionFind.DisjointSets.constructor | algorithms/generation/kruskal.js:108-117 | ceil(size/2)^2 fresh elements, each its own parent with rank 0 |
| UnionFind.DisjointSets.Find | algorithms/generation/kruskal.js:124-130 | find returns the representative of x, a root, and changes parent entries only to their representatives |
| UnionFind.DisjointSets.Union | algorithms/generation/kruskal.js:137-152 | union puts x and y in one set without splitting any: afterwards two elements share a set exactly when they did before or each was in the set of x or of y; equal roots change nothing; otherwise the lower-rank root goes under the other, and on a tie y's root goes under x's, whose rank grows by one |
| UnionFind.DisjointSets.LinkRoots | algorithms/generation/kruskal.js:144-151 | one root hung under the other: the parent array changes in that entry only, ranks grow only on a tie |
| UnionFind.MergedCases | algorithms/generation/kruskal.js:137-152 | relabelling x's set to y's root, y's set to x's root, or nothing when they share a root, each merges exactly the sets of x and y |
| Kruskal.CandidateShape | algorithms/generation/kruskal.js:34-48 | both ends of a listed edge are odd cells two apart, and its wall lies between them, in bounds |
| Kruskal.WrittenIndexMisses | algorithms/generation/kruskal.js:58-59 | the index as written is fractional for (1,1) at size 4 and is 9, one past the 9 elements, for (3,3) at size 5 |
| Kruskal.SetIndex | algorithms/generation/kruskal.js:58-59 | the corrected index of every odd cell is one of the allocated elements |
| Kruskal.IndexBound | algorithms/generation/kruskal.js:110 | row r, column c of an h x h table indexes below h*h |
| Kruskal.SetIndexInjective | algorithms/generation/kruskal.js:58-59 | different odd cells get different corrected indices |
| Kruskal.RowsApart | algorithms/generation/kruskal.js:58-59 | a later row of the index starts after every entry of an earlier one |
| Kruskal.EdgeWalls | algorithms/generation/kruskal.js:56 | the walls of the edge list, in order |
| Kruskal.CellEdges | algorithms/generation/kruskal.js:34-48 | the pushes at one odd cell are exactly the candidate edges leaving it |
| Kruskal.ListsOddStep | algorithms/generation/kruskal.js:29-31 | one more odd cell of the row is listed |
| Kruskal.ListsCandidatesStep | algorithms/generation/kruskal.js:33-48 | one more odd cell's edges are listed |
| Kruskal.ListsRowDone | algorithms/generation/kruskal.js:28-29 | past the last column a row of odd cells is complete |
| Kruskal.OddCounterStep | algorithms/generation/kruskal.js:28-29 | row += 2 and col += 2 stay odd and stop one past the last value below size |
| Kruskal.CarveOddCells | algorithms/generation/kruskal.js:28-50 | the odd-cell loops open exactly the odd cells and list exactly the candidate edges |
| Kruskal.FinishedLists | algorithms/generation/kruskal.js:28-50 | after the last row every odd cell and every candidate is listed |
| Kruskal.RowStart | algorithms/generation/kruskal.js:29 | column 0 holds no odd cell, so a row's loop may start at column 1 |
| Kruskal.RowDone | algorithms/generation/kruskal.js:28-29 | the loop state carries from the end of one odd row to the next |
| Kruskal.CarveRow | algorithms/generation/kruskal.js:29-49 | one row of the odd-cell loop keeps the loop state |
| Kruskal.CarveCell | algorithms/generation/kruskal.js:31-48 | one odd cell is opened and its edges are listed |
| Kruskal.PushEdges | algorithms/generation/kruskal.js:34-48 | the two pushes append exactly the cell's candidate edges |
| Kruskal.OpenWalls | algorithms/generation/kruskal.js:67 | opening carved walls keeps the board initialized with its references |
| Kruskal.WallsInBounds | algorithms/generation/kruskal.js:38 | every listed wall is in bounds |
| Kruskal.OpenWallsSnoc | algorithms/generation/kruskal.js:67 | opening one more carved wall is setWall(wall, false) on the previous board |
| Kruskal.JoinEdges | algorithms/generation/kruskal.js:56-69 | the union loop opens exactly the walls of the edges whose union succeeded, each of them one less set; afterwards every listed edge joins cells of one set, and starting from singleton sets the sets are exactly the cells the carved edges link and the carved edges form a forest |
| Kruskal.JoinedPrefix | algorithms/generation/kruskal.js:56-69 | after processing edge i every edge so far joins cells of one set |
| Kruskal.CoarserJoined | algorithms/generation/kruskal.js:62-64 | cells of one set stay in one set after later unions |
| Kruskal.JoinEdge | algorithms/generation/kruskal.js:58-68 | one edge is appended to the carved list and its wall opened exactly when find tells its cells apart, otherwise nothing changes; the two sets are merged either way |
| Kruskal.OpenEdge | algorithms/generation/kruskal.js:67 | removing the wall of a joining edge extends the carved list and the board accordingly |
| Kruskal.TryUnion | algorithms/generation/kruskal.js:62-64 | the union happens exactly when find tells the two cells apart; the sets afterwards are the old ones with those two merged, and the number of sets drops by one exactly when they were joined |
| Kruskal.GenerateKruskal | algorithms/generation/kruskal.js:13-98 | after the fill the generator opens only odd cells, carved walls and cells around start and end; every odd cell, every carved wall, the start and the end are open; no carved edge closes a cycle (each joins cells the earlier ones did not link) and the carved edges link every pair of odd cells: a spanning tree of the odd cells |
| Kruskal.JoinAll | algorithms/generation/kruskal.js:22-69 | afterwards every candidate edge joins cells of one set, carved edges plus remaining sets number ceil(size/2)^2, and the sets are exactly the cells linked by carved edges, which form a forest |
| Kruskal.Shuffled | algorithms/generation/kruskal.js:52-53 | the shuffled edge list has the same edges, each as often |
| Kruskal.CandidatesListed | algorithms/generation/kruskal.js:56 | every entry of the listed edges is a candidate |
| Kruskal.AllJoined | algorithms/generation/kruskal.js:56-69 | an edge list of all candidates all joined means every candidate is joined |
| Kruskal.KruskalOpens | algorithms/generation/kruskal.js:13-94 | the fill, the odd cells, the carved walls and the widening compose to opening exactly those cells |
| Kruskal.CarvedWallsListed | algorithms/generation/kruskal.js:67 | the walls of the carved edges as a set |
| Kruskal.LinkedRefl | algorithms/generation/kruskal.js:62-67 | every cell is linked to itself by any carved list |
| Kruskal.LinkedEdge | algorithms/generation/kruskal.js:62-67 | the two cells of a carved edge are linked, both ways round |
| Kruskal.LinkedSym | algorithms/generation/kruskal.js:62-67 | being linked by carved edges is symmetric |
| Kruskal.LinkedTrans | algorithms/generation/kruskal.js:62-67 | being linked by carved edges is transitive |
| Kruskal.LinkedNone | algorithms/generation/kruskal.js:62-67 | with no carved edge a cell is linked only to itself |
| Kruskal.LinkedMore | algorithms/generation/kruskal.js:62-67 | carving one more edge keeps every link |
| Kruskal.LinkedSnoc | algorithms/generation/kruskal.js:62-67 | after carving edge e two cells are linked exactly when they were already, or one end of e is linked to one cell and the other end to the other |
| Kruskal.ChainedVia | algorithms/generation/kruskal.js:62-67 | a chain of cells over the carved edges plus e links its ends the old way or through e |
| Kruskal.ViaExtends | algorithms/generation/kruskal.js:62-67 | a link through e followed by an old link is again a link through e |
| Kruskal.ForestSnoc | algorithms/generation/kruskal.js:62-67 | carving an edge whose cells were not yet linked keeps the carved edges a forest |
| Kruskal.IdentityPartitioned | algorithms/generation/kruskal.js:108-117 | with every cell its own set and nothing carved, two cells share a set exactly when they are linked, that is, equal |
| Kruskal.JoinStep | algorithms/generation/kruskal.js:58-68 | one turn of the loop, from sets that are exactly the linked classes: the union joins two different sets exactly when the cells were not linked, and the merged sets are the linked classes of the carved list with the edge appended in that case |
| Kruskal.TrackedStep | algorithms/generation/kruskal.js:58-68 | one turn of the loop keeps the sets equal to the linked classes and the carved edges a forest |
| Kruskal.LinkedToCorner | algorithms/generation/kruskal.js:28-48 | if every candidate edge's cells are linked, every odd cell is linked to the corner cell (1, 1) |
| Kruskal.OddCellsLinked | algorithms/generation/kruskal.js:28-48 | if every candidate edge's cells are linked, every two odd cells are linked |
| Kruskal.CandidatesLinked | algorithms/generation/kruskal.js:56-69 | sets that are the linked classes and join each candidate's cells mean the carved edges link each candidate's cells |
| Carving.SameBoard | scripts/maze.js:24-45 | two initialized boards that agree on every cell and on both references are equal |
| Carving.OddCellsMembers | algorithms/generation/kruskal.js:28-31 | the odd cells are exactly the in-bounds cells with both coordinates odd |
| Carving.OddCellsListed | algorithms/generation/kruskal.js:28-31 | a list holding exactly the odd cells has the odd cells as its set |
| Carving.Filled | algorithms/generation/prim.js:15-19 | the fill applies setWall(_, _, true) to every cell and keeps the references |
| Carving.FilledWalls | algorithms/generation/prim.js:15-19 | after the fill a cell is a wall exactly when it holds neither role, and no role flag moves |
| Carving.FilledRoles | algorithms/generation/prim.js:15-19 | the fill keeps the role invariant |
| Carving.FillScan | algorithms/generation/prim.js:15-19 | part-way through the fill the cells already passed are filled and the rest untouched |
| Carving.FillScanStart | algorithms/generation/prim.js:15 | before the first setWall nothing is filled |
| Carving.FillScanStep | algorithms/generation/prim.js:17 | one setWall(row, col, true) moves the fill on by one cell |
| Carving.FillScanRow | algorithms/generation/prim.js:16 | the end of one row is the start of the next |
| Carving.FillScanComplete | algorithms/generation/prim.js:15-19 | after the last row the whole board is filled |
| Carving.OpensRefl | algorithms/generation/prim.js:68-91 | a step that changes nothing only opens walls |
| Carving.OpensTrans | algorithms/generation/prim.js:13-95 | steps that only open walls compose, opening the union of their cells |
| Carving.OpensTransAll | algorithms/generation/prim.js:13-95 | two steps that only remove walls only remove walls |
| Carving.OpensWider | algorithms/generation/prim.js:13-95 | opening within S is opening within any larger set |
| Carving.OpensWithWall | algorithms/generation/prim.js:60 | setWall(p, false) opens at most p |
| Carving.OpensKeepsRoles | algorithms/generation/prim.js:68-91 | opening walls keeps the role invariant |
| Carving.OpensOnlyRemovesWalls | algorithms/generation/prim.js:13-95 | after opening, a wall was a wall before, and a changed cell lies in the opened set |
| Carving.OpensKeepsOpen | algorithms/generation/prim.js:13-95 | an open cell stays open |
| Carving.OpensFewerWalls | algorithms/generation/prim.js:13-95 | opening never adds a wall cell, and opening a wall cell leaves strictly fewer |
| Carving.OpenEach | algorithms/generation/kruskal.js:31 | setWall(p, false) on each listed cell keeps the board initialized and the role invariant |
| Carving.OpenEachOpens | algorithms/generation/kruskal.js:31 | opening the listed cells opens at most those cells and leaves all of them open |
| Carving.OpenEachSnoc | algorithms/generation/kruskal.js:31 | opening one more cell is one more setWall(p, false) |
| Carving.OpenOne | algorithms/generation/prim.js:60 | opening one cell only removes walls and never adds a wall cell |
| Carving.OpenTwo | algorithms/generation/backtracking.js:48-53 | opening the wall between, then a cell that was a wall, leaves strictly fewer wall cells |
| Carving.OpenPair | algorithms/generation/backtracking.js:48-53 | the two setWall(_, _, false) of a carve step only open walls and leave both cells open |
| Carving.OpensKeepsReachable | scripts/main.js:222-225 | opening walls keeps every walk, so what was reachable stays reachable |
| Carving.JumpOffsets | algorithms/generation/backtracking.js:103-108 | the four offsets lead exactly to the cells two apart along a row or column |
| Carving.BetweenFacts | algorithms/generation/backtracking.js:48-49 | the cell between two cells two apart is adjacent to both, distinct from both, in bounds with them, and odd cells lead to odd cells |
| Carving.AlongRow | algorithms/generation/backtracking.js:101-124 | a set closed under two-cell moves that holds an odd cell holds every odd cell of its row |
| Carving.AlongColumn | algorithms/generation/backtracking.js:101-124 | likewise every odd cell of its column |
| Carving.JumpClosedAll | algorithms/generation/backtracking.js:101-124 | a set closed under two-cell moves that holds one odd cell holds them all |
| Generators.FillWalls | algorithms/generation/prim.js:15-19 | the fill loop leaves the maze Filled |
| Generators.FillRow | algorithms/generation/prim.js:16-18 | one row of the fill moves the scan to the next row |
| Generators.FillOne | algorithms/generation/prim.js:17 | one setWall of the fill moves the scan one cell on |
| Generators.WrittenStartOutOfBounds | algorithms/generation/prim.js:22-23 | at size 5 with random value 0.9 the written start coordinate is 5, outside the grid |
| Generators.StartCoordinate | algorithms/generation/prim.js:22-23 | the corrected start coordinate is odd and strictly inside the grid |
| Generators.FloorBelow | algorithms/generation/prim.js:22-23 | floor(u*m) lies in 0..m-1 for u in [0,1) |
| Generators.StartCoordinateEven | algorithms/generation/prim.js:22-23 | for an even size the written and the corrected coordinates agree |
| Generators.WidenAround | algorithms/generation/prim.js:69-79 | widening around a cell opens only the cell and its orthogonal neighbours, and the cell ends open |
| Generators.WidenEnds | algorithms/generation/prim.js:68-91 | the widening opens only cells around the start and end, and both end open when set |
| LPath.StepToward | scripts/main.js:246-250 | one step moves by one and brings the coordinate one closer to the target |
| LPath.RowLegStep | scripts/main.js:245-254 | one turn of the first loop adds the entered cell to the row leg |
| LPath.ColumnLegStep | scripts/main.js:257-266 | one turn of the second loop adds the entered cell to the column leg |
| LPath.EmptyLegs | scripts/main.js:245-257 | a loop that starts at its target enters no cell |
| LPath.OpenNext | scripts/main.js:253 | setWall(row, col, false) next to a reached cell opens only that cell, and the start reaches it |
| LPath.WalkedStep | scripts/main.js:245-266 | each turn keeps the loop state, adding the entered cell to the leg |
| LPath.WalkRow | scripts/main.js:245-254 | the first loop opens exactly the row leg, reaches the end's column and takes |start.col - end.col| turns |
| LPath.WalkColumn | scripts/main.js:257-266 | the second loop opens exactly the column leg, reaches the end's row and takes |row - end.row| turns |
| LPath.CreatePathBetweenStartAndEnd | scripts/main.js:234-267 | without start or end nothing changes; otherwise only the L-shaped cells are opened, all of them end open, the end becomes reachable from the start, in Manhattan(start, end) turns |
| LPath.AfterRow | scripts/main.js:255-257 | the second loop starts from the state the first left |
| LPath.LJoin | scripts/main.js:239-266 | the two legs together open the L from start to end and connect them |
| Prim.PassageScanSnoc | algorithms/generation/prim.js:142-151 | trying one more offset appends its cell exactly when that cell is an in-bounds passage |
| Prim.PassageScanPrefix | algorithms/generation/prim.js:142-151 | the scan over the first i+1 offsets is the scan over the first i plus offset i |
| Prim.PassageScanFour | algorithms/generation/prim.js:139-151 | the scan of the four offsets tests up, down, left and right in turn |
| Prim.RankAppend | algorithms/generation/prim.js:142-151 | appending a later direction keeps the directions increasing |
| Prim.PassageNeighbors | algorithms/generation/prim.js:137-154 | getPassageNeighbors returns exactly the in-bounds orthogonal neighbours that are not walls, at most four |
| Prim.PassageNeighborsOrdered | algorithms/generation/prim.js:139 | they come in the order up, down, left, right |
| Prim.CheckPassage | algorithms/generation/prim.js:143-150 | one direction appends the cell exactly when it is an in-bounds passage |
| Prim.GetPassageNeighbors | algorithms/generation/prim.js:137-154 | the loop returns PassageNeighbors of the maze |
| Prim.FrontierWallInBounds | algorithms/generation/prim.js:113-118 | a frontier wall of an in-bounds cell is in bounds |
| Prim.CheckFrontier | algorithms/generation/prim.js:109-126 | one direction appends the wall exactly when the cell beyond is an in-bounds wall and the wall is not yet listed |
| Prim.FrontierStep | algorithms/generation/prim.js:108-127 | each direction extends the list to the frontier walls of lower rank, keeps the old entries and keeps it free of duplicates |
| Prim.AddFrontierWalls | algorithms/generation/prim.js:104-128 | addFrontierWalls keeps the list as a prefix, adds at most four entries, and afterwards holds exactly the old entries plus the cell's frontier walls, without duplicates and in bounds |
| Prim.SameRank | algorithms/generation/prim.js:106 | two orthogonal neighbours in the same direction are one cell |
| Prim.Spliced | algorithms/generation/prim.js:41 | splice(k, 1) removes entry k and shifts the rest down |
| Prim.SplicedMembers | algorithms/generation/prim.js:41 | the spliced list holds only old entries and, without duplicates, no longer holds the removed one |
| Prim.OppositeIsWall | algorithms/generation/prim.js:46-58 | with one passage neighbour, the cell across the wall from it is distinct from the wall and, when in bounds, a wall |
| Prim.CarveAcross | algorithms/generation/prim.js:46-64 | the wall is opened; the cell across it is opened and its frontier walls listed when in bounds, nothing more otherwise |
| Prim.PrimStep | algorithms/generation/prim.js:36-65 | one turn removes the chosen wall from the list; the maze changes only when that wall has exactly one passage neighbour |
| Prim.GenerateMazeWithPrim | algorithms/generation/prim.js:13-95 | from an odd first cell the frontier loop only opens walls of the filled grid and leaves the first cell open; the widening then opens only cells around start and end, which end open |
| BacktrackingSpec.UnvisitedScanPrefix | algorithms/generation/backtracking.js:112-121 | the scan over i+1 offsets is the scan over i plus offset i |
| BacktrackingSpec.UnvisitedScanFour | algorithms/generation/backtracking.js:103-121 | the scan tests up, down, left and right two cells away in turn |
| BacktrackingSpec.UnvisitedNeighbors | algorithms/generation/backtracking.js:101-124 | getUnvisitedNeighbors returns exactly the unvisited in-bounds cells two apart, at most four |
| BacktrackingSpec.JumpRankAppend | algorithms/generation/backtracking.js:112-121 | appending a later direction keeps the directions increasing |
| BacktrackingSpec.UnvisitedNeighborsOrdered | algorithms/generation/backtracking.js:103-108 | they come in the order up, down, left, right |
| BacktrackingSpec.ExploredStart | algorithms/generation/backtracking.js:25-32 | the loop starts with the open first cell visited and on the stack |
| BacktrackingSpec.VisitedPush | algorithms/generation/backtracking.js:48-54 | the newly visited cell is open and reachable from the first cell |
| BacktrackingSpec.ChainPush | algorithms/generation/backtracking.js:48-57 | the pushed cell continues the stack's chain of open two-cell moves |
| BacktrackingSpec.FinishedPush | algorithms/generation/backtracking.js:57 | a push leaves every finished cell finished |
| BacktrackingSpec.ExploredPush | algorithms/generation/backtracking.js:42-57 | a push keeps the loop state and only opens walls |
| BacktrackingSpec.ChainPop | algorithms/generation/backtracking.js:60 | a pop keeps the chain |
| BacktrackingSpec.FinishedPop | algorithms/generation/backtracking.js:58-61 | a top with no unvisited cell two apart is finished when popped |
| BacktrackingSpec.ExploredPop | algorithms/generation/backtracking.js:58-61 | a pop keeps the loop state |
| BacktrackingSpec.ExploredAll | algorithms/generation/backtracking.js:35-62 | with the stack empty every odd cell was visited, is open and is reachable from the first cell |
| BacktrackingSpec.ExploredStep | algorithms/generation/backtracking.js:35-62 | each turn keeps the loop state, only opens walls and lowers 2 x (unvisited odd cells) + stack height by one |
| Backtracking.CheckUnvisited | algorithms/generation/backtracking.js:113-120 | one offset appends the cell exactly when it is in bounds and unvisited |
| Backtracking.GetUnvisitedNeighbors | algorithms/generation/backtracking.js:101-124 | the loop returns UnvisitedNeighbors of the visited set |
| Backtracking.Advance | algorithms/generation/backtracking.js:48-53 | the wall between current and next, then next, are set open |
| Backtracking.NewVisited | algorithms/generation/backtracking.js:28-29 | a fresh size x size matrix marking only the first cell |
| Backtracking.Visit | algorithms/generation/backtracking.js:54 | visited[row][col] = true marks one more cell and leaves the maze unchanged |
| Backtracking.BacktrackStep | algorithms/generation/backtracking.js:36-61 | one turn pops when the top has no unvisited cell two apart, and otherwise opens the way to a chosen one, marks it and pushes it |
| Backtracking.RunStack | algorithms/generation/backtracking.js:35-62 | the loop only opens walls, leaves every odd cell open and reachable from the first cell, and makes 2 x (unvisited odd cells) + stack height turns |
| Backtracking.Walk | algorithms/generation/backtracking.js:28-62 | from the first cell the loop makes exactly 2k-1 turns for the k odd cells and leaves them all open and connected |
| Backtracking.GenerateMazeWithBacktracking | algorithms/generation/backtracking.js:12-91 | from the filled grid the carve opens walls so that every odd cell is open and reachable from the odd first cell, in 2k-1 turns; the widening opens only cells around start and end, which end open |
| DfsGeneration.KeptByOpens | algorithms/generation/dfs-generation.js:65-98 | opening walls keeps what was reachable and what was complete |
| DfsGeneration.CarvedJoin | algorithms/generation/dfs-generation.js:78-97 | what two carves in a row opened is what each opened |
| DfsGeneration.ReachedThrough | algorithms/generation/dfs-generation.js:95 | cells reached from a reachable target are reached from the current cell |
| DfsGeneration.CarvePair | algorithms/generation/dfs-generation.js:87-92 | the wall at (row + dr/2, col + dc/2), then the target, are set open |
| DfsGeneration.PairOpened | algorithms/generation/dfs-generation.js:87-92 | the two setWall calls open exactly those cells and, on a wall target, leave fewer wall cells |
| DfsGeneration.FollowedJoin | algorithms/generation/dfs-generation.js:86-95 | after a followed direction everything the recursive carve reached is reached from the current cell |
| DfsGeneration.FollowDirection | algorithms/generation/dfs-generation.js:79-96 | one offset: when the target is an in-bounds wall it is opened with the cell between and carved from; afterwards the target is open when in bounds |
| DfsGeneration.NothingCarved | algorithms/generation/dfs-generation.js:83-84 | a direction not followed carves nothing |
| DfsGeneration.NewDirections | algorithms/generation/dfs-generation.js:67-72 | the directions array holds the four two-cell offsets up, down, left, right |
| DfsGeneration.ShuffledOffset | algorithms/generation/dfs-generation.js:75 | every offset of the shuffled array leads two cells along a row or column |
| DfsGeneration.DfsCarve | algorithms/generation/dfs-generation.js:65-98 | dfsCarve only removes walls; every cell it opened and every cell a carve started from is reachable from its cell, and each of those has every in-bounds cell two apart open |
| DfsGeneration.DirectionDone | algorithms/generation/dfs-generation.js:78-97 | the loop state carries over one followed direction |
| DfsGeneration.Started | algorithms/generation/dfs-generation.js:78-97 | after all four offsets every in-bounds cell two apart is open, so the cell is complete |
| DfsGeneration.GenerateMazeWithDfs | algorithms/generation/dfs-generation.js:12-57 | from the filled grid the carve from the odd first cell only removes walls and leaves what it opened connected; the widening opens only cells around start and end, which end open |
| DfsGeneration.StartJoin | algorithms/generation/dfs-generation.js:25-28 | opening the first cell and then carving is one carve from the filled grid |
| Solving.ResetNoneVisited | scripts/maze.js:242-253 | after resetVisited no cell carries the visited flag |
| Solving.SameLayoutFacts | algorithms/solving/breadth-first.js:26-96 | having the same layout is reflexive, symmetric and transitive |
| Solving.SameLayoutWalls | algorithms/solving/breadth-first.js:68-69 | boards with the same layout have the same walls and the role invariant together |
| Solving.MarksKeepLayout | algorithms/solving/breadth-first.js:74-84 | markVisited, markFrontier and markPath change no wall, no role flag and no reference |
| Solving.UnvisitedMember | algorithms/solving/breadth-first.js:69 | a cell is unvisited exactly when it is in the grid, neither wall, start nor end, and not visited |
| Solving.MarkUnvisited | algorithms/solving/breadth-first.js:74-84 | markVisited removes exactly that cell from the unvisited cells; markFrontier and markPath remove none |
| Solving.UnvisitedShrinks | algorithms/solving/breadth-first.js:48-92 | with the layout fixed and no visited mark lost, the unvisited cells only shrink |
| Solving.VisitedMember | algorithms/solving/breadth-first.js:69 | a cell is visited exactly when its isVisited flag is set |
| Solving.MarkableFacts | scripts/maze.js:201-209 | which cells markVisited can mark depends only on the layout and distributes over union |
| Solving.VisitedAfterMarks | scripts/maze.js:201-237 | markVisited adds the cell to the visited ones exactly when it is markable; the other marks add none |
| Solving.VisitKeepsLayout | algorithms/solving/breadth-first.js:74 | against a fixed layout markVisited keeps the layout and adds the cell when markable |
| Solving.FlagKeepsLayout | algorithms/solving/breadth-first.js:84 | against a fixed layout markFrontier and markPath keep the layout and the visited cells |
| Solving.FilterAgainstLayout | algorithms/solving/breadth-first.js:68-69 | the filter keeps exactly the listed cells open in the layout and not visited |
| Solving.UnvisitedIsMarkable | algorithms/solving/breadth-first.js:69 | the unvisited cells are the markable cells not yet visited |
| Solving.AppendFresh | algorithms/solving/breadth-first.js:110 | pushing a cell not yet on a path without repetition keeps it without repetition |
| Solving.NeighborsDistinct | scripts/maze.js:262-291 | getNeighbors never lists a cell twice, nor the cell itself |
| Solving.OpenUnvisited | algorithms/solving/breadth-first.js:68-69 | the filter keeps exactly the open unvisited neighbours, in order, without introducing repetition |
| Solving.FilterOpenUnvisited | algorithms/solving/breadth-first.js:68-69 | the filter loop returns OpenUnvisited of the maze and changes nothing |
| Solving.Reverse | algorithms/solving/breadth-first.js:115 | path.reverse() puts entry i at position |s|-1-i |
| Solving.TrailIsChain | algorithms/solving/breadth-first.js:109-115 | the pushed trail, reversed, follows the parents forward to the end |
| Solving.ReconstructPath | algorithms/solving/breadth-first.js:104-115 | the loop terminates and returns a path that follows the parents from a cell that is the start or has no parent to the end, without the start |
| Solving.ChainIsWalk | algorithms/solving/breadth-first.js:104-115 | when every parent is an orthogonal neighbour of an open child, the start followed by the path is a walk to the end |
| Solving.ChainFromStart | algorithms/solving/breadth-first.js:109 | when the end is the start or has a parent, the reconstruction stops at the start |
| Solving.PathMarked | algorithms/solving/breadth-first.js:121-135 | markPath on every cell of a set keeps the board initialized with its references |
| Solving.PathMarkedStep | algorithms/solving/breadth-first.js:128 | marking one more cell is one more markPath |
| Solving.MarkPathCells | algorithms/solving/breadth-first.js:121-135 | animatePath leaves the maze PathMarked on the path's cells |
| Solving.PathMarkedLayout | algorithms/solving/breadth-first.js:121-135 | marking a path keeps the layout and the unvisited cells, and marks every markable cell of it |
| Solving.Started | algorithms/solving/breadth-first.js:27-44 | a solver starting with start and end set has an initialized board with the role invariant and its layout |
| Solving.FoundOutcome | algorithms/solving/breadth-first.js:59-64 | a marked walk from the start to the end is a found path |
| Solving.PathFacts | algorithms/solving/breadth-first.js:104-115 | the reconstructed path from the start is a walk to the end inside the grid |
| Solving.MarksAfter | algorithms/solving/breadth-first.js:121-135 | animatePath keeps the layout and marks every markable cell of the path |
| Solving.MarkedPathFound | algorithms/solving/breadth-first.js:104-135 | the reconstructed path, once marked, is a found path |
| Solving.TracePath | algorithms/solving/breadth-first.js:104-136 | reconstructPath returns a marked walk from the start to the end that follows the parents from the start, and changes nothing but path marks |
| StableSort.InsertBy | algorithms/solving/a-star.js:187-191 | inserting one entry lengthens the array by one |
| StableSort.SortBy | algorithms/solving/a-star.js:190 | insertion sort keeps the length |
| StableSort.CostLeFacts | algorithms/solving/a-star.js:190 | the comparator's order, with Infinity last, is a total preorder, and antisymmetric on costs |
| StableSort.WithKeySnoc | algorithms/solving/a-star.js:188 | pushing an entry adds it to the entries of its key |
| StableSort.WithKeyMember | algorithms/solving/a-star.js:190 | an entry is among those of key k exactly when it is in the array with key k |
| StableSort.FirstIsLeast | algorithms/solving/a-star.js:202 | the first entry of a sorted array has the least priority |
| StableSort.InsertByPerm | algorithms/solving/a-star.js:187-191 | inserting keeps every entry and adds exactly the new one |
| StableSort.InsertByMember | algorithms/solving/a-star.js:187-191 | the inserted array holds the old entries and the new one, nothing else |
| StableSort.InsertBySorted | algorithms/solving/a-star.js:190 | inserting into a sorted array leaves it sorted |
| StableSort.InsertByStable | algorithms/solving/a-star.js:190 | entries of equal priority keep their push order |
| StableSort.InsertByIsStableSort | algorithms/solving/a-star.js:188-190 | pushing onto a sorted array and sorting it stably is InsertBy |
| StableSort.InsertByPlacement | algorithms/solving/a-star.js:190 | the new entry goes after every entry of priority at most its own and before every larger one |
| StableSort.SortByIsStableSort | algorithms/solving/a-star.js:190 | insertion sort is a stable sort: sorted, a permutation, equal keys in input order |
| StableSort.SameFiltersSame | algorithms/solving/a-star.js:190 | two sorted arrays with the same entries of every key in the same order are equal |
| StableSort.LastIsGreatest | algorithms/solving/a-star.js:190 | a key present in a sorted array is at most its last key |
| StableSort.StableSortUnique | algorithms/solving/a-star.js:190 | the stable sort of an array is unique, so any stable sort agrees with the model's |
| StableSort.SortSnocIsInsert | algorithms/solving/a-star.js:188-190 | sorting a sorted array with one pushed entry is inserting that entry |
| PriorityQueues.PriorityQueue.constructor | algorithms/solving/a-star.js:177-180 | an empty array and an empty set |
| PriorityQueues.PriorityQueue.Enqueue | algorithms/solving/a-star.js:187-191 | enqueue leaves the stable sort of the pushed array, the entry after every entry of equal or smaller priority, and adds the element to the set |
| PriorityQueues.PriorityQueue.Dequeue | algorithms/solving/a-star.js:197-205 | dequeue returns null on an empty queue; otherwise the first entry, of least priority, leaves the array and its element leaves the set |
| PriorityQueues.EnqueueMembers | algorithms/solving/a-star.js:188-189 | an array holding one entry more holds its element more |
| PriorityQueues.DequeueMembers | algorithms/solving/a-star.js:202-203 | shifting the first entry keeps the array sorted and its other elements queued |
| PriorityQueues.ContainsQueued | algorithms/solving/a-star.js:212-222 | a contained element is queued, isEmpty means an empty array, and an empty queue contains nothing |
| BreadthFirstSpec.WeightSumAppend | algorithms/solving/breadth-first.js:78 | the queue's weight adds up over concatenation |
| BreadthFirstSpec.FlaggedWeight | algorithms/solving/breadth-first.js:72-85 | distinct queued cells drawn from start and end weigh at most what those two weigh |
| BreadthFirstSpec.WeightFacts | algorithms/solving/breadth-first.js:68-69 | an open cell that markVisited refuses is the start or the end, and weighs less than an ordinary cell |
| BreadthFirstSpec.MeasureMarked | algorithms/solving/breadth-first.js:74 | enqueueing a markable cell visits it, so fewer cells are left to visit |
| BreadthFirstSpec.MeasureFlagged | algorithms/solving/breadth-first.js:56-85 | an expansion that enqueues only the start and the end makes the queue lighter |
| BreadthFirstSpec.ExpandMeasure | algorithms/solving/breadth-first.js:56-85 | every expansion lowers (cells left to visit, weight of the queue), so processCell terminates even though markVisited refuses the start and the end |
| BreadthFirstSpec.InvStart | algorithms/solving/breadth-first.js:38-45 | the search state holds after markVisited(start) with only the start queued |
| BreadthFirstSpec.InvDequeue | algorithms/solving/breadth-first.js:56-69 | shifting off a cell other than the end makes it expanded with its filtered neighbours pending; it is the start or visited and has a parent |
| BreadthFirstSpec.ParentsSnoc | algorithms/solving/breadth-first.js:81 | each turn of the for loop sets one more parent to current |
| BreadthFirstSpec.Enqueued | algorithms/solving/breadth-first.js:72-85 | the board after the for loop keeps its size and stays initialized |
| BreadthFirstSpec.ExpandTree | algorithms/solving/breadth-first.js:72-85 | the for loop keeps parentMap a ranked tree of open steps rooted at the start |
| BreadthFirstSpec.NewEdge | algorithms/solving/breadth-first.js:81 | a filtered neighbour gets current as its parent, an open step ranked after current |
| BreadthFirstSpec.OldEdge | algorithms/solving/breadth-first.js:81 | a cell not filtered keeps its parent and rank |
| BreadthFirstSpec.SeenAppend | algorithms/solving/breadth-first.js:78 | enqueueing adds the cells to those ever seen |
| BreadthFirstSpec.ExpandMarks | algorithms/solving/breadth-first.js:74 | the markable filtered neighbours become visited; the others are the start or the end |
| BreadthFirstSpec.ExpandQueued | algorithms/solving/breadth-first.js:72-85 | queued cells stay seen, parented and visited after the for loop |
| BreadthFirstSpec.ExpandLogged | algorithms/solving/breadth-first.js:72-85 | enqueued cells stay open, and only the start and end can be enqueued twice |
| BreadthFirstSpec.ExpandClosed | algorithms/solving/breadth-first.js:72-85 | after the for loop every open neighbour of an expanded cell is seen |
| BreadthFirstSpec.InvExpand | algorithms/solving/breadth-first.js:72-85 | the whole for loop keeps the search state |
| BreadthFirstSpec.InvStep | algorithms/solving/breadth-first.js:48-92 | one turn of processCell keeps the search state and lowers the measure |
| BreadthFirstSpec.InvFound | algorithms/solving/breadth-first.js:59-64 | with the end at the head of the queue it has a parent, unless it is the start, in a ranked tree of open steps |
| BreadthFirstSpec.InvExhausted | algorithms/solving/breadth-first.js:49-53 | with the queue empty and nothing visited beforehand the end is unreachable |
| BreadthFirstSpec.InvOutcome | algorithms/solving/breadth-first.js:49-64 | the loop ends with the end found in a traceable tree or the queue empty and the end unreachable |
| BreadthFirst.BFSSolver.constructor | algorithms/solving/breadth-first.js:14-20 | the solver holds the maze with both counts zero |
| BreadthFirst.BFSSolver.Discover | algorithms/solving/breadth-first.js:74-84 | markVisited then markFrontier on one neighbour; the layout stays and the cell joins the visited cells when markable |
| BreadthFirst.BFSSolver.DiscoverAll | algorithms/solving/breadth-first.js:72-85 | the for loop enqueues every filtered neighbour in order, gives each current as parent and marks the markable ones visited |
| BreadthFirst.BFSSolver.Expand | algorithms/solving/breadth-first.js:68-85 | getNeighbors, the filter and the for loop: exactly the open unvisited orthogonal neighbours are enqueued with parent current |
| BreadthFirst.BFSSolver.Search | algorithms/solving/breadth-first.js:48-92 | the loop ends; when the end is found parentMap is traceable, and otherwise, on a board with nothing visited, the end is unreachable; on such a board a found end comes off the queue at a depth no walk from the start undercuts and no parent chain exceeds |
| BreadthFirst.BFSSolver.ReconstructPath | algorithms/solving/breadth-first.js:104-136 | the path is a marked walk from the start to the end that follows the parents from the start, pathLength is its length, and only path marks change |
| BreadthFirst.BFSSolver.Begin | algorithms/solving/breadth-first.js:33-45 | both counts restart, the start is queued, marked visited and counted |
| BreadthFirst.BFSSolver.Solve | algorithms/solving/breadth-first.js:1-96 | without start or end nothing changes and the callback gets (0, 0); otherwise walls and roles stay, a found path is a marked walk from start to end, and on a board with nothing visited the end is found exactly when it is reachable and the path found is a shortest one: no walk from the start to the end has fewer steps |
| BreadthFirst.BFSSolver.Filter | algorithms/solving/breadth-first.js:68-69 | the filter returns exactly the open unvisited orthogonal neighbours, without repetition and without current |
| BreadthFirst.ForStart | algorithms/solving/breadth-first.js:72 | before the for loop nothing is processed |
| BreadthFirst.ForTurn | algorithms/solving/breadth-first.js:72-85 | turn i of the for loop processes exactly the i-th filtered neighbour |
| BreadthFirstOptimality.ParityStep | algorithms/solving/breadth-first.js:72-81 | one orthogonal step changes the parity of the distance from the start |
| BreadthFirstOptimality.Repeat | algorithms/solving/breadth-first.js:78 | the depths of the cells enqueued from a cell at depth k are all k |
| BreadthFirstOptimality.Reached | algorithms/solving/breadth-first.js:78-81 | the depth map after enqueueing keeps every old depth and gives the new cells depth k |
| BreadthFirstOptimality.LayeredStart | algorithms/solving/breadth-first.js:38-45 | with only the start queued at depth 0, the FIFO depth bookkeeping holds |
| BreadthFirstOptimality.ExpansionFacts | algorithms/solving/breadth-first.js:56-85 | dequeuing the head at depth k: it is seen no deeper than k, its open neighbours are filtered or already seen, and the filtered ones are new except the start and the end |
| BreadthFirstOptimality.FifoStep | algorithms/solving/breadth-first.js:56-81 | shift then push keeps the queued depths non-decreasing and within one level of each other: cells leave the queue in order of depth |
| BreadthFirstOptimality.DepthsStep | algorithms/solving/breadth-first.js:72-81 | enqueueing at depth k + 1 keeps only the start at depth 0, every depth at most one past the level, and each of the parity of its distance |
| BreadthFirstOptimality.WaitingStep | algorithms/solving/breadth-first.js:56-81 | every seen cell not yet expanded stays queued at its depth |
| BreadthFirstOptimality.SpannedStep | algorithms/solving/breadth-first.js:68-81 | every open neighbour of an expanded cell is seen at most one level below it |
| BreadthFirstOptimality.DeepeningStep | algorithms/solving/breadth-first.js:81 | the new parents are one level above their children, and the end's parent stays no deeper than the level |
| BreadthFirstOptimality.LayeredStep | algorithms/solving/breadth-first.js:48-92 | one turn of processCell that does not stop keeps the whole depth bookkeeping, with the level moved to the head's depth |
| BreadthFirstOptimality.WalkDepth | algorithms/solving/breadth-first.js:48-92 | along a walk from the start whose first i cells are expanded, the i-th cell is seen at depth at most i |
| BreadthFirstOptimality.WalkBound | algorithms/solving/breadth-first.js:48-92 | while the end is not expanded, every walk from the start to the end has at least as many steps as the depth at the head of the queue |
| BreadthFirstOptimality.ChainDepth | algorithms/solving/breadth-first.js:81 | along a parent chain from the start to the end every cell before the end sits at depth at least its place plus one |
| BreadthFirstOptimality.ParityApart | algorithms/solving/breadth-first.js:72-81 | neighbours reached in d and k steps with matching parities have d != k |
| BreadthFirstOptimality.EndParent | algorithms/solving/breadth-first.js:81 | the end's parent on such a chain is seen at a depth below that of the end's queue entry |
| BreadthFirstOptimality.ParentBound | algorithms/solving/breadth-first.js:81 | a chain of two cells or more from the start to the end has at most as many steps as that depth |
| BreadthFirstOptimality.ChainBound | algorithms/solving/breadth-first.js:59-64 | with the end at the head of the queue, every parent chain from the start to it has at most as many steps as its depth |
| BreadthFirstOptimality.LayeredFound | algorithms/solving/breadth-first.js:59-64 | when the end is dequeued, on a board with nothing visited, its depth is at most every walk's length and at least every parent chain's length |
| BreadthFirstOptimality.ShallowPath | algorithms/solving/breadth-first.js:3-6 | the path reconstructPath follows has no more steps than any walk from the start to the end: the shortest path in the unweighted grid |
| DepthFirstSpec.StackWeightAppend | algorithms/solving/depth-first.js:78 | the stack's weight adds up over concatenation |
| DepthFirstSpec.LightWeight | algorithms/solving/depth-first.js:77-87 | pushed cells of weight one weigh their number |
| DepthFirstSpec.AdoptSnoc | algorithms/solving/depth-first.js:81-83 | each turn of the for loop gives the neighbour current as parent only when it has none yet |
| DepthFirstSpec.InvStart | algorithms/solving/depth-first.js:37-40 | the invariant holds with only the start stacked and no parents |
| DepthFirstSpec.InvPop | algorithms/solving/depth-first.js:51 | popping keeps the invariant; the popped cell is in the grid and is the start, or open and parented |
| DepthFirstSpec.InvPush | algorithms/solving/depth-first.js:77-87 | pushing open neighbours of the popped cell and adopting the new ones keeps parentMap a ranked tree of open steps |
| DepthFirstSpec.AdoptKeeps | algorithms/solving/depth-first.js:81 | a cell that already had a parent keeps it and its rank |
| DepthFirstSpec.AdoptNew | algorithms/solving/depth-first.js:82 | a newly adopted cell gets current as parent, an open step ranked after it |
| DepthFirstSpec.InvFound | algorithms/solving/depth-first.js:64-70 | with the end popped it is the start or has a parent in a ranked tree of open steps |
| DepthFirstSpec.PopLightens | algorithms/solving/depth-first.js:51-57 | skipping a popped visited cell lightens the stack |
| DepthFirstSpec.StartLightens | algorithms/solving/depth-first.js:51-87 | the start, which markVisited refuses, pushes at most four open cells that weigh less than it |
| DepthFirstSpec.VisitShrinks | algorithms/solving/depth-first.js:60 | markVisited on an unvisited markable cell shrinks the unvisited cells |
| DepthFirstSpec.Frontiered | algorithms/solving/depth-first.js:86 | the frontier marks keep the board initialized with its size |
| DepthFirstSpec.FrontieredKeeps | algorithms/solving/depth-first.js:86 | frontier marks keep the layout and the unvisited cells |
| DepthFirstSpec.FrontieredSnoc | algorithms/solving/depth-first.js:77-87 | one more turn of the for loop adds one frontier mark |
| DepthFirst.DFSSolver.constructor | algorithms/solving/depth-first.js:13-19 | the solver holds the maze with both counts zero |
| DepthFirst.DFSSolver.PushAll | algorithms/solving/depth-first.js:77-87 | every filtered neighbour is pushed in order, adopted unless it has a parent, and marked frontier |
| DepthFirst.DFSSolver.Expand | algorithms/solving/depth-first.js:73-87 | the pushed cells are the filter of getNeighbors on the current board |
| DepthFirst.DFSSolver.ProcessCell | algorithms/solving/depth-first.js:50-93 | one call pops; a visited cell is skipped uncounted; otherwise it is marked visited and counted, and is the end or has its open unvisited neighbours pushed |
| DepthFirst.DFSSolver.Search | algorithms/solving/depth-first.js:43-94 | the loop ends, keeps walls and roles, and a found end comes with a traceable parentMap |
| DepthFirst.DFSSolver.ReconstructPath | algorithms/solving/depth-first.js:106-138 | the path is a marked walk from the start to the end, pathLength is its length, and only path marks change |
| DepthFirst.DFSSolver.Solve | algorithms/solving/depth-first.js:25-98 | without start or end nothing changes and the callback gets (0, 0); otherwise walls and roles stay and a found path is a marked walk from start to end |
| DepthFirst.TurnInv | algorithms/solving/depth-first.js:43-94 | each call keeps the layout and the invariant and either finds the end or makes progress (fewer unvisited cells, or a lighter stack), so the loop terminates |
| DijkstraSpec.Succ | algorithms/solving/dijkstra.js:97 | one more than a distance is finite exactly when it is, and one larger; Infinity + 1 is Infinity |
| DijkstraSpec.BelowIsStrict | algorithms/solving/dijkstra.js:100 | the comparison newDistance < distance is the strict order with Infinity above every number |
| DijkstraSpec.WithVisitedFlag | algorithms/solving/dijkstra.js:78 | the direct write sets the flag of exactly that cell, keeping the walls and the roles |
| DijkstraSpec.Visit | algorithms/solving/dijkstra.js:77-78 | markVisited and then the direct write keep the board initialized with its size |
| DijkstraSpec.VisitFacts | algorithms/solving/dijkstra.js:77-78 | whichever the cell, it ends visited, nothing else changes, and exactly it leaves the cells not visited |
| DijkstraSpec.VisitShrinks | algorithms/solving/dijkstra.js:71-79 | processing a cell not visited shrinks the cells not visited |
| DijkstraSpec.RelaxAll | algorithms/solving/dijkstra.js:95-113 | the for loop keeps the board initialized and the cells that have a distance |
| DijkstraSpec.RelaxAllSnoc | algorithms/solving/dijkstra.js:95-113 | one more turn of the for loop is one more relaxation |
| DijkstraSpec.InvHead | algorithms/solving/dijkstra.js:68 | the dequeued cell is in the grid and every cell of the grid has a distance |
| DijkstraSpec.InvLog | algorithms/solving/dijkstra.js:67-79 | the cells processed are distinct and processed in order of non-decreasing distance |
| DijkstraSpec.TreeRanked | algorithms/solving/dijkstra.js:137-140 | distances rank parentMap, so following parents from any cell reaches the start along open steps |
| DijkstraSpec.InvStart | algorithms/solving/dijkstra.js:45-57 | every distance Infinity but the start's 0, the start queued at 0, no parents: the invariant holds |
| DijkstraSpec.SortedTail | algorithms/solving/dijkstra.js:186-200 | dequeuing the first entry of a sorted queue leaves it sorted |
| DijkstraSpec.QueuedRest | algorithms/solving/dijkstra.js:68 | after a dequeue every remaining priority is at or above the dequeued one |
| DijkstraSpec.TreeKeeps | algorithms/solving/dijkstra.js:77-78 | visiting cells keeps the tree of parents |
| DijkstraSpec.PendingRest | algorithms/solving/dijkstra.js:68-79 | after dequeuing a visited cell every other unvisited finite cell is still queued at its distance |
| DijkstraSpec.LoggedKeeps | algorithms/solving/dijkstra.js:77-78 | the log of processed cells survives a board that only gains visited cells |
| DijkstraSpec.InvSkip | algorithms/solving/dijkstra.js:71-74 | skipping a visited cell keeps the invariant |
| DijkstraSpec.DequeuedDistance | algorithms/solving/dijkstra.js:68-79 | an unvisited dequeued cell's priority is its distance, no lower than the last one processed, and it is the start or has a parent |
| DijkstraSpec.LoggedVisit | algorithms/solving/dijkstra.js:77-79 | the newly processed cell was not processed before and the log stays in order |
| DijkstraSpec.InvMark | algorithms/solving/dijkstra.js:68-79 | dequeuing an unvisited cell and visiting it keeps the invariant with it logged |
| DijkstraSpec.InvFound | algorithms/solving/dijkstra.js:82-88 | the end, once processed, is the start or can be traced back to it |
| DijkstraSpec.Enqueued | algorithms/solving/dijkstra.js:108 | the queue after an enqueue holds the old entries and the new one, still sorted |
| DijkstraSpec.FrontierFlags | algorithms/solving/dijkstra.js:111 | markFrontier leaves every visited flag as it was |
| DijkstraSpec.RelaxQueued | algorithms/solving/dijkstra.js:102-108 | after a relaxation the neighbour is queued at its new distance and old entries keep their bounds |
| DijkstraSpec.RelaxTree | algorithms/solving/dijkstra.js:102-105 | the new parent is the processed cell, an open step, one distance less |
| DijkstraSpec.RelaxPending | algorithms/solving/dijkstra.js:102-111 | the relaxed cell is pending at its new distance and every other pending cell still is |
| DijkstraSpec.RelaxLogged | algorithms/solving/dijkstra.js:102 | no processed cell has its distance changed |
| DijkstraSpec.InvRelaxParts | algorithms/solving/dijkstra.js:100-112 | a changing relaxation keeps the invariant |
| DijkstraSpec.RelaxShape | algorithms/solving/dijkstra.js:100-112 | a changing relaxation updates the distance, the parent, the queue and the frontier mark together |
| DijkstraSpec.InvRelaxChanged | algorithms/solving/dijkstra.js:100-112 | a relaxation with a strictly smaller distance keeps the invariant |
| DijkstraSpec.InvRelax | algorithms/solving/dijkstra.js:96-112 | one turn of the for loop keeps the invariant, the visited flags and the processed cell's distance |
| DijkstraSpec.InvRelaxAll | algorithms/solving/dijkstra.js:95-113 | the whole for loop keeps the invariant, the visited flags and the processed cell's distance |
| DijkstraSpec.SameNotVisited | algorithms/solving/dijkstra.js:111 | frontier marks leave the cells not visited unchanged |
| DijkstraSpec.TurnOfSkip | algorithms/solving/dijkstra.js:71-74 | a dequeued visited cell is dropped, nothing else changes |
| DijkstraSpec.TurnOfAdvance | algorithms/solving/dijkstra.js:76-113 | an unvisited dequeued cell is visited, and is the end or has its neighbours relaxed |
| DijkstraSpec.Expansion | algorithms/solving/dijkstra.js:91-92 | the filtered neighbours are adjacent, open and not visited |
| DijkstraSpec.Dequeue | algorithms/solving/dijkstra.js:68-79 | the head's priority is its distance, no lower than the last, and its visit gains one visited cell |
| DijkstraSpec.TurnSkip | algorithms/solving/dijkstra.js:71-74 | a skipped cell keeps the invariant and shortens the queue |
| DijkstraSpec.TurnFound | algorithms/solving/dijkstra.js:82-88 | the end processed can be traced back to the start |
| DijkstraSpec.TurnExpand | algorithms/solving/dijkstra.js:76-119 | a processed cell other than the end keeps the invariant and visits one more cell |
| DijkstraSpec.TurnInv | algorithms/solving/dijkstra.js:60-120 | every processCell call keeps the invariant and the layout and falls in the loop measure; a found end is traceable |
| Dijkstra.DijkstraSolver.constructor | algorithms/solving/dijkstra.js:13-19 | the solver holds the maze with both counts zero |
| Dijkstra.DijkstraSolver.InitDistances | algorithms/solving/dijkstra.js:45-51 | every cell of the grid gets distance Infinity |
| Dijkstra.DijkstraSolver.SetVisitedFlag | algorithms/solving/dijkstra.js:78 | the grid becomes WithVisitedFlag of the old board |
| Dijkstra.DijkstraSolver.RelaxNeighbor | algorithms/solving/dijkstra.js:96-112 | the new state of queue, parents, distances and board is Relax of the old |
| Dijkstra.DijkstraSolver.RelaxNeighbors | algorithms/solving/dijkstra.js:95-113 | the new state is RelaxAll of the old over the filtered neighbours |
| Dijkstra.DijkstraSolver.VisitCell | algorithms/solving/dijkstra.js:77-78 | the board becomes Visit of the old one |
| Dijkstra.DijkstraSolver.Expand | algorithms/solving/dijkstra.js:91-113 | the new state is RelaxAll over the filter of getNeighbors |
| Dijkstra.DijkstraSolver.Advance | algorithms/solving/dijkstra.js:76-113 | the cell is counted and visited, and is the end or has its neighbours relaxed |
| Dijkstra.DijkstraSolver.ProcessCell | algorithms/solving/dijkstra.js:60-120 | one call is one Turn, counting only a cell not visited before |
| Dijkstra.DijkstraSolver.Search | algorithms/solving/dijkstra.js:60-123 | the loop ends keeping the layout; cells are processed once each in non-decreasing distance and counted; a found end is traceable; on a board with nothing visited the end is found exactly when reachable, each parent is one step nearer the start, and the end's distance is that of a shortest walk |
| Dijkstra.DijkstraSolver.ReconstructPath | algorithms/solving/dijkstra.js:132-164 | the path is a walk of open cells from the start to the end that follows the parents from the start, pathLength is its length, and only path marks change |
| Dijkstra.DijkstraSolver.Begin | algorithms/solving/dijkstra.js:36-57 | the queue holds the start at 0, and the invariant and the closure bookkeeping hold at the start of the loop |
| Dijkstra.DijkstraSolver.Solve | algorithms/solving/dijkstra.js:1-124 | without start or end nothing changes and the callback gets (0, 0); otherwise walls and roles stay and a found path is a marked walk from start to end whose length is reported; on a board with nothing visited the end is found exactly when it is reachable and the path is a shortest one: no walk from the start to the end has fewer steps |
| DijkstraOptimality.RelaxAllLowers | algorithms/solving/dijkstra.js:95-113 | the for loop over the filtered neighbours keeps every key and the current cell's distance, never raises a distance, lowers one only to the current distance plus one, and leaves every neighbour at most there |
| DijkstraOptimality.LoweredStep | algorithms/solving/dijkstra.js:99-112 | one more relaxation keeps those facts |
| DijkstraOptimality.SettledStart | algorithms/solving/dijkstra.js:45-57 | before the loop the closure bookkeeping holds: nothing visited, nothing processed, the start at 0 |
| DijkstraOptimality.WalkReach | algorithms/solving/dijkstra.js:60-113 | along a walk from the start whose first i cells are processed, the i-th cell's distance is at most i |
| DijkstraOptimality.FirstUnvisited | algorithms/solving/dijkstra.js:71-79 | a walk ending at an unvisited cell has a first unvisited cell, with every earlier one visited |
| DijkstraOptimality.WalkMeetsQueue | algorithms/solving/dijkstra.js:60-113 | a walk from the start to the unprocessed end passes an unvisited cell queued at a distance at most its step count |
| DijkstraOptimality.FoundShortest | algorithms/solving/dijkstra.js:67-88 | the end dequeued unvisited has the head's priority as distance, and no walk from the start to it is shorter |
| DijkstraOptimality.Complete | algorithms/solving/dijkstra.js:60-65 | while the end is unprocessed, a walk to it leaves the queue non-empty, so an empty queue means the end is unreachable |
| DijkstraOptimality.ClosedExpand | algorithms/solving/dijkstra.js:76-113 | processing a cell other than the end keeps every processed cell's open neighbours within one step of it |
| DijkstraOptimality.ExpandCloses | algorithms/solving/dijkstra.js:90-113 | the filter and the relaxations close the processed cells over their open neighbours |
| DijkstraOptimality.ExpandVisited | algorithms/solving/dijkstra.js:76-79 | the visited cells are exactly the processed ones, and the start stays at 0 |
| DijkstraOptimality.ExpandOld | algorithms/solving/dijkstra.js:95-113 | an earlier processed cell keeps its distance and its neighbours' distances only shrink |
| DijkstraOptimality.ExpandCurrent | algorithms/solving/dijkstra.js:90-113 | the processed cell's open neighbours end at most one past its distance: visited ones already were, the others are relaxed |
| DijkstraOptimality.SettledTurn | algorithms/solving/dijkstra.js:60-120 | one turn of processCell from a settled state is settled again, and a turn that finds the end leaves its distance shortest |
| DijkstraOptimality.ClosedFound | algorithms/solving/dijkstra.js:76-88 | processing the end visits and logs it and changes no distance |
| DijkstraOptimality.SettledExit | algorithms/solving/dijkstra.js:61-88 | the loop's end with the end found or the queue empty gives the exact outcome |
| DijkstraOptimality.TreeGraded | algorithms/solving/dijkstra.js:102-105 | each parent set by a relaxation is exactly one step nearer the start |
| DijkstraOptimality.TracedPath | algorithms/solving/dijkstra.js:83 | a traceable parent map has a chain to the end from the start or a parentless cell, and the end has a parent unless it is the start |
| DijkstraOptimality.ChainGraded | algorithms/solving/dijkstra.js:83 | along a graded chain from the start at 0, cell i is at distance i + 1 |
| DijkstraOptimality.ChainLength | algorithms/solving/dijkstra.js:83 | the chain reconstructPath follows has as many steps as the end's distance |
| DijkstraOptimality.ExactPath | algorithms/solving/dijkstra.js:1-6 | on a board with nothing visited the reconstructed path is a shortest walk from the start to the end |
| AStarSpec.RelaxAll | algorithms/solving/a-star.js:88-109 | the for loop keeps the board initialized with its size, keeps the closed set and never drops a gScore |
| AStarSpec.RelaxAllSnoc | algorithms/solving/a-star.js:88-109 | one more turn of the for loop is one more relaxation |
| AStarSpec.OpenUnclosed | algorithms/solving/a-star.js:84-85 | a neighbour passes the filter exactly when it is not a wall and not closed, keeping getNeighbors order |
| AStarSpec.InvTurnFrom | algorithms/solving/a-star.js:58-65 | under the invariant a non-empty open set has a head in the grid with a gScore |
| AStarSpec.InvLayout | algorithms/solving/a-star.js:57-116 | the search never changes walls, size or roles |
| AStarSpec.TurnOfEnd | algorithms/solving/a-star.js:65-74 | dequeuing the end stops the search with only the dequeue done |
| AStarSpec.TurnOfExpand | algorithms/solving/a-star.js:76-109 | any other head is closed, marked visited and has its filtered neighbours relaxed |
| AStarSpec.InvStart | algorithms/solving/a-star.js:36-54 | the start at gScore 0 and fScore its heuristic, alone in the open set, nothing closed: the invariant holds |
| AStarSpec.DequeueDistinct | algorithms/solving/a-star.js:192-194 | dequeuing a queue without repeats removes exactly its first cell from the open set |
| AStarSpec.DistinctSplice | algorithms/solving/a-star.js:187-191 | splicing a cell not queued into a queue without repeats keeps it without repeats |
| AStarSpec.EnqueueDistinct | algorithms/solving/a-star.js:187-191 | enqueueing a cell the open set does not contain keeps the queue sorted and without repeats and adds the cell |
| AStarSpec.RelaxableFacts | algorithms/solving/a-star.js:88-93 | a neighbour being relaxed is in the grid and is not the start |
| AStarSpec.Enqueued | algorithms/solving/a-star.js:102-107 | enqueue and markFrontier of a cell not open keep the layout and add exactly that cell |
| AStarSpec.Rescored | algorithms/solving/a-star.js:93-99 | an improving relaxation sets the parent to current, gScore to one more than current's, fScore to that plus the heuristic |
| AStarSpec.Reshape | algorithms/solving/a-star.js:93-108 | an improving relaxation keeps the layout and the queue shape and rewrites the tree at the neighbour |
| AStarSpec.RelaxQueue | algorithms/solving/a-star.js:101-107 | after a relaxation the queue is sorted, without repeats, and holds only open cells |
| AStarSpec.RelaxTree | algorithms/solving/a-star.js:95-99 | after a relaxation parentMap is a tree of open steps one gScore apart and fScore is gScore plus the heuristic |
| AStarSpec.RelaxClosing | algorithms/solving/a-star.js:93-108 | a relaxation keeps every closed cell in place |
| AStarSpec.InvRelax | algorithms/solving/a-star.js:89-108 | one turn of the for loop keeps the invariant |
| AStarSpec.InvRelaxAll | algorithms/solving/a-star.js:88-109 | the whole for loop over open neighbours outside the closed set keeps the invariant |
| AStarSpec.InvHead | algorithms/solving/a-star.js:65 | the dequeued cell is in the grid, has a gScore and is not closed |
| AStarSpec.Unqueue | algorithms/solving/a-star.js:65 | after the dequeue the queue is still sorted, without repeats, and its cells are the open set |
| AStarSpec.InvFound | algorithms/solving/a-star.js:68-74 | when the end is dequeued the invariant stays and the end is the start or has a parent |
| AStarSpec.Mark | algorithms/solving/a-star.js:80 | markVisited on the dequeued cell keeps the layout |
| AStarSpec.CloseQueue | algorithms/solving/a-star.js:65-77 | closing the head keeps the queue well formed |
| AStarSpec.CloseTree | algorithms/solving/a-star.js:77-80 | closing the head keeps the tree of parents |
| AStarSpec.CloseClosed | algorithms/solving/a-star.js:77 | every closed cell, the new one included, is in the grid, scored, and the start or parented |
| AStarSpec.CloseClosing | algorithms/solving/a-star.js:77 | closing keeps the start closed first |
| AStarSpec.CloseInv | algorithms/solving/a-star.js:65-81 | closing the head keeps the invariant |
| AStarSpec.InvClose | algorithms/solving/a-star.js:65-81 | closing the dequeued cell keeps the invariant and closes one more cell |
| AStarSpec.CloseCount | algorithms/solving/a-star.js:77-81 | the closed set grows by exactly one cell, so visitedCount counts the closed cells |
| AStarSpec.TreeTraceable | algorithms/solving/a-star.js:143-146 | gScore ranks parentMap, so reconstructPath's loop ends at the start along open steps |
| AStarSpec.TurnFound | algorithms/solving/a-star.js:68-74 | dequeuing the end keeps the invariant and gives it a parent chain |
| AStarSpec.Expansion | algorithms/solving/a-star.js:84-85 | the filtered neighbours are open neighbours in the grid outside the closed set |
| AStarSpec.ExpandStep | algorithms/solving/a-star.js:84-109 | the state after the turn is the relaxation of the filtered neighbours |
| AStarSpec.TurnExpand | algorithms/solving/a-star.js:76-115 | closing another cell and relaxing its neighbours keeps the invariant and closes one more cell |
| AStarSpec.TurnInv | algorithms/solving/a-star.js:57-116 | every processCell call keeps the invariant; a found end has a parent chain; the cells not closed shrink, so the loop ends |
| AStar.AStarSolver.constructor | algorithms/solving/a-star.js:13-19 | the solver holds the maze with both counts zero |
| AStar.AStarSolver.Admit | algorithms/solving/a-star.js:103-106 | the queue gets the entry at its priority, the open set the cell, and the board its frontier mark |
| AStar.AStarSolver.RelaxNeighbor | algorithms/solving/a-star.js:89-108 | the new state is Relax of the old |
| AStar.AStarSolver.RelaxNeighbors | algorithms/solving/a-star.js:88-109 | the new state is RelaxAll of the old over the filtered neighbours |
| AStar.AStarSolver.FilterOpenUnclosed | algorithms/solving/a-star.js:84-85 | the filter of neighbours that are not walls and not closed |
| AStar.AStarSolver.Expand | algorithms/solving/a-star.js:84-109 | the new state is RelaxAll over the filter of getNeighbors |
| AStar.AStarSolver.Advance | algorithms/solving/a-star.js:76-109 | the cell is closed, marked visited, counted, and its neighbours relaxed |
| AStar.AStarSolver.ProcessCell | algorithms/solving/a-star.js:57-116 | one call is one Turn; only a cell other than the end is counted |
| AStar.AStarSolver.Search | algorithms/solving/a-star.js:57-119 | the loop ends keeping the layout; visitedCount is the number of closed cells; a found end is traceable |
| AStar.AStarSolver.ReconstructPath | algorithms/solving/a-star.js:138-170 | the path is a walk of open cells from the start to the end, pathLength is its length, and only path marks change |
| AStar.AStarSolver.Begin | algorithms/solving/a-star.js:36-54 | the open set holds the start at its heuristic, and the invariant holds at the start of the loop |
| AStar.AStarSolver.Solve | algorithms/solving/a-star.js:25-120 | without start or end nothing changes and the callback gets (0, 0); otherwise walls and roles stay and a found path is a marked walk from start to end whose length is reported |
| WallFollower.Ahead | algorithms/solving/wall-follower.js:153-170 | the four directions step to an orthogonal neighbour; any other direction stays put |
| WallFollower.AheadFacts | algorithms/solving/wall-follower.js:157-170 | the four directions reach four different cells, the reversed direction leads back, and right, straight and left differ |
| WallFollower.AdjacentAhead | algorithms/solving/wall-follower.js:157-170 | every orthogonal neighbour lies in some direction |
| WallFollower.Move | algorithms/solving/wall-follower.js:81-134 | the walker either steps onto an open neighbour in the direction it now faces, or stays and faces the reverse way |
| WallFollower.FirstOpen | algorithms/solving/wall-follower.js:81-131 | the chosen direction is the first of the list whose cell is open; none is chosen only when all are closed |
| WallFollower.MoveByPreference | algorithms/solving/wall-follower.js:81-134 | the move is right, else straight, else left onto an open cell, else a turn round in place |
| WallFollower.WalkingFacts | algorithms/solving/wall-follower.js:50-141 | between steps the walker is in the grid with a valid direction and the path has no repeats |
| WallFollower.WalkStart | algorithms/solving/wall-follower.js:37-47 | the walk begins at the start facing right with nothing recorded |
| WallFollower.WalkOn | algorithms/solving/wall-follower.js:71-134 | a step away from the end keeps the walker reachable from the start and the path distinct, start first |
| WallFollower.WalkDone | algorithms/solving/wall-follower.js:57-63 | standing on the end, marking the path leaves the layout and gives a walk that reached the end, each cell reachable and recorded once |
| WallFollower.TouredFacts | algorithms/solving/wall-follower.js:57-68 | a finished walk has no repeats and shows the end reachable from the start |
| WallFollower.MirrorWalls | algorithms/solving/wall-follower.js:86-120 | the walls read from the grid are the board's wall snapshot |
| WallFollower.WallFollowerSolver.constructor | algorithms/solving/wall-follower.js:14-20 | the solver holds the maze with both counts zero |
| WallFollower.WallFollowerSolver.GetCellInDirection | algorithms/solving/wall-follower.js:153-178 | the cell ahead when it is in the grid, otherwise None |
| WallFollower.WallFollowerSolver.Passable | algorithms/solving/wall-follower.js:86-120 | a cell passes exactly when it exists and is not a wall |
| WallFollower.WallFollowerSolver.Steer | algorithms/solving/wall-follower.js:81-134 | the new heading is Move's, in the grid |
| WallFollower.WallFollowerSolver.Visit | algorithms/solving/wall-follower.js:71-79 | a first visit marks the cell visited, counts it and appends it to the path; a repeat changes nothing |
| WallFollower.WallFollowerSolver.Finish | algorithms/solving/wall-follower.js:57-63 | pathLength becomes the number of recorded cells and they are marked path |
| WallFollower.WallFollowerSolver.Advance | algorithms/solving/wall-follower.js:71-140 | the cell is recorded on its first visit, the heading moves by the right-hand rule, and the cell moved to is marked frontier |
| WallFollower.WallFollowerSolver.ProcessStep | algorithms/solving/wall-follower.js:50-141 | the walker finds the end exactly when it stands on it; then the path is marked, otherwise it advances |
| WallFollower.WallFollowerSolver.Walk | algorithms/solving/wall-follower.js:50-144 | the loop keeps the layout and visitedCount equal to the recorded cells; a found walk reached the end, its cells reachable, and pathLength is its length |
| WallFollower.WallFollowerSolver.Solve | algorithms/solving/wall-follower.js:26-145 | without start or end nothing changes and the callback gets (0, 0); otherwise walls and roles stay, visitedCount counts distinct recorded cells, and a found walk proves the end reachable |
| AsyncSearch.SortShift | algorithms/a-star.js:43-46 | the shifted cell and the rest are the stable sort by score; the shifted cell has the least score and no cell is lost |
| AsyncSearch.ShiftOnce | algorithms/a-star.js:43-46 | shifting a list without repeats leaves the other cells, once each, without the shifted one |
| AsyncSearch.PushOnce | algorithms/a-star.js:88-90 | pushing a cell that is not there keeps every cell once and adds just it |
| AsyncSearch.OnceDistinct | algorithms/a-star.js:49-50 | counting occurrences through the multiset is the same as having no duplicates |
| AsyncSearch.ReconstructPath | algorithms/a-star.js:121-137 | the path ends at the end cell, each cell's parent is the one before it, the start occurs only first, and in a tree rooted at the start the path begins there |
| AsyncSearch.LinkedOrigin | algorithms/a-star.js:126-134 | a linked path to a cell of a tree rooted at the start begins at the start or at a cell with a parent |
| AsyncSearch.LinkedWalk | algorithms/a-star.js:121-137 | a linked path through parents that are grid neighbours is a walk over the grid |
| AsyncAStar.Heuristic | algorithms/a-star.js:107-110 | the heuristic is the Manhattan distance of the two cells |
| AsyncAStar.Relax | algorithms/a-star.js:71-92 | one pass keeps the closed list and current's gScore |
| AsyncAStar.RelaxImproves | algorithms/a-star.js:71-92 | a closed neighbour changes nothing; otherwise only the neighbour's scores and parent change, together and only on a strictly smaller gScore, and it is pushed if not open |
| AsyncAStar.RelaxAll | algorithms/a-star.js:71-92 | the neighbour loop keeps the closed list and current's gScore |
| AsyncAStar.InvStart | algorithms/a-star.js:34-38 | the start open at gScore 0, fScore its heuristic, nothing closed: the invariant holds |
| AsyncAStar.InvShift | algorithms/a-star.js:43-66 | shifting the least open cell and closing it keeps the invariant and closes one more cell of the grid |
| AsyncAStar.InvClosed | algorithms/a-star.js:66 | the closed cells are distinct cells of the grid |
| AsyncAStar.InvRelax | algorithms/a-star.js:72-91 | one pass from a scored cell to a grid neighbour keeps the invariant |
| AsyncAStar.RelaxKeepsOpen | algorithms/a-star.js:88-90 | a pass keeps every open cell once, scored and not closed |
| AsyncAStar.RelaxKeepsScores | algorithms/a-star.js:84-85 | a pass keeps fScore equal to gScore plus the heuristic, every scored cell the start or parented |
| AsyncAStar.RelaxKeepsTree | algorithms/a-star.js:83-84 | a pass keeps each parent a grid neighbour with a smaller gScore |
| AsyncAStar.InvRelaxAll | algorithms/a-star.js:71-92 | the whole neighbour loop keeps the invariant |
| AsyncAStar.InvTree | algorithms/a-star.js:126-129 | gScores rank the parents, a tree rooted at the start, so the walk back ends |
| AsyncAStar.LinkedIsGridWalk | algorithms/a-star.js:121-137 | a reconstructed path is a walk over the grid |
| AsyncAStar.RelaxNeighbors | algorithms/a-star.js:71-92 | the neighbour loop computes RelaxAll |
| AsyncAStar.Search | algorithms/a-star.js:41-96 | the visited cells are distinct grid cells; a found path walks over the grid from the start to the end, which was visited last; otherwise the end was never visited |
| AsyncAStar.SolveMazeWithAStar | algorithms/a-star.js:9-97 | without start or end: no path and no visited cells; otherwise as Search from the start to the end |
| AsyncDijkstra.GridCells | algorithms/dijkstra.js:24-31 | the initialisation loops list every cell of the grid once, in row-major order, size * size of them |
| AsyncDijkstra.Relax | algorithms/dijkstra.js:67-81 | one pass keeps the unvisited list and visited set, and the distances of visited cells |
| AsyncDijkstra.RelaxImproves | algorithms/dijkstra.js:69-80 | the state changes exactly when the neighbour is unvisited and strictly closer through current, and then only its distance and parent, together |
| AsyncDijkstra.RelaxAll | algorithms/dijkstra.js:67-81 | the neighbour loop keeps visited cells' distances |
| AsyncDijkstra.InvStart | algorithms/dijkstra.js:24-34 | every cell unvisited, the start at distance 0, no parents: the invariant holds |
| AsyncDijkstra.InvVisit | algorithms/dijkstra.js:39-51 | the shifted cell with a distance is unvisited, in the grid and no nearer than the last one visited; visiting it keeps the invariant |
| AsyncDijkstra.InvRelax | algorithms/dijkstra.js:69-80 | one pass from a visited cell to a grid neighbour keeps the invariant |
| AsyncDijkstra.InvRelaxAll | algorithms/dijkstra.js:67-81 | the whole neighbour loop keeps the invariant |
| AsyncDijkstra.InvTree | algorithms/dijkstra.js:102-105 | distances rank the parents, a tree in the grid rooted at the start, so the walk back ends |
| AsyncDijkstra.LinkedDistance | algorithms/dijkstra.js:74-79 | along a linked path from distance 0 each cell's distance is its position |
| AsyncDijkstra.RelaxNeighbors | algorithms/dijkstra.js:67-81 | the neighbour loop computes RelaxAll |
| AsyncDijkstra.InOrderVisit | algorithms/dijkstra.js:39-50 | visiting a cell no nearer than the frontier keeps visitedCells in distance order |
| AsyncDijkstra.InOrderRelaxed | algorithms/dijkstra.js:67-81 | relaxing leaves visited cells' distances, so their order stays |
| AsyncDijkstra.PathTo | algorithms/dijkstra.js:97-113 | the reconstructed path is a grid walk from the start to the end with the end's distance as its number of steps |
| AsyncDijkstra.Search | algorithms/dijkstra.js:37-85 | visited cells are distinct grid cells, at most size * size, in non-decreasing distance; a found path walks from start to end with one cell per step of distance, the end visited last; otherwise the end was never visited |
| AsyncDijkstra.SolveMazeWithDijkstra | algorithms/dijkstra.js:9-86 | without start or end: no path and no visited cells; otherwise as Search from the start to the end |
| AsyncDepthFirst.Push | algorithms/depth-first.js:56-67 | an unvisited neighbour becomes visited; a visited one changes nothing |
| AsyncDepthFirst.PushAll | algorithms/depth-first.js:55-68 | after the loop every neighbour is visited, the stack only grew, and every newly visited cell is on it |
| AsyncDepthFirst.Rank | algorithms/depth-first.js:62 | the position at which a cell was recorded in visitedCells |
| AsyncDepthFirst.RankAppend | algorithms/depth-first.js:62 | recording a new cell puts it last and moves no other |
| AsyncDepthFirst.InvStart | algorithms/depth-first.js:31-34 | the start pushed, marked visited and recorded: the invariant holds and nothing off the stack is unexplored |
| AsyncDepthFirst.InvPop | algorithms/depth-first.js:42 | popping keeps the invariant, and the popped cell is no longer on the stack |
| AsyncDepthFirst.InvPush | algorithms/depth-first.js:56-67 | one pass for a grid neighbour of a visited cell keeps the invariant |
| AsyncDepthFirst.InvPushAll | algorithms/depth-first.js:55-68 | the whole neighbour loop keeps the invariant |
| AsyncDepthFirst.ParentSetOnce | algorithms/depth-first.js:56-59 | a parent is set once: old parents stay, new ones are current for neighbours not visited before |
| AsyncDepthFirst.PushAllCount | algorithms/depth-first.js:58-63 | each push adds one visited cell and one stack entry, so unvisited cells plus the stack stay equal in number |
| AsyncDepthFirst.ExhaustiveStep | algorithms/depth-first.js:42-68 | after popping a cell and pushing its neighbours, every visited cell off the stack has all its grid neighbours visited |
| AsyncDepthFirst.StepToward | algorithms/depth-first.js:53 | there is a grid neighbour of t one step closer to s |
| AsyncDepthFirst.ClosedHoldsAll | algorithms/depth-first.js:40-69 | a set holding the start and closed under grid adjacency holds every cell, so without wall checks the end is always found |
| AsyncDepthFirst.PushNeighbors | algorithms/depth-first.js:55-68 | the neighbour loop computes PushAll |
| AsyncDepthFirst.PathTo | algorithms/depth-first.js:84-100 | the reconstructed path is a grid walk from the start to the end |
| AsyncDepthFirst.PassKeeps | algorithms/depth-first.js:42-68 | a pass other than the end keeps the invariant and the exploration, and lowers the loop measure |
| AsyncDepthFirst.Exhausted | algorithms/depth-first.js:40-72 | with the stack empty every visited cell has all its grid neighbours visited |
| AsyncDepthFirst.Search | algorithms/depth-first.js:31-72 | visited cells are distinct grid cells, the start first; a found path walks from start to end; otherwise the end was never visited and the visited cells are closed under adjacency |
| AsyncDepthFirst.SolveMazeWithDFS | algorithms/depth-first.js:9-73 | without start or end: no path and no visited cells; otherwise the start is visited first; a found path walks from start to end; with no path the end was not visited and the visited cells are closed under grid adjacency, which ClosedHoldsAll shows impossible |

## Left out

- Drawing and the page: `draw`, `calculateCellSize`, `getCellFromCoordinates`, the canvas, mouse and keyboard events, `alert`/`confirm`, dark mode, statistics, sound, the file reader and the data-URI download. They are input and output, not maze logic.
- Scheduling: the `setTimeout` delays, the `animatePath` timers and `async`/`await`. Each scheduled call is one loop turn, and path marking is one loop. `updateCallback` only observes the state, so it is dropped.
- `isSolving` and `stopSolving`: the button clears `appState.isSolving`, but the solvers test their own `this.isSolving`, so a stop never reaches a running solver. The model always runs a solver to completion.
- The dispatch in scripts/main.js (`generateMaze`, `solveMaze`, `clearMaze`, `initMaze`) is not modelled. It chooses an algorithm from the page's selection and calls the modelled operations.
- Randomness: no claim about probabilities. Random indices and the 70% widening coin are arbitrary choices.
- MazeGrid.Maze.Initialize: requires `size >= 2`. For smaller sizes the source fails with a TypeError on `grid[1][1]`.
- MazeGrid.Maze.SetWall, MazeGrid.Maze.SetStart, MazeGrid.Maze.SetEnd, MazeGrid.Maze.MarkVisited, MazeGrid.Maze.MarkFrontier, MazeGrid.Maze.MarkPath: each requires its cell to be in the grid. The source indexes `this.grid[row][col]` without a bounds check (scripts/maze.js:139, 158, 178, 201, 216, 230), so a cell outside the grid throws a TypeError. That error path is not modelled. Nor is the state it leaves: `setStart` and `setEnd` have already cleared the old start's or end's flag when they throw (scripts/maze.js:154-158, 174-178). Every caller in the model passes a cell in the grid.
- BreadthFirst.BFSSolver.Solve: the path is proved to be a shortest walk only when the board starts with no visited cell. `solveMaze` calls `resetVisited` first (scripts/main.js:305), so this always holds there. On a board that already has visited cells, the search skips them, and no walk length can be promised.
- Dijkstra.DijkstraSolver.Solve: the shortest-path promise and `found` exactly when the end is reachable are proved only when the board starts with no visited cell, as `resetVisited` leaves it (scripts/main.js:305). On a board with visited cells, the search skips them.
- AStar.AStarSolver.Solve: the path is proved to be a walk from start to end. It is not proved to be a least-cost path. The queue never lowers the priority of a cell that is already open, so a proof would have to deal with that.
- AsyncDijkstra.SolveMazeWithDijkstra: the path has exactly as many steps as the end's distance. That distance is not proved minimal.
- WallFollower.WallFollowerSolver.Solve: the walk runs at most `fuel` steps, because the right-hand rule need not end on a maze with islands. A run that uses up its fuel reports no path. The source would keep walking forever.
- AsyncDijkstra.SolveMazeWithDijkstra, AsyncAStar.SolveMazeWithAStar, AsyncDepthFirst.SolveMazeWithDFS: the source's set-up loops read `maze.rows` and `maze.cols`, which `Maze` does not define. Those loops therefore run zero times. The model uses `size` for both, so the loops run as their authors evidently meant. As written, each solver behaves as follows:
  - Dijkstra: the loop is also what fills `unvisitedSet`, which stays empty. The main loop never runs, and the function returns `{path: null, visitedCells: []}` at once (algorithms/dijkstra.js:24-31, 37, 85).
  - A*: every cell's `gScore` is `undefined` except the start's and any set by an earlier A* run. The test `tentativeGScore < neighbor.gScore` is then false, so no neighbour is relaxed (algorithms/a-star.js:25-32, 81). On a fresh maze only a start that is also the end is found.
  - Depth-first search: `visited` and `parent` keep whatever earlier runs left (algorithms/depth-first.js:24-29). A run after an A* or DFS run skips the cells those runs visited.
- A*'s per-cell `visited` flag in algorithms/a-star.js is written but never read. The model leaves it out.
- Kruskal.GenerateKruskal: uses the corrected set index `SetIndex` (see Findings). The index as written, `(row * size + col) / 2`, is not a valid set index. For an even size it is fractional for some cells. For an odd size it can point past the allocated arrays. Either way `find` reads a `parent` element that does not exist and returns `undefined`, so two such cells look joined.
- The second `PriorityQueue` in algorithms/solving/dijkstra.js is the same as the one in algorithms/solving/a-star.js. It is modelled once, as `PriorityQueues.PriorityQueue`.
- The alternate solvers' scratch state is modelled as maps, so in-place updates of shared cell objects, and aliasing between the solvers, are not captured.

## Findings

| source | as written | input that shows it | evidently intended | confidence | as-written member | corrected member |
|---|---|---|---|---|---|---|
| algorithms/generation/kruskal.js:58-59 | the set index of odd cell (row, col) is `(row * size + col) / 2` | size 4, cell (1,1): index 2.5, which `find` never reaches; size 5, cell (3,3): index 9, but the constructor allocates only 9 elements (0..8) | the index `(row / 2) * ceil(size / 2) + col / 2`, an injective numbering of the odd cells within the allocated elements | high, not executed | Kruskal.WrittenIndexMisses | Kruskal.SetIndex |
| algorithms/generation/prim.js:22-23 | the random start coordinate is `Math.floor(Math.random() * (size / 2)) * 2 + 1` | size 5 and a random value of 0.9: `floor(2.25) * 2 + 1 = 5`, outside the grid | an odd coordinate below `size`, `floor(u * floor(size / 2)) * 2 + 1` (the same formula appears in backtracking.js:21-22 and dfs-generation.js:21-22) | high, not executed | Generators.WrittenStartOutOfBounds | Generators.StartCoordinate |

/**
 * What the loop of AStarSolver.solve (algorithms/solving/a-star.js) keeps
 * between two processCell calls: the open set (a sorted queue of entries
 * and the set of its elements), the closed set, the parent tree and the g
 * and f scores.
 */
module AStarSpec {
  import opened Geometry
  import opened MazeSpec
  import opened StableSort
  import opened PriorityQueues
  import opened Solving

  // ---------------------------------------------------------------------
  // The search state and one relaxation

  /** The board, openSet's entries and element set, closedSet, parentMap, gScore and fScore. */
  datatype Scan = Scan(b: Board, es: seq<Entry<Pos>>, open: set<Pos>, closed: set<Pos>,
                       parentMap: map<Pos, Pos>, g: map<Pos, nat>, f: map<Pos, nat>)

  /**
   * One turn of the for loop over the neighbours: on a first gScore or a
   * strictly smaller one through current, the parent, gScore and fScore
   * change together; a neighbour not in the open set is then enqueued at
   * its fScore and marked frontier, and one already in it keeps its entry.
   */
  function Relax(st: Scan, current: Pos, n: Pos, end: Pos): Scan
    requires Initialized(st.b) && InBounds(st.b.size, n) && current in st.g
  {
    var t := st.g[current] + 1;
    if n !in st.g || t < st.g[n] then
      var fn := t + Manhattan(n, end);
      var st' := st.(parentMap := st.parentMap[n := current], g := st.g[n := t], f := st.f[n := fn]);
      if n in st.open then st'
      else st'.(b := WithFrontier(st.b, n), es := InsertBy(st.es, Entry(n, fn), Priority), open := st.open + {n})
    else st
  }

  /** The for loop over the filtered neighbours fs, in order. */
  function RelaxAll(st: Scan, current: Pos, fs: seq<Pos>, end: Pos): (r: Scan)
    requires Initialized(st.b) && current in st.g && forall q :: q in fs ==> InBounds(st.b.size, q)
    ensures Initialized(r.b) && r.b.size == st.b.size && st.g.Keys <= r.g.Keys && r.closed == st.closed
    decreases |fs|
  {
    if fs == [] then st
    else
      var pre := fs[..|fs| - 1];
      assert forall q :: q in pre ==> q in fs;
      assert fs[|fs| - 1] in fs;
      Relax(RelaxAll(st, current, pre, end), current, fs[|fs| - 1], end)
  }

  lemma RelaxAllSnoc(st: Scan, current: Pos, fs: seq<Pos>, end: Pos, i: int)
    requires Initialized(st.b) && current in st.g && forall q :: q in fs ==> InBounds(st.b.size, q)
    requires 0 <= i < |fs|
    ensures forall q :: q in fs[..i + 1] ==> InBounds(st.b.size, q)
    ensures RelaxAll(st, current, fs[..i + 1], end) == Relax(RelaxAll(st, current, fs[..i], end), current, fs[i], end)
  {
    assert fs[..i + 1][..i] == fs[..i];
    assert forall q :: q in fs[..i + 1] ==> q in fs;
  }

  /** `.filter(cell => !cell.isWall && !closedSet.has(cell))` over getNeighbors. */
  function OpenUnclosed(b: Board, closed: set<Pos>, ns: seq<Pos>): (fs: seq<Pos>)
    requires forall q :: q in ns ==> InGrid(b, q)
    ensures forall q :: q in fs <==> q in ns && !At(b, q).isWall && q !in closed
    ensures |fs| <= |ns|
    decreases |ns|
  {
    if ns == [] then []
    else
      var pre, q := ns[..|ns| - 1], ns[|ns| - 1];
      assert forall x :: x in ns <==> x in pre || x == q;
      var rest := OpenUnclosed(b, closed, pre);
      if !At(b, q).isWall && q !in closed then rest + [q] else rest
  }

  // ---------------------------------------------------------------------
  // One processCell call

  /**
   * processCell on a non-empty open set: the first entry leaves the queue
   * and the set.  The end stops the search (found); any other cell is
   * closed, marked visited, and its open neighbours outside the closed set
   * are relaxed in getNeighbors order.
   */
  ghost predicate Turn(b0: Board, st: Scan, st': Scan, found: bool) {
    var holds := Base(b0) && Initialized(st.b) && st.b.size == b0.size && st.es != [] &&
      InBounds(b0.size, st.es[0].element) && st.es[0].element in st.g &&
      var current := st.es[0].element;
      var out := st.(es := st.es[1..], open := st.open - {current});
      if current == b0.end.value then
        found && st' == out
      else
        var v := WithVisited(st.b, current);
        var closing := out.(b := v, closed := st.closed + {current});
        !found && st' == RelaxAll(closing, current, OpenUnclosed(v, closing.closed, Neighbors(b0.size, current, false)), b0.end.value);
    holds
  }

  /** What every Turn from st needs: a maze, a non-empty queue whose head is in the grid and has a gScore. */
  ghost predicate TurnFrom(b0: Board, st: Scan) {
    var holds := Base(b0) && Initialized(st.b) && st.b.size == b0.size && st.es != [] &&
      InBounds(b0.size, st.es[0].element) && st.es[0].element in st.g;
    holds
  }

  /** Under the invariant a non-empty queue is ready for a turn. */
  lemma InvTurnFrom(b0: Board, st: Scan)
    requires Inv(b0, st) && st.es != []
    ensures TurnFrom(b0, st)
  {
    assert Head(b0, st);
    InvHead(b0, st);
  }

  /** The invariant keeps the layout of the board the search started on. */
  lemma InvLayout(b0: Board, st: Scan)
    requires Inv(b0, st)
    ensures Base(b0) && SameLayout(b0, st.b)
  {
  }

  /** Dequeuing the end stops the search with the end out of the queue and its set. */
  lemma TurnOfEnd(b0: Board, st: Scan)
    requires TurnFrom(b0, st) && st.es[0].element == b0.end.value
    ensures Turn(b0, st, st.(es := st.es[1..], open := st.open - {st.es[0].element}), true)
  {
  }

  /** A turn on another head: it is closed and marked visited, and its filtered neighbours are relaxed. */
  ghost predicate Expanded(b0: Board, st: Scan, st': Scan) {
    var holds := TurnFrom(b0, st) && st.es[0].element != b0.end.value &&
      var current := st.es[0].element;
      var v := WithVisited(st.b, current);
      var closing := st.(b := v, es := st.es[1..], open := st.open - {current}, closed := st.closed + {current});
      st' == RelaxAll(closing, current, OpenUnclosed(v, closing.closed, Neighbors(b0.size, current, false)), b0.end.value);
    holds
  }

  lemma TurnOfExpand(b0: Board, st: Scan, st': Scan)
    requires Expanded(b0, st, st')
    ensures Turn(b0, st, st', false)
  {
  }

  // ---------------------------------------------------------------------
  // The invariant

  /** No cell has two entries in the queue. */
  predicate Distinct(es: seq<Entry<Pos>>) {
    forall i, j :: 0 <= i < j < |es| ==> es[i].element != es[j].element
  }

  /** The board has a start and an end: what the invariant's parts need to name them. */
  ghost predicate Ends(b0: Board) {
    var holds := b0.start.Some? && b0.end.Some?;
    holds
  }

  /** An open cell is in the grid, scored, not closed, and the start or a cell with a parent. */
  ghost predicate OpenCell(b0: Board, st: Scan, p: Pos)
    requires Ends(b0)
  {
    var holds := InBounds(b0.size, p) && p in st.g && p !in st.closed && (p == b0.start.value || p in st.parentMap);
    holds
  }

  /** A closed cell is in the grid, scored, and the start or a cell with a parent. */
  ghost predicate ClosedCell(b0: Board, st: Scan, p: Pos)
    requires Ends(b0)
  {
    var holds := InBounds(b0.size, p) && p in st.g && (p == b0.start.value || p in st.parentMap);
    holds
  }

  /**
   * The queue is sorted by priority, holds each cell at most once, and its
   * cells are exactly the element set; they are open cells.
   */
  ghost predicate Queue(b0: Board, st: Scan)
    requires Ends(b0)
  {
    SortedBy(st.es, Priority) && Distinct(st.es) && st.open == Elements(st.es) &&
    forall p :: p in st.open ==> OpenCell(b0, st, p)
  }

  /** One parent edge: an open orthogonal step out of a closed cell, one more in gScore. */
  ghost predicate TreeEdge(b0: Board, st: Scan, p: Pos)
    requires Ends(b0) && p in st.parentMap
  {
    var q := st.parentMap[p];
    var holds := InBounds(b0.size, p) && Open(WallsOf(b0), p) && Adjacent(q, p) && q in st.closed &&
      p in st.g && q in st.g && st.g[p] == st.g[q] + 1;
    holds
  }

  /** parentMap is a tree of such edges; the start has none and gScore 0; fScore is gScore plus the heuristic. */
  ghost predicate Tree(b0: Board, st: Scan)
    requires Ends(b0)
  {
    var s, t := b0.start.value, b0.end.value;
    s in st.g && st.g[s] == 0 && s !in st.parentMap &&
    (forall p {:trigger st.parentMap[p]} :: p in st.parentMap ==> TreeEdge(b0, st, p)) &&
    (forall p :: p in st.g ==> p in st.f && st.f[p] == st.g[p] + Manhattan(p, t))
  }

  /** Closed cells are well placed; the start is closed first, so before that only it is open. */
  ghost predicate Closing(b0: Board, st: Scan)
    requires Ends(b0)
  {
    (forall p :: p in st.closed ==> ClosedCell(b0, st, p)) &&
    (st.closed == {} ==> forall p :: p in st.open ==> p == b0.start.value) &&
    (st.closed != {} ==> b0.start.value in st.closed)
  }

  ghost predicate Inv(b0: Board, st: Scan) {
    var holds := Base(b0) && SameLayout(b0, st.b) && Queue(b0, st) && Tree(b0, st) && Closing(b0, st);
    holds
  }

  /** The cells of the grid not yet closed: the loop's measure. */
  ghost function NotClosed(b0: Board, st: Scan): set<Pos> {
    AllCells(b0.size) - st.closed
  }

  // ---------------------------------------------------------------------
  // Before the loop

  /** The start at gScore 0 and fScore its heuristic is the only open cell, and nothing is closed. */
  lemma InvStart(b0: Board, b: Board)
    requires Starting(b0, b)
    ensures var s, h := b0.start.value, Manhattan(b0.start.value, b0.end.value);
      Inv(b0, Scan(b, [Entry(s, h)], {s}, {}, map[], map[s := 0], map[s := h]))
  {
    var s, h := b0.start.value, Manhattan(b0.start.value, b0.end.value);
    var st := Scan(b, [Entry(s, h)], {s}, {}, map[], map[s := 0], map[s := h]);
    assert Elements(st.es) == {s} by {
      assert st.es[0] in st.es;
    }
  }

  // ---------------------------------------------------------------------
  // The queue

  /** Dequeuing the first entry of a queue without repeats drops exactly its cell. */
  lemma DequeueDistinct(es: seq<Entry<Pos>>)
    requires Distinct(es) && es != []
    ensures Distinct(es[1..]) && Elements(es[1..]) == Elements(es) - {es[0].element}
  {
    forall x ensures x in Elements(es[1..]) <==> x in Elements(es) - {es[0].element} {
      if x in Elements(es[1..]) {
        var e :| e in es[1..] && e.element == x;
        var k :| 1 <= k < |es| && es[k] == e;
        assert es[k - 1 + 1] == e;
      }
      if x in Elements(es) - {es[0].element} {
        var e :| e in es && e.element == x;
        var k :| 0 <= k < |es| && es[k] == e;
        assert k != 0 && es[1..][k - 1] == e;
      }
    }
  }

  /** A cell that is not queued, spliced into a queue without repeats, leaves it without repeats. */
  lemma DistinctSplice(a: seq<Entry<Pos>>, e: Entry<Pos>, c: seq<Entry<Pos>>)
    requires Distinct(a + c) && e.element !in Elements(a + c)
    ensures Distinct(a + [e] + c)
  {
    var r, s := a + [e] + c, a + c;
    forall j, k | 0 <= j < k < |r| ensures r[j].element != r[k].element {
      if k < |a| {
        assert r[j] == s[j] && r[k] == s[k];
      } else if k == |a| {
        assert r[k] == e && r[j] == s[j] && s[j] in s;
      } else if j < |a| {
        assert r[k] == s[k - 1] && r[j] == s[j];
      } else if j == |a| {
        assert r[j] == e && r[k] == s[k - 1] && s[k - 1] in s;
      } else {
        assert r[k] == s[k - 1] && r[j] == s[j - 1];
      }
    }
  }

  /** Enqueueing a cell that is not queued keeps the queue sorted and without repeats, and adds the cell. */
  lemma EnqueueDistinct(es: seq<Entry<Pos>>, e: Entry<Pos>)
    requires SortedBy(es, Priority) && Distinct(es) && e.element !in Elements(es)
    ensures var r := InsertBy(es, e, Priority);
      SortedBy(r, Priority) && Distinct(r) && Elements(r) == Elements(es) + {e.element}
  {
    var r, i := InsertBy(es, e, Priority), InsertionPoint(es, e, Priority);
    assert r == es[..i] + [e] + es[i..] by { InsertByPlacement(es, e, Priority); }
    assert SortedBy(r, Priority) by { InsertBySorted(es, e, Priority); }
    assert Elements(r) == Elements(es) + {e.element} by {
      InsertByPerm(es, e, Priority);
      EnqueueMembers(r, es, e);
    }
    assert Distinct(r) by {
      assert es[..i] + es[i..] == es;
      DistinctSplice(es[..i], e, es[i..]);
    }
  }

  // ---------------------------------------------------------------------
  // One relaxation and the for loop

  /** What a relaxation of n from current needs: current closed, n an open neighbour outside the closed set. */
  ghost predicate Relaxable(b0: Board, st: Scan, current: Pos, n: Pos) {
    var holds := Inv(b0, st) && current in st.closed && current in st.g &&
      InBounds(b0.size, n) && Adjacent(current, n) && Open(WallsOf(b0), n) && n !in st.closed;
    holds
  }

  /**
   * A relaxation that changes something: n gets current as its parent and
   * the new scores, the closed set stays, and the queue stays sorted without
   * repeats, n now in it.
   */
  ghost predicate Reshaped(b0: Board, st: Scan, r: Scan, current: Pos, n: Pos) {
    var holds := Relaxable(b0, st, current, n) && n != b0.start.value &&
      r.parentMap == st.parentMap[n := current] && r.g == st.g[n := st.g[current] + 1] &&
      r.f == st.f[n := st.g[current] + 1 + Manhattan(n, b0.end.value)] && r.closed == st.closed &&
      SameLayout(b0, r.b) && SortedBy(r.es, Priority) && Distinct(r.es) && r.open == Elements(r.es) &&
      r.open == st.open + {n};
    holds
  }

  /** What a relaxation reads off Relaxable: the board, the queue, and that n is not the start. */
  lemma RelaxableFacts(b0: Board, st: Scan, current: Pos, n: Pos)
    requires Relaxable(b0, st, current, n)
    ensures Base(b0) && Initialized(st.b) && st.b.size == b0.size && InBounds(st.b.size, n) && current in st.g
    ensures n != b0.start.value && SameLayout(b0, st.b)
    ensures SortedBy(st.es, Priority) && Distinct(st.es) && st.open == Elements(st.es)
  {
  }

  /** markFrontier and the enqueue of a cell not in the open set, against the layout of b0. */
  lemma Enqueued(b0: Board, st: Scan, n: Pos, fn: nat) returns (v: Board, es: seq<Entry<Pos>>)
    requires Inv(b0, st) && InBounds(b0.size, n) && n !in st.open
    ensures Initialized(st.b) && InBounds(st.b.size, n) && v == WithFrontier(st.b, n) && SameLayout(b0, v)
    ensures es == InsertBy(st.es, Entry(n, fn), Priority)
    ensures SortedBy(es, Priority) && Distinct(es) && Elements(es) == st.open + {n}
  {
    v := WithFrontier(st.b, n);
    FlagKeepsLayout(b0, st.b, n);
    es := InsertBy(st.es, Entry(n, fn), Priority);
    EnqueueDistinct(st.es, Entry(n, fn));
  }

  /** What Relax makes of st when n is reached more cheaply through current, field by field. */
  ghost predicate Rescore(st: Scan, r: Scan, current: Pos, n: Pos, end: Pos) {
    var holds := Initialized(st.b) && InBounds(st.b.size, n) && current in st.g &&
      var t := st.g[current] + 1;
      r.parentMap == st.parentMap[n := current] && r.g == st.g[n := t] && r.f == st.f[n := t + Manhattan(n, end)] &&
      r.closed == st.closed &&
      if n in st.open then r.b == st.b && r.es == st.es && r.open == st.open
      else r.b == WithFrontier(st.b, n) && r.es == InsertBy(st.es, Entry(n, t + Manhattan(n, end)), Priority) &&
           r.open == st.open + {n};
    holds
  }

  /** An improving relaxation, read field by field. */
  lemma Rescored(st: Scan, current: Pos, n: Pos, end: Pos) returns (r: Scan)
    requires Initialized(st.b) && InBounds(st.b.size, n) && current in st.g
    requires n !in st.g || st.g[current] + 1 < st.g[n]
    ensures r == Relax(st, current, n, end) && Rescore(st, r, current, n, end)
  {
    r := Relax(st, current, n, end);
  }

  /** An improving relaxation keeps the layout and the queue shape, and rewrites the tree at n. */
  lemma Reshape(b0: Board, st: Scan, r: Scan, current: Pos, n: Pos)
    requires Relaxable(b0, st, current, n) && Rescore(st, r, current, n, b0.end.value)
    ensures Reshaped(b0, st, r, current, n)
  {
    RelaxableFacts(b0, st, current, n);
    var t := st.g[current] + 1;
    if n in st.open {
      assert st.open + {n} == st.open;
    } else {
      var v, es := Enqueued(b0, st, n, t + Manhattan(n, b0.end.value));
    }
  }

  lemma RelaxQueue(b0: Board, st: Scan, r: Scan, current: Pos, n: Pos)
    requires Reshaped(b0, st, r, current, n)
    ensures Queue(b0, r)
  {
    forall p | p in r.open ensures OpenCell(b0, r, p) {
      if p != n {
        assert OpenCell(b0, st, p);
      }
    }
  }

  lemma RelaxTree(b0: Board, st: Scan, r: Scan, current: Pos, n: Pos)
    requires Reshaped(b0, st, r, current, n)
    ensures Tree(b0, r)
  {
    forall p | p in r.parentMap ensures TreeEdge(b0, r, p) {
      if p != n {
        assert TreeEdge(b0, st, p);
      }
    }
  }

  lemma RelaxClosing(b0: Board, st: Scan, r: Scan, current: Pos, n: Pos)
    requires Reshaped(b0, st, r, current, n)
    ensures Closing(b0, r)
  {
    forall p | p in r.closed ensures ClosedCell(b0, r, p) {
      assert ClosedCell(b0, st, p);
    }
  }

  lemma InvRelax(b0: Board, st: Scan, current: Pos, n: Pos)
    requires Relaxable(b0, st, current, n)
    ensures Inv(b0, Relax(st, current, n, b0.end.value))
  {
    if n !in st.g || st.g[current] + 1 < st.g[n] {
      RelaxableFacts(b0, st, current, n);
      var r := Rescored(st, current, n, b0.end.value);
      Reshape(b0, st, r, current, n);
      RelaxQueue(b0, st, r, current, n);
      RelaxTree(b0, st, r, current, n);
      RelaxClosing(b0, st, r, current, n);
    }
  }

  /** The invariant, a closed and scored current cell, and neighbours of it that are open and not closed. */
  ghost predicate Relaxing(b0: Board, st: Scan, current: Pos, fs: seq<Pos>) {
    var holds := Inv(b0, st) && current in st.closed && current in st.g &&
      forall q :: q in fs ==> InBounds(b0.size, q) && Adjacent(current, q) && Open(WallsOf(b0), q) && q !in st.closed;
    holds
  }

  /** The for loop over neighbours of a closed cell that are open and outside the closed set keeps the invariant. */
  lemma {:induction false} InvRelaxAll(b0: Board, st: Scan, current: Pos, fs: seq<Pos>)
    requires Relaxing(b0, st, current, fs)
    ensures Inv(b0, RelaxAll(st, current, fs, b0.end.value))
    decreases |fs|
  {
    if fs != [] {
      var pre, n := fs[..|fs| - 1], fs[|fs| - 1];
      assert forall q :: q in pre ==> q in fs;
      assert n in fs;
      InvRelaxAll(b0, st, current, pre);
      InvRelax(b0, RelaxAll(st, current, pre, b0.end.value), current, n);
    }
  }

  // ---------------------------------------------------------------------
  // One processCell call as a transition

  /** The invariant with a non-empty open set. */
  ghost predicate Head(b0: Board, st: Scan) {
    var holds := Inv(b0, st) && st.es != [];
    holds
  }

  /** The head of a non-empty queue is an open cell of the grid with a gScore. */
  lemma InvHead(b0: Board, st: Scan)
    requires Head(b0, st)
    ensures InBounds(b0.size, st.es[0].element) && st.es[0].element in st.g && st.es[0].element !in st.closed
    ensures Initialized(st.b) && st.b.size == b0.size
  {
    assert st.es[0].element in Elements(st.es) by {
      assert st.es[0] in st.es;
    }
  }

  /** Taking the head out of the queue and its set. */
  lemma Unqueue(b0: Board, st: Scan) returns (out: Scan)
    requires Head(b0, st)
    ensures out == st.(es := st.es[1..], open := st.open - {st.es[0].element})
    ensures SortedBy(out.es, Priority) && Distinct(out.es) && out.open == Elements(out.es)
    ensures forall p :: p in out.open ==> OpenCell(b0, st, p)
  {
    out := st.(es := st.es[1..], open := st.open - {st.es[0].element});
    DequeueDistinct(st.es);
    DequeueMembers(st.es);
  }

  /** When the end is dequeued the invariant stays, and the end is the start or has a parent. */
  lemma InvFound(b0: Board, st: Scan) returns (out: Scan)
    requires Head(b0, st) && st.es[0].element == b0.end.value
    ensures out == st.(es := st.es[1..], open := st.open - {st.es[0].element})
    ensures Inv(b0, out) && (b0.end.value == b0.start.value || b0.end.value in out.parentMap)
  {
    InvHead(b0, st);
    out := Unqueue(b0, st);
    assert OpenCell(b0, st, b0.end.value);
    assert Queue(b0, out);
  }

  /** markVisited on the dequeued cell, against the layout of b0. */
  lemma Mark(b0: Board, st: Scan) returns (v: Board)
    requires Head(b0, st)
    ensures Initialized(st.b) && InBounds(st.b.size, st.es[0].element) && v == WithVisited(st.b, st.es[0].element)
    ensures SameLayout(b0, v)
  {
    InvHead(b0, st);
    v := WithVisited(st.b, st.es[0].element);
    VisitKeepsLayout(b0, st.b, st.es[0].element);
  }

  /** Closing the head of the queue: it leaves the queue and the set, is marked visited and joins the closed set. */
  ghost predicate Closes(st: Scan, closing: Scan) {
    var holds := st.es != [] && Initialized(st.b) && InBounds(st.b.size, st.es[0].element) &&
      var current := st.es[0].element;
      closing == st.(b := WithVisited(st.b, current), es := st.es[1..], open := st.open - {current}, closed := st.closed + {current});
    holds
  }

  /** What the closing state is built from: the old invariant, the open head, and the shortened queue. */
  ghost predicate CloseStep(b0: Board, st: Scan, closing: Scan) {
    var holds := Base(b0) && Inv(b0, st) && st.es != [] &&
      var current := st.es[0].element;
      OpenCell(b0, st, current) && SameLayout(b0, closing.b) &&
      closing.es == st.es[1..] && closing.open == st.open - {current} && closing.closed == st.closed + {current} &&
      closing.parentMap == st.parentMap && closing.g == st.g && closing.f == st.f &&
      SortedBy(closing.es, Priority) && Distinct(closing.es) && closing.open == Elements(closing.es) &&
      (forall p :: p in closing.open ==> OpenCell(b0, st, p));
    holds
  }

  lemma CloseQueue(b0: Board, st: Scan, closing: Scan)
    requires CloseStep(b0, st, closing)
    ensures Queue(b0, closing)
  {
    forall p | p in closing.open ensures OpenCell(b0, closing, p) {
      assert OpenCell(b0, st, p);
    }
  }

  lemma CloseTree(b0: Board, st: Scan, closing: Scan)
    requires CloseStep(b0, st, closing)
    ensures Tree(b0, closing)
  {
    forall p | p in closing.parentMap ensures TreeEdge(b0, closing, p) {
      assert TreeEdge(b0, st, p);
    }
  }

  lemma CloseClosed(b0: Board, st: Scan, closing: Scan, current: Pos)
    requires Ends(b0) && forall p :: p in st.closed ==> ClosedCell(b0, st, p)
    requires InBounds(b0.size, current) && current in st.g && (current == b0.start.value || current in st.parentMap)
    requires closing.closed == st.closed + {current} && closing.g == st.g && closing.parentMap == st.parentMap
    ensures forall p :: p in closing.closed ==> ClosedCell(b0, closing, p)
  {
    forall p | p in closing.closed ensures ClosedCell(b0, closing, p) {
      if p != current {
        assert ClosedCell(b0, st, p);
      }
    }
  }

  lemma CloseClosing(b0: Board, st: Scan, closing: Scan)
    requires CloseStep(b0, st, closing)
    ensures Closing(b0, closing)
  {
    var current := st.es[0].element;
    CloseClosed(b0, st, closing, current);
    assert current in closing.closed;
    if st.closed == {} {
      assert st.es[0] in st.es;
      assert current in st.open;
    }
  }

  lemma CloseInv(b0: Board, st: Scan, closing: Scan)
    requires CloseStep(b0, st, closing)
    ensures Inv(b0, closing)
  {
    CloseQueue(b0, st, closing);
    CloseTree(b0, st, closing);
    CloseClosing(b0, st, closing);
  }

  /** The head, not the end, closed: the invariant holds of the closing state and one cell left NotClosed. */
  ghost predicate Expanding(b0: Board, st: Scan, closing: Scan) {
    var holds := Base(b0) && st.es != [] && st.es[0].element != b0.end.value && Closes(st, closing) && Inv(b0, closing) &&
      var current := st.es[0].element;
      current in closing.closed && current in closing.g && InBounds(b0.size, current) && current !in st.closed &&
      |closing.closed| == |st.closed| + 1 && |NotClosed(b0, closing)| < |NotClosed(b0, st)|;
    holds
  }

  /** Closing the dequeued cell keeps the invariant and takes one cell out of NotClosed. */
  lemma InvClose(b0: Board, st: Scan) returns (closing: Scan)
    requires Head(b0, st) && st.es[0].element != b0.end.value
    ensures Expanding(b0, st, closing)
  {
    InvHead(b0, st);
    var current := st.es[0].element;
    var out := Unqueue(b0, st);
    var v := Mark(b0, st);
    closing := out.(b := v, closed := st.closed + {current});
    assert OpenCell(b0, st, current);
    CloseInv(b0, st, closing);
    CloseCount(b0, st, closing, current);
  }

  /** Closing the head takes it out of the cells not yet closed. */
  lemma CloseCount(b0: Board, st: Scan, closing: Scan, current: Pos)
    requires InBounds(b0.size, current) && current !in st.closed && closing.closed == st.closed + {current}
    ensures |NotClosed(b0, closing)| < |NotClosed(b0, st)| && |closing.closed| == |st.closed| + 1
  {
    InAllCells(b0.size, current);
    FewerUnseen(AllCells(b0.size), st.closed, current);
  }

  /** What one processCell call keeps: the invariant, a parent chain to the end when found, and the measure. */
  ghost predicate Turned(b0: Board, st: Scan, st': Scan, found: bool) {
    var holds := Inv(b0, st') && st.es != [] &&
      (found ==> Traceable(b0, st'.parentMap, st'.g)) &&
      (found ==> st'.closed == st.closed && |st'.es| < |st.es|) &&
      (!found ==> st'.closed == st.closed + {st.es[0].element} && |st'.closed| == |st.closed| + 1 &&
                  |NotClosed(b0, st')| < |NotClosed(b0, st)|);
    holds
  }

  /** A tree of the invariant is what reconstructPath needs, gScore being the ranks. */
  lemma TreeTraceable(b0: Board, st: Scan)
    requires Inv(b0, st) && (b0.end.value == b0.start.value || b0.end.value in st.parentMap)
    ensures Traceable(b0, st.parentMap, st.g)
  {
    var s := b0.start.value;
    forall p | p in st.parentMap
      ensures p in st.g && (st.parentMap[p] != s && st.parentMap[p] in st.parentMap ==> st.parentMap[p] in st.g && st.g[st.parentMap[p]] < st.g[p])
      ensures Adjacent(st.parentMap[p], p) && Open(WallsOf(b0), p) && (st.parentMap[p] == s || st.parentMap[p] in st.parentMap)
    {
      assert TreeEdge(b0, st, p);
      assert ClosedCell(b0, st, st.parentMap[p]);
    }
  }

  /** Dequeuing the end: the invariant stays and the end has a parent chain. */
  lemma TurnFound(b0: Board, st: Scan, st': Scan, found: bool)
    requires Head(b0, st) && st.es[0].element == b0.end.value && Turn(b0, st, st', found)
    ensures Turned(b0, st, st', found)
  {
    var out := InvFound(b0, st);
    TreeTraceable(b0, out);
  }

  /** The filtered neighbours of a cell are open neighbours in the grid outside the closed set. */
  lemma Expansion(b0: Board, st: Scan, closing: Scan) returns (fs: seq<Pos>)
    requires Expanding(b0, st, closing)
    ensures Initialized(closing.b) && fs == OpenUnclosed(closing.b, closing.closed, Neighbors(b0.size, st.es[0].element, false))
    ensures Relaxing(b0, closing, st.es[0].element, fs)
  {
    fs := OpenUnclosed(closing.b, closing.closed, Neighbors(b0.size, st.es[0].element, false));
    SameLayoutWalls(b0, closing.b);
  }

  /** The state a turn that closes the head ends in: the relaxations of its filtered neighbours. */
  lemma ExpandStep(b0: Board, st: Scan, st': Scan, found: bool, closing: Scan, fs: seq<Pos>)
    requires Turn(b0, st, st', found) && Expanding(b0, st, closing) && Initialized(closing.b)
    requires fs == OpenUnclosed(closing.b, closing.closed, Neighbors(b0.size, st.es[0].element, false))
    ensures !found && Initialized(closing.b) && st.es[0].element in closing.g && forall q :: q in fs ==> InBounds(closing.b.size, q)
    ensures st' == RelaxAll(closing, st.es[0].element, fs, b0.end.value)
  {
  }

  /** Closing any other cell and relaxing its neighbours: the invariant stays and one more cell is closed. */
  lemma TurnExpand(b0: Board, st: Scan, st': Scan, found: bool)
    requires Head(b0, st) && st.es[0].element != b0.end.value && Turn(b0, st, st', found)
    ensures Turned(b0, st, st', found)
  {
    var current := st.es[0].element;
    var closing := InvClose(b0, st);
    var fs := Expansion(b0, st, closing);
    ExpandStep(b0, st, st', found, closing, fs);
    InvRelaxAll(b0, closing, current, fs);
    assert NotClosed(b0, st') == NotClosed(b0, closing);
  }

  /** One processCell call keeps the invariant; a found end has a parent chain; the loop measure falls. */
  lemma TurnInv(b0: Board, st: Scan, st': Scan, found: bool)
    requires Inv(b0, st) && Turn(b0, st, st', found)
    ensures Turned(b0, st, st', found)
  {
    assert Head(b0, st);
    if st.es[0].element == b0.end.value {
      TurnFound(b0, st, st', found);
    } else {
      TurnExpand(b0, st, st', found);
    }
  }
}

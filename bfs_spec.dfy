/**
 * The search state of BFSSolver (algorithms/solving/breadth-first.js)
 * between two steps, and the lemmas that one step keeps it.
 *
 * The state is stated over the initial board b0 and the set V of visited
 * cells: a solver changes nothing but search marks, so walls and flags are
 * read from b0.  markVisited leaves the start and end cells unmarked, so
 * those two can be enqueued again each time a neighbour of theirs is
 * expanded.  `log` is every cell ever enqueued after the start, in order;
 * `done` the expanded cells; `rank` the time each cell last got its parent.
 */
module BreadthFirstSpec {
  import opened Geometry
  import opened MazeSpec
  import opened Solving

  // ---------------------------------------------------------------------
  // Termination

  /**
   * A queue entry's weight: 2 for the cell flagged start, 1 for the cell
   * flagged end, 4 for any other.  Expanding a cell that enqueues no
   * markable cell can enqueue only those two, which weigh less than it.
   */
  function Weight(b0: Board, q: Pos): nat {
    if Initialized(b0) && InBounds(b0.size, q) && At(b0, q).isStart then 2
    else if Initialized(b0) && InBounds(b0.size, q) && At(b0, q).isEnd then 1
    else 4
  }

  function WeightSum(b0: Board, qs: seq<Pos>): nat {
    if qs == [] then 0 else Weight(b0, qs[0]) + WeightSum(b0, qs[1..])
  }

  lemma {:induction false} WeightSumAppend(b0: Board, a: seq<Pos>, c: seq<Pos>)
    ensures WeightSum(b0, a + c) == WeightSum(b0, a) + WeightSum(b0, c)
    decreases |a|
  {
    if a == [] {
      assert a + c == c;
    } else {
      assert (a + c)[0] == a[0] && (a + c)[1..] == a[1..] + c;
      WeightSumAppend(b0, a[1..], c);
    }
  }

  /** Distinct cells drawn from {s, t} weigh at most what s and t weigh. */
  lemma {:induction false} FlaggedWeight(b0: Board, fs: seq<Pos>, s: Pos, t: Pos)
    requires NoDuplicates(fs) && forall q :: q in fs ==> q == s || q == t
    ensures WeightSum(b0, fs) <= (if s in fs then Weight(b0, s) else 0) + (if t in fs && t != s then Weight(b0, t) else 0)
    decreases |fs|
  {
    if fs != [] {
      var rest := fs[1..];
      forall k | 0 <= k < |rest| ensures rest[k] != fs[0] {
        assert rest[k] == fs[k + 1];
      }
      assert NoDuplicates(rest) by {
        forall i, j | 0 <= i < j < |rest| ensures rest[i] != rest[j] {
          assert rest[i] == fs[i + 1] && rest[j] == fs[j + 1];
        }
      }
      assert forall x :: x in fs <==> x == fs[0] || x in rest;
      assert WeightSum(b0, fs) == Weight(b0, fs[0]) + WeightSum(b0, rest);
      FlaggedWeight(b0, rest, s, t);
      assert fs[0] in fs;
      if fs[0] == s {
        assert s !in rest && (t in rest && t != s <==> t in fs && t != s);
      } else {
        assert fs[0] == t && t != s && t !in rest && (s in rest <==> s in fs);
      }
    }
  }

  /** The markable cells of the grid not yet visited: the first component of every loop's measure. */
  ghost function ToVisit(b0: Board, V: set<Pos>): set<Pos>
    requires Initialized(b0)
  {
    Markable(b0, AllCells(b0.size)) - V
  }

  /** What a cell weighs, by whether it is the start, the end or neither. */
  lemma WeightFacts(b0: Board, q: Pos)
    requires Base(b0) && InBounds(b0.size, q)
    ensures q != b0.start.value && q != b0.end.value ==> Weight(b0, q) == 4
    ensures q == b0.start.value && q != b0.end.value ==> Weight(b0, q) >= 2
    ensures !At(b0, q).isWall && Unmarkable(At(b0, q)) ==>
      (q == b0.start.value || q == b0.end.value) && Weight(b0, q) <= 2 &&
      (q != b0.start.value ==> Weight(b0, q) == 1)
  {
  }

  /** Enqueueing a markable cell visits it, so fewer cells are left to visit. */
  lemma MeasureMarked(b0: Board, V: set<Pos>, fs: seq<Pos>, q: Pos)
    requires Base(b0) && q in fs && InBounds(b0.size, q) && !Unmarkable(At(b0, q)) && q !in V
    ensures |ToVisit(b0, V + Markable(b0, Members(fs)))| < |ToVisit(b0, V)|
  {
    InAllCells(b0.size, q);
    var before, after := ToVisit(b0, V), ToVisit(b0, V + Markable(b0, Members(fs)));
    assert q in Markable(b0, Members(fs));
    assert q in before;
    SubsetSize(after, before - {q});
  }

  /** Enqueueing only the start and the end weighs less than the expanded cell, which is neither the end nor among them. */
  lemma MeasureFlagged(b0: Board, queue: seq<Pos>, fs: seq<Pos>)
    requires Base(b0) && queue != [] && InBounds(b0.size, queue[0])
    requires queue[0] != b0.end.value && queue[0] !in fs && NoDuplicates(fs)
    requires forall q :: q in fs ==> InBounds(b0.size, q) && !At(b0, q).isWall && Unmarkable(At(b0, q))
    ensures WeightSum(b0, queue[1..] + fs) < WeightSum(b0, queue)
  {
    var s, t, current := b0.start.value, b0.end.value, queue[0];
    forall q | q in fs ensures q == s || q == t {
      WeightFacts(b0, q);
    }
    FlaggedWeight(b0, fs, s, t);
    WeightSumAppend(b0, queue[1..], fs);
    if s in fs {
      WeightFacts(b0, s);
    }
    if t in fs && t != s {
      WeightFacts(b0, t);
    }
    WeightFacts(b0, current);
  }

  /**
   * One expansion lowers the measure (cells to visit, weight of the queue):
   * either a markable cell was enqueued and marked visited, or only the
   * flagged start and end were enqueued, which weigh less than the
   * expanded cell.
   */
  lemma ExpandMeasure(b0: Board, V: set<Pos>, queue: seq<Pos>, fs: seq<Pos>)
    requires Base(b0) && queue != [] && InBounds(b0.size, queue[0])
    requires queue[0] != b0.end.value && queue[0] !in fs && NoDuplicates(fs)
    requires forall q :: q in fs ==> InBounds(b0.size, q) && !At(b0, q).isWall && q !in V
    ensures |ToVisit(b0, V + Markable(b0, Members(fs)))| < |ToVisit(b0, V)| ||
            (ToVisit(b0, V + Markable(b0, Members(fs))) == ToVisit(b0, V) &&
             WeightSum(b0, queue[1..] + fs) < WeightSum(b0, queue))
  {
    if q :| q in fs && !Unmarkable(At(b0, q)) {
      MeasureMarked(b0, V, fs, q);
    } else {
      assert Markable(b0, Members(fs)) == {};
      MeasureFlagged(b0, queue, fs);
    }
  }

  // ---------------------------------------------------------------------
  // What holds between two steps

  /** The start and every cell ever enqueued. */
  ghost function Seen(s: Pos, log: seq<Pos>): set<Pos> {
    {s} + Members(log)
  }

  /**
   * The parent map is a ranked tree of open cells rooted at the start, and
   * every parent other than the start is visited, so it is never enqueued
   * again and its rank never changes.
   */
  ghost predicate Tree(b0: Board, V: set<Pos>, parentMap: map<Pos, Pos>, rank: map<Pos, nat>, clock: nat)
    requires Base(b0)
  {
    var s := b0.start.value;
    ParentEdges(WallsOf(b0), parentMap, s) && Ranked(parentMap, s, rank) &&
    forall p {:trigger parentMap[p]} :: p in parentMap ==>
      p in rank && rank[p] < clock && InBounds(b0.size, parentMap[p]) && (parentMap[p] == s || parentMap[p] in V)
  }

  /** Queued cells are seen, have a parent unless they are the start, and are visited unless they are the start or the end. */
  ghost predicate Queued(b0: Board, V: set<Pos>, queue: seq<Pos>, parentMap: map<Pos, Pos>, log: seq<Pos>)
    requires Base(b0)
  {
    var s, t := b0.start.value, b0.end.value;
    forall q :: q in queue ==>
      InBounds(b0.size, q) && q in Seen(s, log) && (q == s || q in parentMap) && (q == s || q == t || q in V)
  }

  /** Enqueued cells are open; the markable ones are visited, and only the start and the end are enqueued twice. */
  ghost predicate Logged(b0: Board, V: set<Pos>, log: seq<Pos>)
    requires Base(b0)
  {
    (forall q :: q in log ==> InBounds(b0.size, q) && Open(WallsOf(b0), q) && (!Unmarkable(At(b0, q)) ==> q in V)) &&
    (forall i, j :: 0 <= i < j < |log| && log[i] == log[j] ==> Unmarkable(At(b0, log[i])))
  }

  /**
   * Every seen cell is expanded or queued, the end is never expanded, an
   * open neighbour of an expanded cell is seen, pending (about to be
   * enqueued) or was visited before the search, and every visited cell was
   * visited before or is seen.  Pending cells are open and unvisited.
   */
  ghost predicate Closed(b0: Board, V: set<Pos>, queue: seq<Pos>, log: seq<Pos>, done: set<Pos>, pending: set<Pos>)
    requires Base(b0)
  {
    var walls, s, t, n := WallsOf(b0), b0.start.value, b0.end.value, b0.size;
    (forall q :: q in Seen(s, log) ==> q in done || q in queue) && t !in done &&
    (forall d, q :: d in done && Adjacent(d, q) && Open(walls, q) ==> q in Seen(s, log) || q in pending || q in Visited(b0)) &&
    V <= Visited(b0) + Seen(s, log) &&
    (forall q :: q in pending ==> InBounds(n, q) && Open(walls, q) && q !in V)
  }

  /** The search state between two steps. */
  ghost predicate Inv(b0: Board, V: set<Pos>, queue: seq<Pos>, parentMap: map<Pos, Pos>, rank: map<Pos, nat>,
                      clock: nat, log: seq<Pos>, done: set<Pos>, pending: set<Pos>)
  {
    match b0.start
    case None => false
    case Some(_) =>
      Base(b0) && Tree(b0, V, parentMap, rank, clock) && Queued(b0, V, queue, parentMap, log) &&
      Logged(b0, V, log) && Closed(b0, V, queue, log, done, pending)
  }

  /** Before the first step: markVisited(start) has run and only the start is queued. */
  lemma InvStart(b0: Board)
    requires Base(b0)
    ensures Inv(b0, Visited(b0) + Markable(b0, {b0.start.value}), [b0.start.value], map[], map[], 0, [], {}, {})
  {
    assert Members([]) == {};
    MarkableFacts(b0, b0, {b0.start.value}, {}, b0.start.value);
  }

  /** Shifting a cell other than the end off the queue makes it expanded, with its filtered neighbours pending. */
  lemma InvDequeue(b0: Board, V: set<Pos>, queue: seq<Pos>, parentMap: map<Pos, Pos>, rank: map<Pos, nat>,
                   clock: nat, log: seq<Pos>, done: set<Pos>, fs: seq<Pos>)
    requires Inv(b0, V, queue, parentMap, rank, clock, log, done, {})
    requires queue != [] && queue[0] != b0.end.value
    requires forall q :: q in fs <==> q in Neighbors(b0.size, queue[0], false) && Open(WallsOf(b0), q) && q !in V
    ensures Inv(b0, V, queue[1..], parentMap, rank, clock, log, done + {queue[0]}, Members(fs))
    ensures InBounds(b0.size, queue[0])
    ensures queue[0] == b0.start.value || queue[0] in V
    ensures queue[0] == b0.start.value || queue[0] in parentMap
  {
    var current, walls := queue[0], WallsOf(b0);
    assert current in queue;
    assert Queued(b0, V, queue[1..], parentMap, log) by {
      assert forall q :: q in queue[1..] ==> q in queue;
    }
    forall q | q in Seen(b0.start.value, log) ensures q in done + {current} || q in queue[1..] {
      assert q in done || q in queue;
      assert q in queue ==> q == current || q in queue[1..];
    }
    forall q | Adjacent(current, q) && Open(walls, q)
      ensures q in Seen(b0.start.value, log) || q in Members(fs) || q in Visited(b0)
    {
      assert q in Neighbors(b0.size, current, false);
    }
  }

  /** The parents the for loop sets: every filtered neighbour gets current. */
  function ParentsOf(fs: seq<Pos>, current: Pos): map<Pos, Pos> {
    map q | q in fs :: current
  }

  /** ParentsOf gains one entry per neighbour processed. */
  lemma ParentsSnoc(parentMap: map<Pos, Pos>, fs: seq<Pos>, i: int, current: Pos)
    requires 0 <= i < |fs|
    ensures parentMap + ParentsOf(fs[..i + 1], current) == (parentMap + ParentsOf(fs[..i], current))[fs[i] := current]
  {
    assert forall x :: x in fs[..i + 1] <==> x in fs[..i] || x == fs[i];
  }

  /** The board after the for loop has marked each of fs visited and then frontier, in order. */
  ghost function Enqueued(b: Board, fs: seq<Pos>): (r: Board)
    requires Initialized(b) && forall q :: q in fs ==> InBounds(b.size, q)
    ensures Initialized(r) && r.size == b.size
    decreases |fs|
  {
    if fs == [] then b
    else
      var last := fs[|fs| - 1];
      assert forall q :: q in fs[..|fs| - 1] ==> q in fs;
      var r0 := Enqueued(b, fs[..|fs| - 1]);
      WithFrontier(WithVisited(r0, last), last)
  }

  /** The ranks the model gives one expansion's neighbours: all the current clock. */
  ghost function RanksOf(fs: seq<Pos>, clock: nat): map<Pos, nat> {
    map q | q in fs :: clock
  }

  /** What the filter guarantees about the neighbours fs of the expanded cell current. */
  ghost predicate CanExpand(b0: Board, V: set<Pos>, parentMap: map<Pos, Pos>, current: Pos, fs: seq<Pos>)
    requires Base(b0)
  {
    NoDuplicates(fs) && InBounds(b0.size, current) &&
    (current == b0.start.value || current in V) &&
    (current == b0.start.value || current in parentMap) &&
    forall q :: q in fs ==> InBounds(b0.size, q) && Open(WallsOf(b0), q) && q !in V && Adjacent(current, q)
  }

  /** The new edges current -> q are open steps from the start or from a parented cell, ranked after current. */
  lemma ExpandTree(b0: Board, V: set<Pos>, parentMap: map<Pos, Pos>, rank: map<Pos, nat>, clock: nat,
                   current: Pos, fs: seq<Pos>)
    requires Base(b0) && Tree(b0, V, parentMap, rank, clock) && CanExpand(b0, V, parentMap, current, fs)
    ensures Tree(b0, V + Markable(b0, Members(fs)), parentMap + ParentsOf(fs, current),
                 rank + RanksOf(fs, clock), clock + 1)
  {
    var s, pm, rk := b0.start.value, parentMap + ParentsOf(fs, current), rank + RanksOf(fs, clock);
    var V' := V + Markable(b0, Members(fs));
    forall p | p in pm
      ensures Adjacent(pm[p], p) && Open(WallsOf(b0), p) && (pm[p] == s || pm[p] in pm)
      ensures p in rk && (pm[p] != s && pm[p] in pm ==> pm[p] in rk && rk[pm[p]] < rk[p])
      ensures rk[p] < clock + 1 && InBounds(b0.size, pm[p]) && (pm[p] == s || pm[p] in V)
    {
      if p in fs {
        NewEdge(b0, V, parentMap, rank, clock, current, fs, p);
      } else {
        OldEdge(b0, V, parentMap, rank, clock, current, fs, p);
      }
    }
  }

  /** A filtered neighbour p gets the edge current -> p, ranked at the current clock, after current. */
  lemma NewEdge(b0: Board, V: set<Pos>, parentMap: map<Pos, Pos>, rank: map<Pos, nat>, clock: nat,
                current: Pos, fs: seq<Pos>, p: Pos)
    requires Base(b0) && Tree(b0, V, parentMap, rank, clock) && CanExpand(b0, V, parentMap, current, fs)
    requires p in fs
    ensures var s, pm, rk := b0.start.value, parentMap + ParentsOf(fs, current), rank + RanksOf(fs, clock);
      p in pm && pm[p] == current && Adjacent(pm[p], p) && Open(WallsOf(b0), p) && (pm[p] == s || pm[p] in pm) &&
      p in rk && rk[p] == clock && (pm[p] != s && pm[p] in pm ==> pm[p] in rk && rk[pm[p]] < rk[p]) &&
      InBounds(b0.size, pm[p]) && (pm[p] == s || pm[p] in V)
  {
    var s, pm, rk := b0.start.value, parentMap + ParentsOf(fs, current), rank + RanksOf(fs, clock);
    assert pm[p] == current && rk[p] == clock;
    if current != s {
      assert current !in fs && rk[current] == rank[current];
    }
  }

  /** An old edge keeps its parent and its rank. */
  lemma OldEdge(b0: Board, V: set<Pos>, parentMap: map<Pos, Pos>, rank: map<Pos, nat>, clock: nat,
                current: Pos, fs: seq<Pos>, p: Pos)
    requires Base(b0) && Tree(b0, V, parentMap, rank, clock) && CanExpand(b0, V, parentMap, current, fs)
    requires p in parentMap && p !in fs
    ensures var s, pm, rk := b0.start.value, parentMap + ParentsOf(fs, current), rank + RanksOf(fs, clock);
      p in pm && pm[p] == parentMap[p] && Adjacent(pm[p], p) && Open(WallsOf(b0), p) && (pm[p] == s || pm[p] in pm) &&
      p in rk && rk[p] < clock && (pm[p] != s && pm[p] in pm ==> pm[p] in rk && rk[pm[p]] < rk[p]) &&
      InBounds(b0.size, pm[p]) && (pm[p] == s || pm[p] in V)
  {
    var s, pm, rk := b0.start.value, parentMap + ParentsOf(fs, current), rank + RanksOf(fs, clock);
    assert pm[p] == parentMap[p] && rk[p] == rank[p];
    if parentMap[p] != s {
      assert parentMap[p] !in fs;
    }
  }

  /** Seen cells after logging fs: the ones before, and fs. */
  lemma SeenAppend(s: Pos, log: seq<Pos>, fs: seq<Pos>)
    ensures Seen(s, log + fs) == Seen(s, log) + Members(fs)
  {
    assert forall x :: x in log + fs <==> x in log || x in fs;
  }

  /** The markable cells of fs, which are not visited, become visited; the unmarkable ones are the start or the end. */
  lemma ExpandMarks(b0: Board, V: set<Pos>, fs: seq<Pos>)
    requires Base(b0) && forall q :: q in fs ==> InBounds(b0.size, q) && Open(WallsOf(b0), q)
    ensures forall q :: q in fs ==> (q in V + Markable(b0, Members(fs)) <==> q in V || !Unmarkable(At(b0, q)))
    ensures forall q :: q in fs && Unmarkable(At(b0, q)) ==> q == b0.start.value || q == b0.end.value
  {
  }

  lemma ExpandQueued(b0: Board, V: set<Pos>, queue: seq<Pos>, parentMap: map<Pos, Pos>, log: seq<Pos>,
                     current: Pos, fs: seq<Pos>)
    requires Base(b0) && Queued(b0, V, queue, parentMap, log) && CanExpand(b0, V, parentMap, current, fs)
    ensures Queued(b0, V + Markable(b0, Members(fs)), queue + fs, parentMap + ParentsOf(fs, current), log + fs)
  {
    SeenAppend(b0.start.value, log, fs);
    ExpandMarks(b0, V, fs);
    assert forall x :: x in queue + fs <==> x in queue || x in fs;
  }

  lemma ExpandLogged(b0: Board, V: set<Pos>, log: seq<Pos>, parentMap: map<Pos, Pos>, current: Pos, fs: seq<Pos>)
    requires Base(b0) && Logged(b0, V, log) && CanExpand(b0, V, parentMap, current, fs)
    ensures Logged(b0, V + Markable(b0, Members(fs)), log + fs)
  {
    var log' := log + fs;
    ExpandMarks(b0, V, fs);
    assert forall x :: x in log' <==> x in log || x in fs;
    forall i, j | 0 <= i < j < |log'| && log'[i] == log'[j]
      ensures Unmarkable(At(b0, log'[i]))
    {
      if j < |log| {
        assert log'[i] == log[i] && log'[j] == log[j];
      } else if i < |log| {
        assert log'[i] == log[i] && log[i] in log;
        assert log'[j] == fs[j - |log|] && fs[j - |log|] in fs;
      } else {
        assert false;
      }
    }
  }

  lemma ExpandClosed(b0: Board, V: set<Pos>, queue: seq<Pos>, log: seq<Pos>, done: set<Pos>,
                     parentMap: map<Pos, Pos>, current: Pos, fs: seq<Pos>)
    requires Base(b0) && Closed(b0, V, queue, log, done, Members(fs)) && CanExpand(b0, V, parentMap, current, fs)
    ensures Closed(b0, V + Markable(b0, Members(fs)), queue + fs, log + fs, done, {})
  {
    SeenAppend(b0.start.value, log, fs);
    assert forall x :: x in queue + fs <==> x in queue || x in fs;
  }

  /**
   * The whole for loop over the pending neighbours fs of current keeps the
   * state: each is enqueued and logged, gets current as its parent, and
   * joins the visited cells when markable; nothing is pending afterwards.
   */
  lemma InvExpand(b0: Board, V: set<Pos>, queue: seq<Pos>, parentMap: map<Pos, Pos>, rank: map<Pos, nat>,
                  clock: nat, log: seq<Pos>, done: set<Pos>, current: Pos, fs: seq<Pos>)
    requires Inv(b0, V, queue, parentMap, rank, clock, log, done, Members(fs))
    requires NoDuplicates(fs) && InBounds(b0.size, current)
    requires current == b0.start.value || current in V
    requires current == b0.start.value || current in parentMap
    requires forall q :: q in fs ==> Adjacent(current, q)
    ensures Inv(b0, V + Markable(b0, Members(fs)), queue + fs, parentMap + ParentsOf(fs, current),
                rank + RanksOf(fs, clock), clock + 1, log + fs, done, {})
  {
    assert CanExpand(b0, V, parentMap, current, fs);
    ExpandTree(b0, V, parentMap, rank, clock, current, fs);
    ExpandQueued(b0, V, queue, parentMap, log, current, fs);
    ExpandLogged(b0, V, log, parentMap, current, fs);
    ExpandClosed(b0, V, queue, log, done, parentMap, current, fs);
  }

  /**
   * One turn of processCell that does not stop: current = queue[0] is
   * shifted off and expanded.  The state holds again, and the measure
   * (cells left to visit, weight of the queue) goes down.
   */
  lemma InvStep(b0: Board, V: set<Pos>, queue: seq<Pos>, parentMap: map<Pos, Pos>, rank: map<Pos, nat>,
                clock: nat, log: seq<Pos>, done: set<Pos>, fs: seq<Pos>)
    requires Inv(b0, V, queue, parentMap, rank, clock, log, done, {})
    requires queue != [] && queue[0] != b0.end.value
    requires forall q :: q in fs <==> q in Neighbors(b0.size, queue[0], false) && Open(WallsOf(b0), q) && q !in V
    requires NoDuplicates(fs) && queue[0] !in fs
    requires forall q :: q in fs ==> Adjacent(queue[0], q) && InBounds(b0.size, q) && !At(b0, q).isWall
    ensures Inv(b0, V + Markable(b0, Members(fs)), queue[1..] + fs, parentMap + ParentsOf(fs, queue[0]),
                rank + RanksOf(fs, clock), clock + 1, log + fs, done + {queue[0]}, {})
    ensures |ToVisit(b0, V + Markable(b0, Members(fs)))| < |ToVisit(b0, V)| ||
            (ToVisit(b0, V + Markable(b0, Members(fs))) == ToVisit(b0, V) &&
             WeightSum(b0, queue[1..] + fs) < WeightSum(b0, queue))
  {
    InvDequeue(b0, V, queue, parentMap, rank, clock, log, done, fs);
    ExpandMeasure(b0, V, queue, fs);
    InvExpand(b0, V, queue[1..], parentMap, rank, clock, log, done + {queue[0]}, queue[0], fs);
  }

  // ---------------------------------------------------------------------
  // How the search ends

  /** The end at the head of the queue has a parent, unless it is the start, in a ranked tree of open steps. */
  lemma InvFound(b0: Board, V: set<Pos>, queue: seq<Pos>, parentMap: map<Pos, Pos>, rank: map<Pos, nat>,
                 clock: nat, log: seq<Pos>, done: set<Pos>)
    requires Inv(b0, V, queue, parentMap, rank, clock, log, done, {})
    requires queue != [] && queue[0] == b0.end.value
    ensures b0.end.value == b0.start.value || b0.end.value in parentMap
    ensures Ranked(parentMap, b0.start.value, rank) && ParentEdges(WallsOf(b0), parentMap, b0.start.value)
    ensures InBounds(|WallsOf(b0)|, b0.start.value)
  {
    assert queue[0] in queue;
  }

  /**
   * With the queue empty, and no cell visited before the search, the
   * expanded cells are closed under open steps and hold the start but not
   * the end: the end is unreachable.
   */
  lemma InvExhausted(b0: Board, V: set<Pos>, parentMap: map<Pos, Pos>, rank: map<Pos, nat>,
                     clock: nat, log: seq<Pos>, done: set<Pos>)
    requires Inv(b0, V, [], parentMap, rank, clock, log, done, {}) && Visited(b0) == {}
    ensures !Reachable(WallsOf(b0), b0.start.value, b0.end.value)
  {
    var s, t := b0.start.value, b0.end.value;
    assert s in Seen(s, log);
    ClosedContainsReachable(WallsOf(b0), done, s, t);
  }

  /** How the loop of processCell ends: with the end at the head of the queue, or with the queue empty. */
  lemma InvOutcome(b0: Board, V: set<Pos>, queue: seq<Pos>, parentMap: map<Pos, Pos>, rank: map<Pos, nat>,
                   clock: nat, log: seq<Pos>, done: set<Pos>)
    requires Inv(b0, V, queue, parentMap, rank, clock, log, done, {})
    requires queue == [] || queue[0] == b0.end.value
    ensures queue != [] ==> Ranked(parentMap, b0.start.value, rank) && ParentEdges(WallsOf(b0), parentMap, b0.start.value)
    ensures queue != [] ==> b0.end.value == b0.start.value || b0.end.value in parentMap
    ensures queue == [] && Visited(b0) == {} ==> !Reachable(WallsOf(b0), b0.start.value, b0.end.value)
  {
    if queue != [] {
      InvFound(b0, V, queue, parentMap, rank, clock, log, done);
    } else if Visited(b0) == {} {
      InvExhausted(b0, V, parentMap, rank, clock, log, done);
    }
  }
}

/**
 * Why the distances of DijkstraSolver.solve (algorithms/solving/dijkstra.js)
 * are exact once solve starts from a board without visited cells, as
 * resetVisited leaves it: every processed cell has relaxed its open
 * neighbours, so a walk from the start meets the queue no later than its
 * length.  The end is then dequeued at the length of a shortest walk, its
 * reconstructed path has that length, and an empty queue means the end is
 * unreachable.
 */
module DijkstraOptimality {
  import opened Geometry
  import opened MazeSpec
  import opened StableSort
  import opened PriorityQueues
  import opened Solving
  import opened DijkstraSpec

  // ---------------------------------------------------------------------
  // What the relaxations of one expansion do to the distances

  /**
   * r is the state after the relaxations of c's neighbours fs: the same
   * keys and the same distance for c; no distance grows, a changed one was
   * one of fs above c's distance plus one; every one of fs ends at most
   * there; the visited flags are as they were.
   */
  ghost predicate Lowered(st: Scan, r: Scan, c: Pos, fs: seq<Pos>)
    requires c in st.dist
  {
    var d := Succ(st.dist[c]);
    var holds := r.dist.Keys == st.dist.Keys && r.dist[c] == st.dist[c] &&
      (forall q :: q in st.dist ==> CostLe(r.dist[q], st.dist[q]) && (r.dist[q] == st.dist[q] || (q in fs && Below(d, st.dist[q])))) &&
      (forall q :: q in fs ==> q in r.dist && CostLe(r.dist[q], d)) &&
      Initialized(st.b) && Initialized(r.b) && r.b.size == st.b.size &&
      (forall q :: InBounds(st.b.size, q) ==> At(r.b, q).isVisited == At(st.b, q).isVisited);
    holds
  }

  lemma {:induction false} RelaxAllLowers(st: Scan, c: Pos, fs: seq<Pos>)
    requires Initialized(st.b) && c in st.dist && forall q :: q in fs ==> InBounds(st.b.size, q) && q in st.dist
    requires c !in fs
    ensures Lowered(st, RelaxAll(st, c, fs), c, fs)
    decreases |fs|
  {
    if fs == [] {
      return;
    }
    var pre, n := fs[..|fs| - 1], fs[|fs| - 1];
    assert forall q :: q in pre ==> q in fs;
    assert n in fs && fs == pre + [n];
    RelaxAllLowers(st, c, pre);
    LoweredStep(st, RelaxAll(st, c, pre), c, pre, n);
  }

  /** One more relaxation, of n, keeps Lowered. */
  lemma LoweredStep(st: Scan, mid: Scan, c: Pos, pre: seq<Pos>, n: Pos)
    requires c in st.dist && Lowered(st, mid, c, pre) && InBounds(st.b.size, n) && n in st.dist && c != n
    ensures Lowered(st, Relax(mid, c, n), c, pre + [n])
  {
    FrontierFlags(mid.b, n);
    var r := Relax(mid, c, n);
    var d := Succ(st.dist[c]);
    assert Succ(mid.dist[c]) == d;
    forall q | q in st.dist
      ensures CostLe(r.dist[q], st.dist[q]) && (r.dist[q] == st.dist[q] || (q in pre + [n] && Below(d, st.dist[q])))
    {
      if q != n {
        assert r.dist[q] == mid.dist[q];
      }
    }
  }

  // ---------------------------------------------------------------------
  // The closure of the processed cells

  /** Every open orthogonal neighbour of w has a distance at most one more than w's finite one. */
  ghost predicate Spread(b0: Board, dist: map<Pos, Cost>, w: Pos) {
    w in dist && dist[w].Finite? &&
    forall q :: Adjacent(w, q) && Open(WallsOf(b0), q) ==> q in dist && CostLe(dist[q], Finite(dist[w].n + 1))
  }

  /**
   * The start is at distance 0, every visited cell has been processed, and
   * every processed cell but the end has spread to its open neighbours.
   */
  ghost predicate Closed(b0: Board, st: Scan, log: seq<Pos>) {
    var holds := Framed(b0, st) && b0.start.value in st.dist && st.dist[b0.start.value] == Finite(0) &&
      (forall q :: InBounds(b0.size, q) && At(st.b, q).isVisited ==> q in log) &&
      (forall i :: 0 <= i < |log| && log[i] != b0.end.value ==> Spread(b0, st.dist, log[i]));
    holds
  }

  /** The end's distance is finite and no walk from the start to the end is shorter. */
  ghost predicate Shortest(b0: Board, dist: map<Pos, Cost>)
    requires Base(b0)
  {
    var t := b0.end.value;
    t in dist && dist[t].Finite? && NoShorterWalk(WallsOf(b0), b0.start.value, t, dist[t].n)
  }

  /**
   * On a board that started without visited cells: the closure holds, the
   * end is processed only when found, and then its distance is that of a
   * shortest walk.
   */
  ghost predicate Settled(b0: Board, st: Scan, log: seq<Pos>, found: bool) {
    var holds := Base(b0) && (NoneVisited(b0) ==>
      Closed(b0, st, log) && (!found ==> b0.end.value !in log) && (found ==> Shortest(b0, st.dist)));
    holds
  }

  /** Before the loop nothing is visited, nothing is processed, and the start is at 0. */
  lemma SettledStart(b0: Board, dist: map<Pos, Cost>)
    requires Base(b0) && b0.start.value in dist && dist[b0.start.value] == Finite(0)
    ensures Settled(b0, Scan(b0, [Entry(b0.start.value, 0)], map[], dist), [], false)
  {
  }

  /**
   * Along a walk from the start whose first i cells are visited (none of
   * them the end), the i-th cell has a distance of at most i.
   */
  lemma {:induction false} WalkReach(b0: Board, st: Scan, log: seq<Pos>, walk: seq<Pos>, i: int)
    requires Closed(b0, st, log) && IsWalk(WallsOf(b0), walk) && walk[0] == b0.start.value && 0 <= i < |walk|
    requires forall k :: 0 <= k < i ==> InBounds(b0.size, walk[k]) && At(st.b, walk[k]).isVisited && walk[k] != b0.end.value
    ensures walk[i] in st.dist && CostLe(st.dist[walk[i]], Finite(i))
    decreases i
  {
    if i > 0 {
      WalkReach(b0, st, log, walk, i - 1);
      var w := walk[i - 1];
      assert w in log;
      var k :| 0 <= k < |log| && log[k] == w;
      assert Spread(b0, st.dist, log[k]);
      assert Adjacent(w, walk[i]) && Open(WallsOf(b0), walk[i]);
    }
  }

  /** The first cell of a walk that is not visited, when its last cell is not. */
  lemma FirstUnvisited(b0: Board, st: Scan, walk: seq<Pos>) returns (j: int)
    requires Framed(b0, st) && IsWalk(WallsOf(b0), walk) && InBounds(b0.size, walk[|walk| - 1])
    requires !At(st.b, walk[|walk| - 1]).isVisited
    ensures 0 <= j < |walk| && InBounds(b0.size, walk[j]) && !At(st.b, walk[j]).isVisited
    ensures forall k :: 0 <= k < j ==> InBounds(b0.size, walk[k]) && At(st.b, walk[k]).isVisited && walk[k] != walk[|walk| - 1]
  {
    j := 0;
    WalkInBounds(WallsOf(b0), walk, 0);
    while At(st.b, walk[j]).isVisited
      invariant 0 <= j < |walk| && InBounds(b0.size, walk[j])
      invariant forall k :: 0 <= k < j ==> InBounds(b0.size, walk[k]) && At(st.b, walk[k]).isVisited && walk[k] != walk[|walk| - 1]
      decreases |walk| - j
    {
      j := j + 1;
      WalkInBounds(WallsOf(b0), walk, j);
    }
  }

  /**
   * A walk from the start to the end, which is not visited, meets the
   * queue: some cell of it not visited is queued at a distance no larger
   * than the number of steps to it.
   */
  lemma WalkMeetsQueue(b0: Board, st: Scan, log: seq<Pos>, last: nat, walk: seq<Pos>) returns (j: int)
    requires Inv(b0, st, log, last) && Closed(b0, st, log) && !At(st.b, b0.end.value).isVisited
    requires IsWalk(WallsOf(b0), walk) && walk[0] == b0.start.value && walk[|walk| - 1] == b0.end.value
    ensures 0 <= j < |walk| && walk[j] in st.dist && st.dist[walk[j]].Finite? && st.dist[walk[j]].n <= j
    ensures Entry(walk[j], st.dist[walk[j]].n) in st.es
  {
    j := FirstUnvisited(b0, st, walk);
    WalkReach(b0, st, log, walk, j);
    assert Pending(b0, st);
  }

  /**
   * The end dequeued not visited: its distance is the head's priority,
   * and no walk from the start to it is shorter.
   */
  lemma FoundShortest(b0: Board, st: Scan, log: seq<Pos>, last: nat)
    requires Inv(b0, st, log, last) && Closed(b0, st, log) && st.es != []
    requires st.es[0].element == b0.end.value && !At(st.b, b0.end.value).isVisited
    ensures Shortest(b0, st.dist) && st.dist[b0.end.value] == Finite(st.es[0].priority)
  {
    DequeuedDistance(b0, st, last);
    var s, t, d := b0.start.value, b0.end.value, st.es[0].priority;
    FirstIsLeast(st.es, Priority);
    forall walk | IsWalk(WallsOf(b0), walk) && walk[0] == s && walk[|walk| - 1] == t
      ensures d <= |walk| - 1
    {
      var j := WalkMeetsQueue(b0, st, log, last, walk);
      assert CostLe(Priority(st.es[0]), Priority(Entry(walk[j], st.dist[walk[j]].n)));
    }
  }

  /** With the end not processed, a walk to it leaves something queued. */
  lemma Complete(b0: Board, st: Scan, log: seq<Pos>, last: nat)
    requires Inv(b0, st, log, last) && Closed(b0, st, log) && b0.end.value !in log
    ensures Reachable(WallsOf(b0), b0.start.value, b0.end.value) ==> st.es != []
  {
    if Reachable(WallsOf(b0), b0.start.value, b0.end.value) {
      var walk :| IsWalk(WallsOf(b0), walk) && walk[0] == b0.start.value && walk[|walk| - 1] == b0.end.value;
      var j := WalkMeetsQueue(b0, st, log, last, walk);
    }
  }

  // ---------------------------------------------------------------------
  // One processCell call keeps the closure

  /** A cell processed and expanded spreads to its open neighbours; earlier ones still do. */
  lemma ClosedExpand(b0: Board, st: Scan, log: seq<Pos>, last: nat, current: Pos, p: nat, st': Scan)
    requires ExpandFrom(b0, st, log, last, current, p) && SameLayout(b0, st.b)
    requires st.es != [] && forall q :: InBounds(b0.size, q) ==> q in st.dist
    requires st' == RelaxAll(Scan(Visit(st.b, current), st.es[1..], st.parentMap, st.dist), current,
      OpenUnvisited(Visit(st.b, current), Neighbors(b0.size, current, false)))
    ensures Closed(b0, st', log + [current])
  {
    var v := Visit(st.b, current);
    var st1 := Scan(v, st.es[1..], st.parentMap, st.dist);
    VisitFacts(b0, st.b, current);
    Expansion(b0, v, current);
    var fs := OpenUnvisited(v, Neighbors(v.size, current, false));
    assert current !in fs;
    RelaxAllLowers(st1, current, fs);
    ExpandCloses(b0, st, log, last, v, st', current, p, fs);
  }

  /** What ExpandCloses needs of the state before: closed, logged, with the dequeued cell current at distance p. */
  ghost predicate ExpandFrom(b0: Board, st: Scan, log: seq<Pos>, last: nat, current: Pos, p: nat) {
    var holds := Framed(b0, st) && st.es != [] && Closed(b0, st, log) && Logged(b0, st, log, last) && last <= p &&
      InBounds(b0.size, current) && current != b0.end.value && current in st.dist && st.dist[current] == Finite(p) &&
      !At(st.b, current).isVisited;
    holds
  }

  /** And of the state after: v visits current too, fs holds its open unvisited neighbours, st' relaxed them. */
  ghost predicate ExpandTo(b0: Board, st: Scan, v: Board, st': Scan, current: Pos, fs: seq<Pos>)
    requires Framed(b0, st) && InBounds(b0.size, current) && current in st.dist && st.es != []
  {
    var holds := SameLayout(b0, v) && At(v, current).isVisited &&
      (forall q :: InBounds(b0.size, q) && q != current ==> At(v, q) == At(st.b, q)) &&
      (forall q :: q in Neighbors(v.size, current, false) && !At(v, q).isWall && !At(v, q).isVisited ==> q in fs) &&
      (forall q :: q in fs ==> InBounds(b0.size, q) && !At(v, q).isVisited) &&
      Lowered(Scan(v, st.es[1..], st.parentMap, st.dist), st', current, fs);
    holds
  }

  lemma ExpandCloses(b0: Board, st: Scan, log: seq<Pos>, last: nat, v: Board, st': Scan, current: Pos, p: nat, fs: seq<Pos>)
    requires ExpandFrom(b0, st, log, last, current, p) && ExpandTo(b0, st, v, st', current, fs)
    ensures Closed(b0, st', log + [current])
  {
    var log' := log + [current];
    ExpandVisited(b0, st, log, last, v, st', current, p, fs);
    forall i | 0 <= i < |log'| && log'[i] != b0.end.value ensures Spread(b0, st'.dist, log'[i]) {
      if i < |log| {
        assert log'[i] == log[i];
        ExpandOld(b0, st, log, last, v, st', current, p, fs, i);
      } else {
        ExpandCurrent(b0, st, log, last, v, st', current, p, fs);
      }
    }
  }

  /** The visited cells are the processed ones and current; the start stays at 0. */
  lemma ExpandVisited(b0: Board, st: Scan, log: seq<Pos>, last: nat, v: Board, st': Scan, current: Pos, p: nat, fs: seq<Pos>)
    requires ExpandFrom(b0, st, log, last, current, p) && ExpandTo(b0, st, v, st', current, fs)
    ensures Framed(b0, st') && b0.start.value in st'.dist && st'.dist[b0.start.value] == Finite(0)
    ensures forall q :: InBounds(b0.size, q) && At(st'.b, q).isVisited ==> q in log + [current]
  {
    forall q | InBounds(b0.size, q) && At(st'.b, q).isVisited ensures q in log + [current] {
      if q != current {
        assert At(st.b, q).isVisited;
      }
    }
  }

  /** An earlier processed cell keeps its distance, and its neighbours' only shrink. */
  lemma ExpandOld(b0: Board, st: Scan, log: seq<Pos>, last: nat, v: Board, st': Scan, current: Pos, p: nat, fs: seq<Pos>, i: int)
    requires ExpandFrom(b0, st, log, last, current, p) && ExpandTo(b0, st, v, st', current, fs)
    requires 0 <= i < |log| && log[i] != b0.end.value
    ensures Spread(b0, st'.dist, log[i])
  {
    var w := log[i];
    assert Spread(b0, st.dist, w);
    assert At(st.b, w).isVisited && w != current;
    assert At(v, w).isVisited && w !in fs;
  }

  /** The expanded cell reaches every open neighbour: visited ones are no farther, the others are relaxed. */
  lemma ExpandCurrent(b0: Board, st: Scan, log: seq<Pos>, last: nat, v: Board, st': Scan, current: Pos, p: nat, fs: seq<Pos>)
    requires ExpandFrom(b0, st, log, last, current, p) && ExpandTo(b0, st, v, st', current, fs)
    ensures Spread(b0, st'.dist, current)
  {
    forall q | Adjacent(current, q) && Open(WallsOf(b0), q)
      ensures q in st'.dist && CostLe(st'.dist[q], Finite(p + 1))
    {
      assert q in Neighbors(v.size, current, false);
      if At(v, q).isVisited {
        assert At(st.b, q).isVisited && q in log;
        var k :| 0 <= k < |log| && log[k] == q;
      } else {
        assert q in fs;
      }
    }
  }

  /**
   * A Turn from a settled state that has not found the end is settled
   * again, with the log TurnInv gives.
   */
  lemma SettledTurn(b0: Board, st: Scan, log: seq<Pos>, last: nat, st': Scan, found: bool)
    requires Inv(b0, st, log, last) && Turn(b0, st, st', found) && Settled(b0, st, log, false)
    ensures Settled(b0, st', if At(st.b, st.es[0].element).isVisited then log else log + [st.es[0].element], found)
  {
    if !NoneVisited(b0) {
      return;
    }
    var current := st.es[0].element;
    if At(st.b, current).isVisited {
      return;
    }
    var v := Dequeue(b0, st, last);
    var log' := log + [current];
    if current == b0.end.value {
      FoundShortest(b0, st, log, last);
      ClosedFound(b0, st, log, v);
    } else {
      var p := st.es[0].priority;
      assert ExpandFrom(b0, st, log, last, current, p);
      ClosedExpand(b0, st, log, last, current, p, st');
    }
  }

  /** Processing the end visits it and logs it, and changes no distance. */
  lemma ClosedFound(b0: Board, st: Scan, log: seq<Pos>, v: Board)
    requires Closed(b0, st, log) && st.es != [] && st.es[0].element == b0.end.value
    requires SameLayout(b0, st.b) && v == Visit(st.b, b0.end.value)
    ensures Closed(b0, Scan(v, st.es[1..], st.parentMap, st.dist), log + [b0.end.value])
  {
    var t, log' := b0.end.value, log + [b0.end.value];
    var st' := Scan(v, st.es[1..], st.parentMap, st.dist);
    VisitFacts(b0, st.b, t);
    forall q | InBounds(b0.size, q) && At(v, q).isVisited ensures q in log' {
      if q != t {
        assert At(st.b, q).isVisited;
      }
    }
    forall i | 0 <= i < |log'| && log'[i] != t ensures Spread(b0, st.dist, log'[i]) {
      assert log'[i] == log[i];
    }
  }

  // ---------------------------------------------------------------------
  // What the loop leaves, and the length of the path

  /** Every cell with a parent is one farther than its parent, both at finite distances. */
  ghost predicate Graded(parentMap: map<Pos, Pos>, dist: map<Pos, Cost>) {
    forall p {:trigger parentMap[p]} :: p in parentMap ==>
      p in dist && parentMap[p] in dist && dist[p].Finite? && dist[parentMap[p]].Finite? &&
      dist[p].n == dist[parentMap[p]].n + 1
  }

  /**
   * What Search leaves on a board without visited cells: the end is found
   * exactly when it is reachable; then the parents grade the distances
   * from the start at 0, and the end's distance is that of a shortest walk.
   */
  ghost predicate Exact(b0: Board, parentMap: map<Pos, Pos>, dist: map<Pos, Cost>, found: bool) {
    var holds := Base(b0) && (NoneVisited(b0) ==>
      var s, t := b0.start.value, b0.end.value;
      (found <==> Reachable(WallsOf(b0), s, t)) &&
      (found ==> Graded(parentMap, dist) && s in dist && dist[s] == Finite(0) && Shortest(b0, dist)));
    holds
  }

  /** The loop stopped with the end found or the queue empty: the outcome is exact. */
  lemma SettledExit(b0: Board, st: Scan, log: seq<Pos>, last: nat, found: bool)
    requires Inv(b0, st, log, last) && Settled(b0, st, log, found) && (found || st.es == [])
    requires found ==> Traceable(b0, st.parentMap, Ranks(st.parentMap, st.dist))
    ensures Exact(b0, st.parentMap, st.dist, found)
  {
    if NoneVisited(b0) {
      if found {
        var s, t := b0.start.value, b0.end.value;
        TreeGraded(b0, st);
        var path, origin := TracedPath(b0, st.parentMap, Ranks(st.parentMap, st.dist));
        PathFacts(b0, st.parentMap, origin, path);
        assert ([s] + path)[0] == s;
      } else {
        Complete(b0, st, log, last);
      }
    }
  }

  /** The tree's distance steps grade the parents. */
  lemma TreeGraded(b0: Board, st: Scan)
    requires Framed(b0, st) && Tree(b0, st)
    ensures Graded(st.parentMap, st.dist)
  {
    forall p | p in st.parentMap
      ensures p in st.dist && st.parentMap[p] in st.dist && st.dist[p].Finite? && st.dist[st.parentMap[p]].Finite?
      ensures st.dist[p].n == st.dist[st.parentMap[p]].n + 1
    {
      assert TreeEdge(b0, st, p);
    }
  }

  /** A traceable parent map has a chain from the start to the end: the one reconstructPath follows. */
  lemma TracedPath(b0: Board, parentMap: map<Pos, Pos>, rank: map<Pos, nat>) returns (path: seq<Pos>, origin: Pos)
    requires Traceable(b0, parentMap, rank)
    ensures Chain(parentMap, origin, path, b0.end.value) && (origin == b0.start.value || origin !in parentMap)
    ensures b0.end.value == b0.start.value || b0.end.value in parentMap
  {
    var s, t := b0.start.value, b0.end.value;
    var trail: seq<Pos> := [];
    var current := t;
    while current != s && current in parentMap
      invariant Trail(parentMap, current, trail, t)
      decreases if current != s && current in parentMap then rank[current] + 1 else 0
    {
      trail := trail + [current];
      current := parentMap[current];
    }
    TrailIsChain(parentMap, current, trail, t);
    path, origin := Reverse(trail), current;
  }

  /** Along a chain from the start at 0 through graded parents, the i-th cell is at distance i + 1. */
  lemma {:induction false} ChainGraded(parentMap: map<Pos, Pos>, dist: map<Pos, Cost>, s: Pos, path: seq<Pos>, t: Pos, i: int)
    requires Graded(parentMap, dist) && s in dist && dist[s] == Finite(0) && Chain(parentMap, s, path, t)
    requires 0 <= i < |path|
    ensures path[i] in dist && dist[path[i]] == Finite(i + 1)
    decreases i
  {
    var prior := Prior(s, path, i);
    assert path[i] in parentMap && parentMap[path[i]] == prior;
    if i > 0 {
      ChainGraded(parentMap, dist, s, path, t, i - 1);
    }
  }

  /** The reconstructed chain from the start to the end is as long as the end's distance. */
  lemma ChainLength(parentMap: map<Pos, Pos>, dist: map<Pos, Cost>, s: Pos, path: seq<Pos>, t: Pos)
    requires Graded(parentMap, dist) && s in dist && dist[s] == Finite(0) && Chain(parentMap, s, path, t)
    ensures t in dist && dist[t] == Finite(|path|)
  {
    if path != [] {
      ChainGraded(parentMap, dist, s, path, t, |path| - 1);
    }
  }

  /** On a board without visited cells, the path solve reconstructs is a shortest walk. */
  lemma ExactPath(b0: Board, parentMap: map<Pos, Pos>, dist: map<Pos, Cost>, path: seq<Pos>)
    requires Exact(b0, parentMap, dist, true) && NoneVisited(b0)
    requires Chain(parentMap, b0.start.value, path, b0.end.value)
    ensures NoShorterWalk(WallsOf(b0), b0.start.value, b0.end.value, |path|)
  {
    ChainLength(parentMap, dist, b0.start.value, path, b0.end.value);
  }
}

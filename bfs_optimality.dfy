/**
 * Why the path BFSSolver.solve (algorithms/solving/breadth-first.js)
 * reconstructs is a shortest one once solve starts from a board without
 * visited cells, as resetVisited leaves it.
 *
 * Each seen cell gets the depth at which it was first enqueued (dep), and
 * each queue entry the depth of the entry it was enqueued from plus one
 * (qd).  The queue is first-in first-out, so its depths never fall and
 * span at most two consecutive levels.  An expanded cell has every open
 * neighbour seen at most one level deeper, so a walk from the start meets
 * the queue no later than its length.  Going back along parentMap, depths
 * fall by one each step; the end, enqueued again whenever a neighbour is
 * expanded, keeps the parent set last, and by the parity of the grid that
 * parent lies above the end's first entry.
 */
module BreadthFirstOptimality {
  import opened Geometry
  import opened MazeSpec
  import opened Solving
  import opened BreadthFirstSpec

  // ---------------------------------------------------------------------
  // Depths

  /** k steps from s can end at q only when k has the parity of their taxicab distance. */
  predicate SameParity(s: Pos, q: Pos, k: int) {
    (k + s.row + s.col + q.row + q.col) % 2 == 0
  }

  /** One orthogonal step flips the parity. */
  lemma ParityStep(s: Pos, p: Pos, q: Pos, k: int)
    requires Adjacent(p, q)
    ensures SameParity(s, p, k) <==> SameParity(s, q, k + 1)
  {
    var a := k + s.row + s.col + p.row + p.col;
    var b := k + 1 + s.row + s.col + q.row + q.col;
    assert b == a || b == a + 2;
  }

  /** The depths of the entries enqueued from an entry at depth k: all k + 1. */
  function Repeat(k: nat, n: nat): (r: seq<nat>)
    ensures |r| == n && forall i :: 0 <= i < n ==> r[i] == k
  {
    seq(n, _ => k)
  }

  /** The depths once fs is enqueued at depth k: the cells of fs not seen before get k. */
  ghost function Reached(dep: map<Pos, nat>, fs: seq<Pos>, k: nat): (r: map<Pos, nat>)
    ensures r.Keys == dep.Keys + Members(fs)
    ensures forall q :: q in dep ==> r[q] == dep[q]
    ensures forall q :: q in fs && q !in dep ==> r[q] == k
  {
    dep + map q | q in fs && q !in dep :: k
  }

  /**
   * One depth per queue entry, never falling along the queue and between
   * level and level + 1; an entry is no shallower than its cell and has its
   * cell's parity.
   */
  ghost predicate Fifo(b0: Board, queue: seq<Pos>, qd: seq<nat>, dep: map<Pos, nat>, level: nat)
    requires Base(b0)
  {
    var s := b0.start.value;
    |qd| == |queue| &&
    (forall i, j :: 0 <= i < j < |qd| ==> qd[i] <= qd[j]) &&
    (forall i :: 0 <= i < |qd| ==>
      level <= qd[i] <= level + 1 && queue[i] in dep && dep[queue[i]] <= qd[i] && SameParity(s, queue[i], qd[i]))
  }

  /** Only the start is at depth 0; no depth is beyond level + 1, and each has its cell's parity. */
  ghost predicate Depths(b0: Board, dep: map<Pos, nat>, level: nat)
    requires Base(b0)
  {
    var s := b0.start.value;
    s in dep && forall q :: q in dep ==> (dep[q] == 0 <==> q == s) && dep[q] <= level + 1 && SameParity(s, q, dep[q])
  }

  /** A seen cell not yet expanded is queued at its depth. */
  ghost predicate Waiting(queue: seq<Pos>, qd: seq<nat>, dep: map<Pos, nat>, done: set<Pos>)
    requires |qd| == |queue|
  {
    forall q :: q in dep && q !in done ==> exists i :: 0 <= i < |queue| && queue[i] == q && qd[i] == dep[q]
  }

  /** Every open neighbour of an expanded cell is seen, at most one level deeper. */
  ghost predicate Spanned(b0: Board, done: set<Pos>, dep: map<Pos, nat>) {
    forall d, q :: d in done && Adjacent(d, q) && Open(WallsOf(b0), q) ==> d in dep && q in dep && dep[q] <= dep[d] + 1
  }

  /**
   * Every cell with a parent is seen, and no parent is the end; a cell
   * other than the start and the end is deeper than a parent other than the
   * start; the end's parent, unless the start, is no deeper than level.
   */
  ghost predicate Deepening(b0: Board, parentMap: map<Pos, Pos>, dep: map<Pos, nat>, level: nat)
    requires Base(b0)
  {
    var s, t := b0.start.value, b0.end.value;
    (forall q {:trigger parentMap[q]} :: q in parentMap ==>
      q in dep && (t != s ==> parentMap[q] != t) &&
      (q != s && q != t && parentMap[q] != s ==> parentMap[q] in dep && dep[parentMap[q]] < dep[q])) &&
    (t in parentMap && parentMap[t] != s ==> parentMap[t] in dep && dep[parentMap[t]] <= level)
  }

  /**
   * The depth bookkeeping of the search, on a board that started without
   * visited cells: the seen cells are the depths' keys, and until the start
   * is expanded it alone is queued.
   */
  ghost predicate Layered(b0: Board, queue: seq<Pos>, qd: seq<nat>, log: seq<Pos>, done: set<Pos>,
                          parentMap: map<Pos, Pos>, dep: map<Pos, nat>, level: nat) {
    var holds := Base(b0) && |qd| == |queue| && (Visited(b0) == {} ==>
      var s := b0.start.value;
      Fifo(b0, queue, qd, dep, level) && Depths(b0, dep, level) && Waiting(queue, qd, dep, done) &&
      Spanned(b0, done, dep) && Deepening(b0, parentMap, dep, level) &&
      dep.Keys == Seen(s, log) && (s in done || (queue == [s] && log == [])));
    holds
  }

  /** Before the first step: the start alone, at depth 0. */
  lemma LayeredStart(b0: Board)
    requires Base(b0)
    ensures Layered(b0, [b0.start.value], [0], [], {}, map[], map[b0.start.value := 0], 0)
  {
    var s := b0.start.value;
    assert Members([]) == {};
    assert SameParity(s, s, 0);
    assert Seen(s, []) == {s};
    var queue, qd, dep := [s], [0], map[s := 0];
    assert queue[0] == s && qd[0] == dep[s];
  }

  // ---------------------------------------------------------------------
  // One expansion keeps the depths

  /**
   * What one expansion of current = queue[0] at depth k = qd[0] brings:
   * current is seen no deeper than k, and exactly at k unless already
   * expanded; the filtered neighbours fs that were seen are the start or
   * the end, the start then expanded; every open neighbour of current is
   * in fs or seen; and no depth is beyond k + 1.
   */
  ghost predicate Expansion(b0: Board, queue: seq<Pos>, qd: seq<nat>, done: set<Pos>, dep: map<Pos, nat>,
                            level: nat, fs: seq<Pos>)
    requires Base(b0)
  {
    var s, t := b0.start.value, b0.end.value;
    var holds := queue != [] && |qd| == |queue| && queue[0] != t &&
      var current, k := queue[0], qd[0];
      current in dep && dep[current] <= k && (current !in done ==> dep[current] == k) &&
      SameParity(s, current, k) && level <= k && current !in fs &&
      (forall q :: q in fs ==> Adjacent(current, q)) &&
      (forall q :: q in fs && q in dep ==> q == t || (q == s && s in done)) &&
      (forall q :: Adjacent(current, q) && Open(WallsOf(b0), q) ==> q in fs || q in dep) &&
      (forall q :: q in dep ==> dep[q] <= k + 1);
    holds
  }

  /** The search state, the depths and the filter give Expansion. */
  lemma ExpansionFacts(b0: Board, V: set<Pos>, queue: seq<Pos>, parentMap: map<Pos, Pos>, rank: map<Pos, nat>,
                       clock: nat, log: seq<Pos>, done: set<Pos>, fs: seq<Pos>, qd: seq<nat>, dep: map<Pos, nat>, level: nat)
    requires Inv(b0, V, queue, parentMap, rank, clock, log, done, {}) && Visited(b0) == {}
    requires Layered(b0, queue, qd, log, done, parentMap, dep, level)
    requires queue != [] && queue[0] != b0.end.value
    requires forall q :: q in fs <==> q in Neighbors(b0.size, queue[0], false) && Open(WallsOf(b0), q) && q !in V
    requires queue[0] !in fs && forall q :: q in fs ==> Adjacent(queue[0], q)
    ensures Expansion(b0, queue, qd, done, dep, level, fs)
  {
    var s, t, current := b0.start.value, b0.end.value, queue[0];
    assert current in queue;
    if current !in done {
      var i :| 0 <= i < |queue| && queue[i] == current && qd[i] == dep[current];
    }
    forall q | q in fs && q in dep ensures q == t || (q == s && s in done) {
      assert q in Seen(s, log);
      if q != s {
        assert q in log;
        ExpandMarks(b0, V, fs);
      } else {
        assert queue != [s];
      }
    }
    forall q | Adjacent(current, q) && Open(WallsOf(b0), q) ensures q in fs || q in dep {
      assert q in Neighbors(b0.size, current, false);
    }
  }

  lemma FifoStep(b0: Board, queue: seq<Pos>, qd: seq<nat>, done: set<Pos>, dep: map<Pos, nat>, level: nat, fs: seq<Pos>)
    requires Base(b0) && Fifo(b0, queue, qd, dep, level) && Depths(b0, dep, level) && Expansion(b0, queue, qd, done, dep, level, fs)
    ensures Fifo(b0, queue[1..] + fs, qd[1..] + Repeat(qd[0] + 1, |fs|), Reached(dep, fs, qd[0] + 1), qd[0])
  {
    var s, k := b0.start.value, qd[0];
    var queue', qd', dep' := queue[1..] + fs, qd[1..] + Repeat(k + 1, |fs|), Reached(dep, fs, k + 1);
    forall i | 0 <= i < |qd'|
      ensures k <= qd'[i] <= k + 1 && queue'[i] in dep' && dep'[queue'[i]] <= qd'[i] && SameParity(s, queue'[i], qd'[i])
    {
      if i < |queue| - 1 {
        assert queue'[i] == queue[i + 1] && qd'[i] == qd[i + 1];
      } else {
        var q := fs[i - (|queue| - 1)];
        assert queue'[i] == q && qd'[i] == k + 1 && q in fs;
        ParityStep(s, queue[0], q, k);
      }
    }
    forall i, j | 0 <= i < j < |qd'| ensures qd'[i] <= qd'[j] {
      if j < |queue| - 1 {
        assert qd'[i] == qd[i + 1] && qd'[j] == qd[j + 1];
      }
    }
  }

  lemma DepthsStep(b0: Board, queue: seq<Pos>, qd: seq<nat>, done: set<Pos>, dep: map<Pos, nat>, level: nat, fs: seq<Pos>)
    requires Base(b0) && Depths(b0, dep, level) && Expansion(b0, queue, qd, done, dep, level, fs)
    ensures Depths(b0, Reached(dep, fs, qd[0] + 1), qd[0])
  {
    var s, k, dep' := b0.start.value, qd[0], Reached(dep, fs, qd[0] + 1);
    forall q | q in dep' ensures (dep'[q] == 0 <==> q == s) && dep'[q] <= k + 1 && SameParity(s, q, dep'[q]) {
      if q !in dep {
        ParityStep(s, queue[0], q, k);
      }
    }
  }

  lemma WaitingStep(b0: Board, queue: seq<Pos>, qd: seq<nat>, done: set<Pos>, dep: map<Pos, nat>, level: nat, fs: seq<Pos>)
    requires Base(b0) && Expansion(b0, queue, qd, done, dep, level, fs) && Waiting(queue, qd, dep, done)
    ensures Waiting(queue[1..] + fs, qd[1..] + Repeat(qd[0] + 1, |fs|), Reached(dep, fs, qd[0] + 1), done + {queue[0]})
  {
    var k := qd[0];
    var queue', qd', dep' := queue[1..] + fs, qd[1..] + Repeat(k + 1, |fs|), Reached(dep, fs, k + 1);
    forall q | q in dep' && q !in done + {queue[0]}
      ensures exists i :: 0 <= i < |queue'| && queue'[i] == q && qd'[i] == dep'[q]
    {
      if q in dep {
        var i :| 0 <= i < |queue| && queue[i] == q && qd[i] == dep[q];
        assert i != 0;
        assert queue'[i - 1] == q && qd'[i - 1] == dep'[q];
      } else {
        var m :| 0 <= m < |fs| && fs[m] == q;
        var i := |queue| - 1 + m;
        assert queue'[i] == q && qd'[i] == dep'[q];
      }
    }
  }

  lemma SpannedStep(b0: Board, queue: seq<Pos>, qd: seq<nat>, done: set<Pos>, dep: map<Pos, nat>, level: nat, fs: seq<Pos>)
    requires Base(b0) && Spanned(b0, done, dep) && Expansion(b0, queue, qd, done, dep, level, fs)
    ensures Spanned(b0, done + {queue[0]}, Reached(dep, fs, qd[0] + 1))
  {
    var current, k, dep' := queue[0], qd[0], Reached(dep, fs, qd[0] + 1);
    forall d, q | d in done + {current} && Adjacent(d, q) && Open(WallsOf(b0), q)
      ensures d in dep' && q in dep' && dep'[q] <= dep'[d] + 1
    {
      if d in done {
        assert d in dep && q in dep;
      } else {
        assert d == current && dep[current] == k;
      }
    }
  }

  lemma DeepeningStep(b0: Board, queue: seq<Pos>, qd: seq<nat>, done: set<Pos>, dep: map<Pos, nat>, level: nat,
                      parentMap: map<Pos, Pos>, fs: seq<Pos>)
    requires Base(b0) && Deepening(b0, parentMap, dep, level) && Expansion(b0, queue, qd, done, dep, level, fs)
    ensures Deepening(b0, parentMap + ParentsOf(fs, queue[0]), Reached(dep, fs, qd[0] + 1), qd[0])
  {
    var s, t, current, k := b0.start.value, b0.end.value, queue[0], qd[0];
    var pm, dep' := parentMap + ParentsOf(fs, current), Reached(dep, fs, k + 1);
    forall q | q in pm
      ensures q in dep' && (t != s ==> pm[q] != t) &&
        (q != s && q != t && pm[q] != s ==> pm[q] in dep' && dep'[pm[q]] < dep'[q])
    {
      if q in fs {
        assert pm[q] == current;
      } else {
        assert pm[q] == parentMap[q];
      }
    }
    if t in pm && pm[t] != s {
      if t in fs {
        assert pm[t] == current;
      } else {
        assert pm[t] == parentMap[t];
      }
    }
  }

  /**
   * One turn of processCell that does not stop keeps the depths: the head,
   * at depth qd[0], is expanded; the new level is qd[0] and its filtered
   * neighbours are enqueued one level deeper.
   */
  lemma LayeredStep(b0: Board, V: set<Pos>, queue: seq<Pos>, parentMap: map<Pos, Pos>, rank: map<Pos, nat>,
                    clock: nat, log: seq<Pos>, done: set<Pos>, fs: seq<Pos>, qd: seq<nat>, dep: map<Pos, nat>, level: nat)
    requires Inv(b0, V, queue, parentMap, rank, clock, log, done, {})
    requires Layered(b0, queue, qd, log, done, parentMap, dep, level)
    requires queue != [] && queue[0] != b0.end.value
    requires forall q :: q in fs <==> q in Neighbors(b0.size, queue[0], false) && Open(WallsOf(b0), q) && q !in V
    requires queue[0] !in fs && forall q :: q in fs ==> Adjacent(queue[0], q)
    ensures Layered(b0, queue[1..] + fs, qd[1..] + Repeat(qd[0] + 1, |fs|), log + fs, done + {queue[0]},
                    parentMap + ParentsOf(fs, queue[0]), Reached(dep, fs, qd[0] + 1), qd[0])
  {
    if Visited(b0) == {} {
      var s := b0.start.value;
      ExpansionFacts(b0, V, queue, parentMap, rank, clock, log, done, fs, qd, dep, level);
      FifoStep(b0, queue, qd, done, dep, level, fs);
      DepthsStep(b0, queue, qd, done, dep, level, fs);
      WaitingStep(b0, queue, qd, done, dep, level, fs);
      SpannedStep(b0, queue, qd, done, dep, level, fs);
      DeepeningStep(b0, queue, qd, done, dep, level, parentMap, fs);
      SeenAppend(s, log, fs);
    }
  }

  // ---------------------------------------------------------------------
  // The end at the head of the queue

  /** No walk from the start to the end is shorter than k, and no chain reconstructPath can follow is longer. */
  ghost predicate Shallow(b0: Board, parentMap: map<Pos, Pos>, k: nat)
    requires Base(b0)
  {
    var s, t := b0.start.value, b0.end.value;
    NoShorterWalk(WallsOf(b0), s, t, k) &&
    forall path :: Chain(parentMap, s, path, t) && s !in path ==> |path| <= k
  }

  /** Along a walk from the start whose first i cells are expanded, the i-th cell is seen at depth at most i. */
  lemma {:induction false} WalkDepth(b0: Board, done: set<Pos>, dep: map<Pos, nat>, level: nat, walk: seq<Pos>, i: int)
    requires Base(b0) && Depths(b0, dep, level) && Spanned(b0, done, dep)
    requires IsWalk(WallsOf(b0), walk) && walk[0] == b0.start.value && 0 <= i < |walk|
    requires forall m :: 0 <= m < i ==> walk[m] in done
    ensures walk[i] in dep && dep[walk[i]] <= i
    decreases i
  {
    if i > 0 {
      WalkDepth(b0, done, dep, level, walk, i - 1);
      assert Adjacent(walk[i - 1], walk[i]) && Open(WallsOf(b0), walk[i]);
    }
  }

  /** A walk from the start to the end, which is never expanded, is no shorter than the depth at the head of the queue. */
  lemma WalkBound(b0: Board, queue: seq<Pos>, qd: seq<nat>, done: set<Pos>, dep: map<Pos, nat>, level: nat, walk: seq<Pos>)
    requires Base(b0) && Fifo(b0, queue, qd, dep, level) && Depths(b0, dep, level)
    requires Waiting(queue, qd, dep, done) && Spanned(b0, done, dep) && b0.end.value !in done && queue != []
    requires IsWalk(WallsOf(b0), walk) && walk[0] == b0.start.value && walk[|walk| - 1] == b0.end.value
    ensures qd[0] <= |walk| - 1
  {
    var j := 0;
    while walk[j] in done
      invariant 0 <= j < |walk| && forall m :: 0 <= m < j ==> walk[m] in done
      decreases |walk| - j
    {
      j := j + 1;
    }
    WalkDepth(b0, done, dep, level, walk, j);
    var i :| 0 <= i < |queue| && queue[i] == walk[j] && qd[i] == dep[walk[j]];
    if i > 0 {
      assert qd[0] <= qd[i];
    }
  }

  /** Along a chain from the start that avoids it, every cell before the end is at depth at least its place plus one. */
  lemma {:induction false} ChainDepth(b0: Board, parentMap: map<Pos, Pos>, dep: map<Pos, nat>, level: nat, path: seq<Pos>, i: int)
    requires Base(b0) && Depths(b0, dep, level) && Deepening(b0, parentMap, dep, level) && b0.end.value != b0.start.value
    requires Chain(parentMap, b0.start.value, path, b0.end.value) && b0.start.value !in path
    requires 0 <= i < |path| - 1
    ensures path[i] in dep && dep[path[i]] >= i + 1
    decreases i
  {
    var s, t := b0.start.value, b0.end.value;
    var next, here := Prior(s, path, i + 1), Prior(s, path, i);
    assert path[i + 1] in parentMap && parentMap[path[i + 1]] == path[i];
    assert path[i] != t && path[i] != s;
    assert path[i] in parentMap && parentMap[path[i]] == here;
    if i > 0 {
      ChainDepth(b0, parentMap, dep, level, path, i - 1);
    }
  }

  /** A chain from the start to the end that avoids the start is no longer than the end's first entry. */
  lemma ChainBound(b0: Board, parentMap: map<Pos, Pos>, queue: seq<Pos>, qd: seq<nat>, dep: map<Pos, nat>, level: nat, path: seq<Pos>)
    requires Base(b0) && Fifo(b0, queue, qd, dep, level) && Depths(b0, dep, level) && Deepening(b0, parentMap, dep, level)
    requires ParentEdges(WallsOf(b0), parentMap, b0.start.value)
    requires queue != [] && queue[0] == b0.end.value
    requires Chain(parentMap, b0.start.value, path, b0.end.value) && b0.start.value !in path
    ensures |path| <= qd[0]
  {
    var s, t, k := b0.start.value, b0.end.value, qd[0];
    if path != [] {
      var last := |path| - 1;
      assert path[last] == t && t != s;
      assert t in dep && dep[t] <= k && level <= k && SameParity(s, t, k);
      var prior := Prior(s, path, last);
      assert t in parentMap && parentMap[t] == prior;
      if last > 0 {
        ParentBound(b0, parentMap, dep, level, path, k);
      }
    }
  }

  /** The end's parent on a chain of two cells or more lies at least one level above the end's first entry k. */
  lemma ParentBound(b0: Board, parentMap: map<Pos, Pos>, dep: map<Pos, nat>, level: nat, path: seq<Pos>, k: nat)
    requires Base(b0) && Depths(b0, dep, level) && Deepening(b0, parentMap, dep, level)
    requires ParentEdges(WallsOf(b0), parentMap, b0.start.value)
    requires level <= k && SameParity(b0.start.value, b0.end.value, k) && b0.end.value != b0.start.value
    requires Chain(parentMap, b0.start.value, path, b0.end.value) && b0.start.value !in path && |path| > 1
    ensures |path| <= k
  {
    ChainDepth(b0, parentMap, dep, level, path, |path| - 2);
    EndParent(b0, parentMap, dep, level, path, k);
  }

  /** The end's parent on such a chain is seen above depth k: no deeper than level, and of the other parity. */
  lemma EndParent(b0: Board, parentMap: map<Pos, Pos>, dep: map<Pos, nat>, level: nat, path: seq<Pos>, k: nat)
    requires Base(b0) && Depths(b0, dep, level) && Deepening(b0, parentMap, dep, level)
    requires ParentEdges(WallsOf(b0), parentMap, b0.start.value)
    requires level <= k && SameParity(b0.start.value, b0.end.value, k) && b0.end.value != b0.start.value
    requires Chain(parentMap, b0.start.value, path, b0.end.value) && b0.start.value !in path && |path| > 1
    ensures path[|path| - 2] in dep && dep[path[|path| - 2]] < k
  {
    var s, t, last := b0.start.value, b0.end.value, |path| - 1;
    var p := path[last - 1];
    var prior := Prior(s, path, last);
    assert t in parentMap && parentMap[t] == p && p != s;
    assert Adjacent(parentMap[t], t);
    var d := dep[p];
    assert d <= level && SameParity(s, p, d);
    ParityApart(s, p, t, d, k);
  }

  /** Neighbours reached in d and k steps have depths of different parity. */
  lemma ParityApart(s: Pos, p: Pos, q: Pos, d: int, k: int)
    requires Adjacent(p, q) && SameParity(s, p, d) && SameParity(s, q, k)
    ensures d != k
  {
    ParityStep(s, p, q, d);
  }

  /** The end at the head of the queue: its depth there bounds every reconstructed chain from below every walk. */
  lemma LayeredFound(b0: Board, V: set<Pos>, queue: seq<Pos>, parentMap: map<Pos, Pos>, rank: map<Pos, nat>,
                     clock: nat, log: seq<Pos>, done: set<Pos>, qd: seq<nat>, dep: map<Pos, nat>, level: nat)
    requires Inv(b0, V, queue, parentMap, rank, clock, log, done, {})
    requires Layered(b0, queue, qd, log, done, parentMap, dep, level) && Visited(b0) == {}
    requires queue != [] && queue[0] == b0.end.value
    ensures Shallow(b0, parentMap, qd[0])
  {
    var s, t := b0.start.value, b0.end.value;
    forall walk | IsWalk(WallsOf(b0), walk) && walk[0] == s && walk[|walk| - 1] == t ensures qd[0] <= |walk| - 1 {
      WalkBound(b0, queue, qd, done, dep, level, walk);
    }
    forall path | Chain(parentMap, s, path, t) && s !in path ensures |path| <= qd[0] {
      ChainBound(b0, parentMap, queue, qd, dep, level, path);
    }
  }

  /** A shortest reconstructed path: Shallow with its chain. */
  lemma ShallowPath(b0: Board, parentMap: map<Pos, Pos>, k: nat, path: seq<Pos>)
    requires Base(b0) && Shallow(b0, parentMap, k)
    requires Chain(parentMap, b0.start.value, path, b0.end.value) && b0.start.value !in path
    ensures NoShorterWalk(WallsOf(b0), b0.start.value, b0.end.value, |path|)
  {
  }
}

/**
 * What the loop of DFSSolver.solve (algorithms/solving/depth-first.js)
 * keeps between two processCell calls, and why it stops.
 */
module DepthFirstSpec {
  import opened Geometry
  import opened MazeSpec
  import opened Solving

  // ---------------------------------------------------------------------
  // The stack measure

  /**
   * What a stacked cell weighs.  The start cell, when it is flagged or has
   * become a wall (after a rejected setStart cleared its flag), is a cell
   * markVisited never marks and that pushes up to four neighbours each time
   * it is popped, so it weighs more than four other cells.
   */
  function Weight(b0: Board, q: Pos): nat {
    if Initialized(b0) && InBounds(b0.size, q) && (At(b0, q).isStart || At(b0, q).isWall) then 5 else 1
  }

  function StackWeight(b0: Board, qs: seq<Pos>): nat {
    if qs == [] then 0 else StackWeight(b0, qs[..|qs| - 1]) + Weight(b0, qs[|qs| - 1])
  }

  lemma {:induction false} StackWeightAppend(b0: Board, a: seq<Pos>, c: seq<Pos>)
    ensures StackWeight(b0, a + c) == StackWeight(b0, a) + StackWeight(b0, c)
    decreases |c|
  {
    if c == [] {
      assert a + c == a;
    } else {
      assert (a + c)[..|a + c| - 1] == a + c[..|c| - 1];
      StackWeightAppend(b0, a, c[..|c| - 1]);
    }
  }

  /** Open cells other than the flagged start weigh one each. */
  lemma {:induction false} LightWeight(b0: Board, fs: seq<Pos>)
    requires forall q :: q in fs ==> Weight(b0, q) == 1
    ensures StackWeight(b0, fs) == |fs|
    decreases |fs|
  {
    if fs != [] {
      assert forall q :: q in fs[..|fs| - 1] ==> q in fs;
      assert fs[|fs| - 1] in fs;
      LightWeight(b0, fs[..|fs| - 1]);
    }
  }

  // ---------------------------------------------------------------------
  // The parent map

  /** `if (!parentMap.has(neighbor)) parentMap.set(neighbor, current)` over fs: only new cells get a parent. */
  function Adopted(parentMap: map<Pos, Pos>, fs: seq<Pos>, current: Pos): map<Pos, Pos> {
    map n | n in fs && n !in parentMap :: current
  }

  /** The ranks the model gives the newly parented cells: the current clock. */
  ghost function AdoptedRanks(parentMap: map<Pos, Pos>, fs: seq<Pos>, clock: nat): map<Pos, nat> {
    map n | n in fs && n !in parentMap :: clock
  }

  /** One turn of the for loop: the next neighbour is adopted unless it already has a parent. */
  lemma AdoptSnoc(parentMap: map<Pos, Pos>, fs: seq<Pos>, i: int, current: Pos)
    requires 0 <= i < |fs|
    ensures var pm := parentMap + Adopted(parentMap, fs[..i], current);
      parentMap + Adopted(parentMap, fs[..i + 1], current) == if fs[i] in pm then pm else pm[fs[i] := current]
  {
    assert forall x :: x in fs[..i + 1] <==> x in fs[..i] || x == fs[i];
  }

  // ---------------------------------------------------------------------
  // The invariant

  /**
   * Stacked cells are in the grid and are the start or open and parented; the
   * parent map is a ranked tree of open steps rooted at the start whose
   * ranks are all below the clock.
   */
  ghost predicate Inv(b0: Board, stack: seq<Pos>, parentMap: map<Pos, Pos>, rank: map<Pos, nat>, clock: nat) {
    Base(b0) &&
    (forall q :: q in stack ==>
      InBounds(b0.size, q) && (q == b0.start.value || (!At(b0, q).isWall && q in parentMap))) &&
    ParentEdges(WallsOf(b0), parentMap, b0.start.value) && Ranked(parentMap, b0.start.value, rank) &&
    forall p {:trigger parentMap[p]} :: p in parentMap ==> p in rank && rank[p] < clock
  }

  lemma InvStart(b0: Board)
    requires Base(b0)
    ensures Inv(b0, [b0.start.value], map[], map[], 0)
  {
  }

  /** Popping the top keeps the invariant, and the popped cell is in the grid and the start, or open and parented. */
  lemma InvPop(b0: Board, stack: seq<Pos>, parentMap: map<Pos, Pos>, rank: map<Pos, nat>, clock: nat)
    requires Inv(b0, stack, parentMap, rank, clock) && stack != []
    ensures Inv(b0, stack[..|stack| - 1], parentMap, rank, clock)
    ensures var current := stack[|stack| - 1];
      InBounds(b0.size, current) && (current == b0.start.value || (!At(b0, current).isWall && current in parentMap))
  {
    assert stack[|stack| - 1] in stack;
    assert forall q :: q in stack[..|stack| - 1] ==> q in stack;
  }

  /** Pushing open neighbours of the popped cell and adopting the new ones keeps the invariant. */
  lemma InvPush(b0: Board, stack: seq<Pos>, parentMap: map<Pos, Pos>, rank: map<Pos, nat>, clock: nat,
                current: Pos, fs: seq<Pos>)
    requires Inv(b0, stack, parentMap, rank, clock)
    requires InBounds(b0.size, current) && (current == b0.start.value || current in parentMap)
    requires forall q :: q in fs ==> InBounds(b0.size, q) && !At(b0, q).isWall && Adjacent(current, q)
    ensures Inv(b0, stack + fs, parentMap + Adopted(parentMap, fs, current),
                rank + AdoptedRanks(parentMap, fs, clock), clock + 1)
  {
    var s, pm, rk := b0.start.value, parentMap + Adopted(parentMap, fs, current), rank + AdoptedRanks(parentMap, fs, clock);
    forall q | q in stack + fs ensures InBounds(b0.size, q) && (q == s || (!At(b0, q).isWall && q in pm)) {
      assert q in stack || q in fs;
    }
    forall p | p in pm
      ensures Adjacent(pm[p], p) && Open(WallsOf(b0), p) && (pm[p] == s || pm[p] in pm)
      ensures p in rk && (pm[p] != s && pm[p] in pm ==> pm[p] in rk && rk[pm[p]] < rk[p]) && rk[p] < clock + 1
    {
      if p in parentMap {
        AdoptKeeps(b0, parentMap, rank, clock, current, fs, p);
      } else {
        AdoptNew(b0, parentMap, rank, clock, current, fs, p);
      }
    }
  }

  /** An old parent stays, with its rank. */
  lemma AdoptKeeps(b0: Board, parentMap: map<Pos, Pos>, rank: map<Pos, nat>, clock: nat,
                   current: Pos, fs: seq<Pos>, p: Pos)
    requires Base(b0) && ParentEdges(WallsOf(b0), parentMap, b0.start.value) && Ranked(parentMap, b0.start.value, rank)
    requires forall p {:trigger parentMap[p]} :: p in parentMap ==> p in rank && rank[p] < clock
    requires p in parentMap
    ensures var s, pm, rk := b0.start.value, parentMap + Adopted(parentMap, fs, current), rank + AdoptedRanks(parentMap, fs, clock);
      p in pm && pm[p] == parentMap[p] && Adjacent(pm[p], p) && Open(WallsOf(b0), p) && (pm[p] == s || pm[p] in pm) &&
      p in rk && rk[p] == rank[p] < clock && (pm[p] != s && pm[p] in pm ==> pm[p] in rk && rk[pm[p]] < rk[p])
  {
    var s, pm, rk := b0.start.value, parentMap + Adopted(parentMap, fs, current), rank + AdoptedRanks(parentMap, fs, clock);
    assert pm[p] == parentMap[p] && rk[p] == rank[p];
    if parentMap[p] != s {
      assert parentMap[p] in parentMap && rk[parentMap[p]] == rank[parentMap[p]];
    }
  }

  /** A newly adopted cell gets current as its parent, an open step ranked after current. */
  lemma AdoptNew(b0: Board, parentMap: map<Pos, Pos>, rank: map<Pos, nat>, clock: nat,
                 current: Pos, fs: seq<Pos>, p: Pos)
    requires Base(b0) && ParentEdges(WallsOf(b0), parentMap, b0.start.value) && Ranked(parentMap, b0.start.value, rank)
    requires forall p {:trigger parentMap[p]} :: p in parentMap ==> p in rank && rank[p] < clock
    requires InBounds(b0.size, current) && (current == b0.start.value || current in parentMap)
    requires forall q :: q in fs ==> InBounds(b0.size, q) && !At(b0, q).isWall && Adjacent(current, q)
    requires p in parentMap + Adopted(parentMap, fs, current) && p !in parentMap
    ensures var s, pm, rk := b0.start.value, parentMap + Adopted(parentMap, fs, current), rank + AdoptedRanks(parentMap, fs, clock);
      pm[p] == current && Adjacent(pm[p], p) && Open(WallsOf(b0), p) && (pm[p] == s || pm[p] in pm) &&
      p in rk && rk[p] == clock && (pm[p] != s && pm[p] in pm ==> pm[p] in rk && rk[pm[p]] < rk[p])
  {
    var s, pm, rk := b0.start.value, parentMap + Adopted(parentMap, fs, current), rank + AdoptedRanks(parentMap, fs, clock);
    assert p in fs && pm[p] == current && rk[p] == clock;
    if current != s {
      assert current in parentMap && current !in Adopted(parentMap, fs, current);
      assert rk[current] == rank[current];
    }
  }

  /** With the end popped, the end is the start or has a parent, so reconstructPath reaches the start. */
  lemma InvFound(b0: Board, stack: seq<Pos>, parentMap: map<Pos, Pos>, rank: map<Pos, nat>, clock: nat)
    requires Inv(b0, stack, parentMap, rank, clock) && stack != [] && stack[|stack| - 1] == b0.end.value
    ensures Ranked(parentMap, b0.start.value, rank) && ParentEdges(WallsOf(b0), parentMap, b0.start.value)
    ensures b0.end.value == b0.start.value || b0.end.value in parentMap
  {
    assert stack[|stack| - 1] in stack;
  }

  // ---------------------------------------------------------------------
  // Why the loop stops

  /** A popped cell that pushes nothing lightens the stack. */
  lemma PopLightens(b0: Board, stack: seq<Pos>)
    requires stack != []
    ensures StackWeight(b0, stack[..|stack| - 1]) < StackWeight(b0, stack)
  {
  }

  /**
   * The start, when popped while it is flagged or a wall, pushes at most
   * four open cells other than itself, and they weigh less than it.
   */
  lemma StartLightens(b0: Board, stack: seq<Pos>, fs: seq<Pos>)
    requires Base(b0) && stack != [] && |fs| <= 4
    requires var current := stack[|stack| - 1];
      current == b0.start.value && (At(b0, current).isStart || At(b0, current).isWall) && current !in fs
    requires forall q :: q in fs ==> InBounds(b0.size, q) && !At(b0, q).isWall
    ensures StackWeight(b0, stack[..|stack| - 1] + fs) < StackWeight(b0, stack)
  {
    var current := stack[|stack| - 1];
    forall q | q in fs ensures Weight(b0, q) == 1 {
      assert q != current;
    }
    LightWeight(b0, fs);
    StackWeightAppend(b0, stack[..|stack| - 1], fs);
  }

  /** markVisited on an unvisited markable cell shrinks the unvisited cells. */
  lemma VisitShrinks(b: Board, q: Pos)
    requires Initialized(b) && InBounds(b.size, q) && !Unmarkable(At(b, q)) && !At(b, q).isVisited
    ensures |Unvisited(WithVisited(b, q))| < |Unvisited(b)|
  {
    MarkUnvisited(b, q);
    UnvisitedMember(b, q);
  }

  // ---------------------------------------------------------------------
  // The frontier marks of one expansion

  /** The board after markFrontier on each of fs, in order. */
  ghost function Frontiered(b: Board, fs: seq<Pos>): (r: Board)
    requires Initialized(b) && forall q :: q in fs ==> InBounds(b.size, q)
    ensures Initialized(r) && r.size == b.size
    decreases |fs|
  {
    if fs == [] then b
    else
      var last := fs[|fs| - 1];
      assert forall q :: q in fs[..|fs| - 1] ==> q in fs;
      WithFrontier(Frontiered(b, fs[..|fs| - 1]), last)
  }

  /** Frontier marks keep the layout and the unvisited cells. */
  lemma {:induction false} FrontieredKeeps(b0: Board, b: Board, fs: seq<Pos>)
    requires SameLayout(b0, b) && forall q :: q in fs ==> InBounds(b0.size, q)
    ensures SameLayout(b0, Frontiered(b, fs)) && Unvisited(Frontiered(b, fs)) == Unvisited(b)
    decreases |fs|
  {
    if fs != [] {
      var pre, last := fs[..|fs| - 1], fs[|fs| - 1];
      assert forall q :: q in pre ==> q in fs;
      assert last in fs;
      FrontieredKeeps(b0, b, pre);
      var r0 := Frontiered(b, pre);
      FlagKeepsLayout(b0, r0, last);
      MarkUnvisited(r0, last);
    }
  }

  /** One more turn of the for loop adds one frontier mark. */
  lemma FrontieredSnoc(b: Board, fs: seq<Pos>, i: int)
    requires Initialized(b) && 0 <= i < |fs| && forall q :: q in fs ==> InBounds(b.size, q)
    ensures forall q :: q in fs[..i + 1] ==> InBounds(b.size, q)
    ensures Frontiered(b, fs[..i + 1]) == WithFrontier(Frontiered(b, fs[..i]), fs[i])
  {
    assert fs[..i + 1][..i] == fs[..i];
    assert forall q :: q in fs[..i + 1] ==> q in fs;
  }
}

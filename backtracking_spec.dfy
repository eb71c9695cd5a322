/**
 * The walk of generateMazeWithBacktracking (algorithms/generation/backtracking.js)
 * as values: what getUnvisitedNeighbors returns for a visited set, and the
 * state the explicit-stack loop keeps from turn to turn.
 */
module BacktrackingSpec {
  import opened Geometry
  import opened MazeSpec
  import opened Carving

  // ---------------------------------------------------------------------
  // getUnvisitedNeighbors

  /** The position of q's offset from p among those offsets; 4 for any other cell. */
  function JumpRank(p: Pos, q: Pos): int {
    var d := (q.row - p.row, q.col - p.col);
    if d == (-2, 0) then 0 else if d == (2, 0) then 1 else if d == (0, -2) then 2
    else if d == (0, 2) then 3 else 4
  }

  /** q when it is inside the grid and not visited, nothing otherwise. */
  function UnvisitedAt(n: int, V: set<Pos>, q: Pos): seq<Pos> {
    if InBounds(n, q) && q !in V then [q] else []
  }

  /** The unvisited cells the offsets ds lead to from p, in the order of ds. */
  function UnvisitedScan(n: int, V: set<Pos>, p: Pos, ds: seq<(int, int)>): seq<Pos> {
    if ds == [] then []
    else UnvisitedScan(n, V, p, ds[..|ds| - 1]) + UnvisitedAt(n, V, Shift(p, ds[|ds| - 1].0, ds[|ds| - 1].1))
  }

  lemma UnvisitedScanPrefix(n: int, V: set<Pos>, p: Pos, ds: seq<(int, int)>, i: int)
    requires 0 <= i < |ds|
    ensures UnvisitedScan(n, V, p, ds[..i + 1]) == UnvisitedScan(n, V, p, ds[..i]) + UnvisitedAt(n, V, Shift(p, ds[i].0, ds[i].1))
  {
    assert ds[..i + 1][..i] == ds[..i];
  }

  lemma UnvisitedScanFour(n: int, V: set<Pos>, p: Pos)
    ensures UnvisitedScan(n, V, p, Jumps()) ==
      UnvisitedAt(n, V, Shift(p, -2, 0)) + UnvisitedAt(n, V, Shift(p, 2, 0)) +
      UnvisitedAt(n, V, Shift(p, 0, -2)) + UnvisitedAt(n, V, Shift(p, 0, 2))
  {
    var ds := Jumps();
    UnvisitedScanPrefix(n, V, p, ds, 0);
    UnvisitedScanPrefix(n, V, p, ds, 1);
    UnvisitedScanPrefix(n, V, p, ds, 2);
    UnvisitedScanPrefix(n, V, p, ds, 3);
    assert ds[..4] == ds;
    assert ds[..0] == [];
  }

  /** getUnvisitedNeighbors as specified: the unvisited in-bounds cells two steps from p. */
  function UnvisitedNeighbors(n: int, V: set<Pos>, p: Pos): (ns: seq<Pos>)
    ensures |ns| <= 4
    ensures forall q :: q in ns <==> InBounds(n, q) && TwoApart(p, q) && q !in V
  {
    UnvisitedScanFour(n, V, p);
    UnvisitedScan(n, V, p, Jumps())
  }

  /** Appending a cell of higher rank than all others keeps the ranks increasing. */
  lemma JumpRankAppend(n: int, V: set<Pos>, p: Pos, ns: seq<Pos>, q: Pos)
    requires forall i, j :: 0 <= i < j < |ns| ==> JumpRank(p, ns[i]) < JumpRank(p, ns[j])
    requires forall i :: 0 <= i < |ns| ==> JumpRank(p, ns[i]) < JumpRank(p, q)
    ensures var s := ns + UnvisitedAt(n, V, q);
      (forall i, j :: 0 <= i < j < |s| ==> JumpRank(p, s[i]) < JumpRank(p, s[j])) &&
      (forall i :: 0 <= i < |s| ==> JumpRank(p, s[i]) <= JumpRank(p, q))
  {
  }

  /** They come in the order up, down, left, right. */
  lemma UnvisitedNeighborsOrdered(n: int, V: set<Pos>, p: Pos)
    ensures var ns := UnvisitedNeighbors(n, V, p);
      forall i, j :: 0 <= i < j < |ns| ==> JumpRank(p, ns[i]) < JumpRank(p, ns[j])
  {
    UnvisitedScanFour(n, V, p);
    var up, down, left, right := Shift(p, -2, 0), Shift(p, 2, 0), Shift(p, 0, -2), Shift(p, 0, 2);
    assert JumpRank(p, up) == 0 && JumpRank(p, down) == 1;
    assert JumpRank(p, left) == 2 && JumpRank(p, right) == 3;
    var s1 := UnvisitedAt(n, V, up);
    JumpRankAppend(n, V, p, [], up);
    assert [] + s1 == s1;
    JumpRankAppend(n, V, p, s1, down);
    var s2 := s1 + UnvisitedAt(n, V, down);
    JumpRankAppend(n, V, p, s2, left);
    var s3 := s2 + UnvisitedAt(n, V, left);
    JumpRankAppend(n, V, p, s3, right);
  }

  // ---------------------------------------------------------------------
  // The state of the stack walk

  /** Every visited cell is an odd cell, open, and reachable from the first cell through open cells. */
  ghost predicate VisitedOpen(b: Board, first: Pos, V: set<Pos>) {
    Initialized(b) &&
    forall q :: q in V ==> OddCell(b.size, q) && !At(b, q).isWall && Reachable(WallsOf(b), first, q)
  }

  /**
   * The stack starts at the first cell, holds visited cells without
   * repetition, and consecutive entries are two apart with the cell between
   * them open.
   */
  ghost predicate Chain(b: Board, first: Pos, V: set<Pos>, stack: seq<Pos>) {
    Initialized(b) &&
    (|stack| > 0 ==> stack[0] == first) &&
    (forall i :: 0 <= i < |stack| ==> stack[i] in V) &&
    NoDuplicates(stack) &&
    forall i :: 0 < i < |stack| ==>
      TwoApart(stack[i - 1], stack[i]) && InBounds(b.size, Between(stack[i - 1], stack[i])) &&
      !At(b, Between(stack[i - 1], stack[i])).isWall
  }

  /** A visited cell no longer on the stack has every cell two apart from it visited. */
  ghost predicate Finished(n: int, V: set<Pos>, stack: seq<Pos>) {
    forall p, q :: p in V && p !in stack && InBounds(n, q) && TwoApart(p, q) ==> q in V
  }

  /** What holds between two turns of the while loop. */
  ghost predicate Explored(b: Board, first: Pos, V: set<Pos>, stack: seq<Pos>) {
    first in V && VisitedOpen(b, first, V) && Chain(b, first, V, stack) && Finished(b.size, V, stack)
  }

  lemma ExploredStart(b: Board, first: Pos)
    requires Initialized(b) && OddCell(b.size, first) && !At(b, first).isWall
    ensures Explored(b, first, {first}, [first])
  {
    ReachableRefl(WallsOf(b), first);
  }

  lemma VisitedPush(b: Board, c: Board, first: Pos, V: set<Pos>, top: Pos, next: Pos)
    requires VisitedOpen(b, first, V) && top in V && TwoApart(top, next) && InBounds(b.size, next)
    requires Opens(b, c, AllCells(b.size)) && !At(c, Between(top, next)).isWall && !At(c, next).isWall
    ensures VisitedOpen(c, first, V + {next})
  {
    var w := Between(top, next);
    BetweenFacts(b.size, top, next);
    OpensKeepsOpen(b, c, AllCells(b.size));
    forall q | q in V + {next}
      ensures OddCell(c.size, q) && !At(c, q).isWall && Reachable(WallsOf(c), first, q)
    {
      if q in V {
        OpensKeepsReachable(b, c, AllCells(b.size), first, q);
      } else {
        OpensKeepsReachable(b, c, AllCells(b.size), first, top);
        ReachableStep(WallsOf(c), first, top, w);
        ReachableStep(WallsOf(c), first, w, next);
      }
    }
  }

  lemma ChainPush(b: Board, c: Board, first: Pos, V: set<Pos>, stack: seq<Pos>, next: Pos)
    requires Chain(b, first, V, stack) && |stack| > 0 && next !in V
    requires TwoApart(stack[|stack| - 1], next) && InBounds(b.size, Between(stack[|stack| - 1], next))
    requires Opens(b, c, AllCells(b.size)) && !At(c, Between(stack[|stack| - 1], next)).isWall
    ensures Chain(c, first, V + {next}, stack + [next])
  {
    OpensKeepsOpen(b, c, AllCells(b.size));
    var s := stack + [next];
    forall i | 0 < i < |s|
      ensures TwoApart(s[i - 1], s[i]) && InBounds(c.size, Between(s[i - 1], s[i])) &&
              !At(c, Between(s[i - 1], s[i])).isWall
    {
      if i < |stack| {
        assert s[i - 1] == stack[i - 1] && s[i] == stack[i];
      }
    }
    forall i, j | 0 <= i < j < |s|
      ensures s[i] != s[j]
    {
      if j < |stack| {
        assert s[i] == stack[i] && s[j] == stack[j];
      } else {
        assert s[i] == stack[i] && stack[i] in V;
      }
    }
    assert forall i :: 0 <= i < |stack| ==> s[i] == stack[i];
  }

  lemma FinishedPush(n: int, V: set<Pos>, stack: seq<Pos>, next: Pos)
    requires Finished(n, V, stack)
    ensures Finished(n, V + {next}, stack + [next])
  {
    forall p, q | p in V + {next} && p !in stack + [next] && InBounds(n, q) && TwoApart(p, q)
      ensures q in V + {next}
    {
      assert p !in stack;
    }
  }

  /** A push keeps the state: the wall between the top and next is opened, then next, which is visited and pushed. */
  lemma ExploredPush(b: Board, first: Pos, V: set<Pos>, stack: seq<Pos>, next: Pos)
    requires Roles(b) && Explored(b, first, V, stack) && |stack| > 0
    requires next in UnvisitedNeighbors(b.size, V, stack[|stack| - 1])
    ensures var c := WithWall(WithWall(b, Between(stack[|stack| - 1], next), false), next, false);
      Explored(c, first, V + {next}, stack + [next]) && Opens(b, c, AllCells(b.size))
  {
    var top := stack[|stack| - 1];
    var w := Between(top, next);
    BetweenFacts(b.size, top, next);
    var c := WithWall(WithWall(b, w, false), next, false);
    OpenPair(b, w, next);
    VisitedPush(b, c, first, V, top, next);
    ChainPush(b, c, first, V, stack, next);
    FinishedPush(b.size, V, stack, next);
  }

  lemma ChainPop(b: Board, first: Pos, V: set<Pos>, stack: seq<Pos>)
    requires Chain(b, first, V, stack) && |stack| > 0
    ensures Chain(b, first, V, stack[..|stack| - 1])
  {
    var s := stack[..|stack| - 1];
    assert forall i :: 0 <= i < |s| ==> s[i] == stack[i];
  }

  lemma FinishedPop(n: int, V: set<Pos>, stack: seq<Pos>)
    requires Finished(n, V, stack) && |stack| > 0
    requires UnvisitedNeighbors(n, V, stack[|stack| - 1]) == []
    ensures Finished(n, V, stack[..|stack| - 1])
  {
    var top, s := stack[|stack| - 1], stack[..|stack| - 1];
    assert stack == s + [top];
    forall p, q | p in V && p !in s && InBounds(n, q) && TwoApart(p, q)
      ensures q in V
    {
      if p == top {
        assert q !in UnvisitedNeighbors(n, V, top);
      } else {
        assert p !in stack;
      }
    }
  }

  /** A pop keeps the state when the top has no unvisited cell two apart. */
  lemma ExploredPop(b: Board, first: Pos, V: set<Pos>, stack: seq<Pos>)
    requires Explored(b, first, V, stack) && |stack| > 0
    requires UnvisitedNeighbors(b.size, V, stack[|stack| - 1]) == []
    ensures Explored(b, first, V, stack[..|stack| - 1])
  {
    ChainPop(b, first, V, stack);
    FinishedPop(b.size, V, stack);
  }

  /** An empty stack means the visited set is closed, so every odd cell was visited. */
  lemma ExploredAll(b: Board, first: Pos, V: set<Pos>)
    requires Explored(b, first, V, [])
    ensures V == OddCells(b.size) && |OddCells(b.size) - V| == 0
    ensures forall q :: OddCell(b.size, q) ==> !At(b, q).isWall && Reachable(WallsOf(b), first, q)
  {
    assert JumpClosed(b.size, V);
    JumpClosedAll(b.size, V, first);
    OddCellsMembers(b.size);
    assert OddCells(b.size) - V == {};
  }

  /**
   * One turn of the while loop on a non-empty stack: with no unvisited cell
   * two steps from the top the stack pops and nothing else changes;
   * otherwise one of them, `next`, is visited and pushed, after the wall
   * between and `next` itself are opened.
   */
  ghost predicate Turn(b: Board, c: Board, V: set<Pos>, stack: seq<Pos>, V': set<Pos>, stack': seq<Pos>, next: Pos) {
    |stack| > 0 &&
    var top := stack[|stack| - 1]; var ns := UnvisitedNeighbors(b.size, V, top);
    (ns == [] ==> c == b && V' == V && stack' == stack[..|stack| - 1]) &&
    (ns != [] ==> next in ns && V' == V + {next} && stack' == stack + [next] &&
                  Initialized(b) && InBounds(b.size, Between(top, next)) &&
                  c == WithWall(WithWall(b, Between(top, next), false), next, false))
  }

  /**
   * A Turn keeps the state, and either visits one more odd cell and pushes
   * it or pops: each turn lowers
   * 2 * (odd cells not visited) + (stack height) by exactly one.
   */
  lemma ExploredStep(b: Board, c: Board, first: Pos, V: set<Pos>, stack: seq<Pos>,
                     V': set<Pos>, stack': seq<Pos>, next: Pos)
    requires Roles(b) && Explored(b, first, V, stack) && Turn(b, c, V, stack, V', stack', next)
    ensures Explored(c, first, V', stack') && Opens(b, c, AllCells(b.size))
    ensures 2 * |OddCells(b.size) - V'| + |stack'| + 1 == 2 * |OddCells(b.size) - V| + |stack|
  {
    var top := stack[|stack| - 1];
    assert top in V;
    if UnvisitedNeighbors(b.size, V, top) == [] {
      ExploredPop(b, first, V, stack);
      OpensRefl(b, AllCells(b.size));
    } else {
      ExploredPush(b, first, V, stack, next);
      BetweenFacts(b.size, top, next);
      OddCellsMembers(b.size);
      FewerUnseen(OddCells(b.size), V, next);
    }
  }
}

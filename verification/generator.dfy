/**
 Maze generation by randomized iterative depth-first search.

 The random numbers are supplied by the caller: the k-th call of the
 random generator yields the k-th entry of `draws`, so a run is a
 deterministic function of the dimensions and the draws.
 */
module Generator {
  import opened Grid
  import opened Mazes

  /** The index `Math.floor(Math.random() * n)` of the source, taken from the
      k-th supplied draw (0 once the supply is exhausted). */
  function Draw(draws: seq<nat>, k: nat, n: nat): (r: nat)
    requires n > 0
    ensures r < n
  {
    (if k < |draws| then draws[k] else 0) % n
  }

  /** The entries of `ns` not yet visited, in order. */
  function Unvisited(m: Maze, ns: seq<Cell>): (r: seq<Cell>)
    requires m.Valid() && forall d :: d in ns ==> m.Contains(d)
    ensures |r| <= |ns|
    ensures forall d :: d in r <==> d in ns && !m.Visited(d)
  {
    if ns == [] then []
    else (if m.Visited(ns[0]) then [] else [ns[0]]) + Unvisited(m, ns[1..])
  }

  /** The unvisited cells adjacent to `c`: exactly the candidates the
      carving step may move to. */
  function UnvisitedNeighbors(m: Maze, c: Cell): (r: seq<Cell>)
    requires m.Valid()
    ensures |r| <= 4
    ensures forall d :: d in r <==> m.Contains(d) && Adjacent(c, d) && !m.Visited(d)
  {
    Unvisited(m, Neighbors(m.width, m.height, c))
  }

  ghost predicate NeighborsVisited(m: Maze, c: Cell)
    requires m.Valid()
  {
    forall d :: m.Contains(d) && Adjacent(c, d) ==> m.Visited(d)
  }

  function VisitedCells(m: Maze): set<Cell>
    requires m.Valid()
  {
    set c | c in AllCells(m.width, m.height) && m.Visited(c)
  }

  function UnvisitedCells(m: Maze): set<Cell>
    requires m.Valid()
  {
    set c | c in AllCells(m.width, m.height) && !m.Visited(c)
  }

  /** The walls agree on both sides, the border is closed and a cell keeps
      all four walls until it is visited. */
  ghost predicate WallsInv(m: Maze) {
    && m.Valid() && Symmetric(m) && BorderClosed(m)
    && forall c :: m.Contains(c) && !m.Visited(c) ==> m.WallAt(c) == AllClosed
  }

  /** The stack holds visited cells of the grid. */
  ghost predicate StackInv(m: Maze, stack: seq<Cell>) {
    m.Valid() && forall i :: 0 <= i < |stack| ==> m.Contains(stack[i]) && m.Visited(stack[i])
  }

  /** One carved edge per visited cell other than the first. */
  ghost predicate CountInv(m: Maze) {
    m.Valid() && |OpenEdges(m)| + 1 == |VisitedCells(m)|
  }

  /** Every visited cell is reachable from the start. */
  ghost predicate ReachInv(m: Maze, start: Cell) {
    m.Valid() && forall c :: m.Contains(c) && m.Visited(c) ==> Reachable(m, start, c)
  }

  /** A visited cell off the stack has no unvisited neighbour left. */
  ghost predicate ClosedInv(m: Maze, stack: seq<Cell>) {
    m.Valid() && forall c :: m.Contains(c) && m.Visited(c) ==> c in stack || NeighborsVisited(m, c)
  }

  /** What holds of the maze under construction and the stack before every
      iteration of the carving loop. */
  ghost predicate GenInv(m: Maze, start: Cell, stack: seq<Cell>) {
    && WallsInv(m)
    && m.Contains(start) && m.Visited(start)
    && StackInv(m, stack)
    && CountInv(m)
    && ReachInv(m, start)
    && ClosedInv(m, stack)
  }

  lemma ClosedBlocksAll(a: Cell, b: Cell)
    requires Adjacent(a, b)
    ensures Blocked(AllClosed, a, b)
  {
  }

  /** Marking a cell visited changes no step of the maze. */
  lemma MarkKeepsWalls(m: Maze, c: Cell)
    requires m.Valid() && m.Contains(c)
    ensures forall a, b :: Open(Mark(m, c), a, b) <==> Open(m, a, b)
    ensures OpenEdges(Mark(m, c)) == OpenEdges(m)
    ensures Symmetric(m) ==> Symmetric(Mark(m, c))
    ensures BorderClosed(m) ==> BorderClosed(Mark(m, c))
  {
    var r := Mark(m, c);
    assert forall d :: m.Contains(d) ==> r.WallAt(d) == m.WallAt(d);
    forall e ensures e in OpenEdges(r) <==> e in OpenEdges(m) {
      InOpenEdges(r, e);
      InOpenEdges(m, e);
    }
  }

  /** Marking an unvisited cell moves exactly that cell from the unvisited
      to the visited ones. */
  lemma MarkCounts(m: Maze, c: Cell)
    requires m.Valid() && m.Contains(c) && !m.Visited(c)
    ensures VisitedCells(Mark(m, c)) == VisitedCells(m) + {c}
    ensures c !in VisitedCells(m)
    ensures UnvisitedCells(m) == UnvisitedCells(Mark(m, c)) + {c}
    ensures c !in UnvisitedCells(Mark(m, c))
  {
  }

  /** Carving changes no visited flag. */
  lemma CarveKeepsVisited(m: Maze, cur: Cell, nb: Cell)
    requires m.Valid() && m.Contains(cur) && m.Contains(nb) && Adjacent(cur, nb)
    ensures VisitedCells(Carve(m, cur, nb)) == VisitedCells(m)
    ensures UnvisitedCells(Carve(m, cur, nb)) == UnvisitedCells(m)
  {
    var r := Carve(m, cur, nb);
    assert forall c :: m.Contains(c) ==> r.Visited(c) == m.Visited(c);
  }

  /** The state after marking the start cell visited and pushing it. */
  lemma InitInv(width: int, height: int, start: Cell)
    requires width >= 1 && height >= 1 && InBounds(width, height, start)
    ensures GenInv(Mark(Maze(width, height, Fill(width, height, false), Fill(width, height, AllClosed)), start), start, [start])
  {
    var m0 := Maze(width, height, Fill(width, height, false), Fill(width, height, AllClosed));
    var m := Mark(m0, start);
    forall a, b ensures !Open(m, a, b) {
      if Adjacent(a, b) {
        ClosedBlocksAll(a, b);
      }
    }
    forall e ensures e !in OpenEdges(m) {
      InOpenEdges(m, e);
    }
    assert OpenEdges(m) == {};
    assert VisitedCells(m) == {start};
    assert WalkBetween(m, [start], start, start);
  }

  /** The common precondition of the parts of a carving step: `cur` is
      visited and `nb` is an unvisited neighbour of it. */
  ghost predicate CarveReady(m: Maze, cur: Cell, nb: Cell) {
    && m.Valid() && m.Contains(cur) && m.Contains(nb) && Adjacent(cur, nb)
    && m.Visited(cur) && !m.Visited(nb)
  }

  function Carved(m: Maze, cur: Cell, nb: Cell): Maze
    requires m.Valid() && m.Contains(cur) && m.Contains(nb) && Adjacent(cur, nb)
  {
    Mark(Carve(m, cur, nb), nb)
  }

  lemma CarveKeepsWallsInv(m: Maze, cur: Cell, nb: Cell)
    requires CarveReady(m, cur, nb) && WallsInv(m)
    ensures WallsInv(Carved(m, cur, nb))
  {
    var c1 := Carve(m, cur, nb);
    var m' := Mark(c1, nb);
    CarveKeepsSymmetric(m, cur, nb);
    CarveKeepsBorder(m, cur, nb);
    MarkKeepsWalls(c1, nb);
    forall c | m'.Contains(c) && !m'.Visited(c) ensures m'.WallAt(c) == AllClosed {
      assert c != nb && c != cur;
      assert m'.WallAt(c) == c1.WallAt(c) == m.WallAt(c);
    }
  }

  /** A carving step adds exactly one carved edge and one visited cell. */
  lemma CarveCounts(m: Maze, cur: Cell, nb: Cell)
    requires CarveReady(m, cur, nb) && WallsInv(m) && CountInv(m)
    ensures var m' := Carved(m, cur, nb);
      && CountInv(m')
      && |OpenEdges(m')| == |OpenEdges(m)| + 1
      && |VisitedCells(m')| == |VisitedCells(m)| + 1
      && |UnvisitedCells(m')| + 1 == |UnvisitedCells(m)|
  {
    var c1 := Carve(m, cur, nb);
    // the edge is still closed on both sides
    assert m.WallAt(nb) == AllClosed;
    ClosedBlocksAll(nb, cur);
    OpenSymmetric(m, cur, nb);
    CarveAddsEdge(m, cur, nb);
    MarkKeepsWalls(c1, nb);
    CarveKeepsVisited(m, cur, nb);
    MarkCounts(c1, nb);
  }

  /** Every step open before a carving step is open after it, and so is
      the step from `cur` to `nb`. */
  lemma CarvedOpensMore(m: Maze, cur: Cell, nb: Cell)
    requires CarveReady(m, cur, nb)
    ensures forall a, b :: Open(m, a, b) ==> Open(Carved(m, cur, nb), a, b)
    ensures Open(Carved(m, cur, nb), cur, nb)
  {
    CarveOpens(m, cur, nb);
    MarkKeepsWalls(Carve(m, cur, nb), nb);
  }

  lemma ExtendWalk(m: Maze, p: seq<Cell>, s: Cell, a: Cell, b: Cell)
    requires WalkBetween(m, p, s, a) && Open(m, a, b)
    ensures WalkBetween(m, p + [b], s, b)
  {
  }

  lemma CarveKeepsReach(m: Maze, start: Cell, cur: Cell, nb: Cell)
    requires CarveReady(m, cur, nb) && ReachInv(m, start)
    ensures ReachInv(Carved(m, cur, nb), start)
  {
    var m' := Carved(m, cur, nb);
    CarvedOpensMore(m, cur, nb);
    forall c | m'.Contains(c) && m'.Visited(c) ensures Reachable(m', start, c) {
      if c == nb {
        var p :| WalkBetween(m, p, start, cur);
        WalkGrows(m, m', p);
        ExtendWalk(m', p, start, cur, nb);
        assert WalkBetween(m', p + [nb], start, c);
      } else {
        assert m.Visited(c);
        var p :| WalkBetween(m, p, start, c);
        WalkGrows(m, m', p);
        assert WalkBetween(m', p, start, c);
      }
    }
  }

  lemma CarveKeepsClosed(m: Maze, stack: seq<Cell>, cur: Cell, nb: Cell)
    requires CarveReady(m, cur, nb) && StackInv(m, stack) && ClosedInv(m, stack)
    ensures StackInv(Carved(m, cur, nb), stack + [nb])
    ensures ClosedInv(Carved(m, cur, nb), stack + [nb])
  {
    var m' := Carved(m, cur, nb);
    forall c | m'.Contains(c) && m'.Visited(c) ensures c in stack + [nb] || NeighborsVisited(m', c) {
      if c != nb && c !in stack {
        assert NeighborsVisited(m, c);
      }
    }
  }

  /** One carving step: from the top `cur` of the stack to an unvisited
      neighbour `nb`, which is marked visited and pushed. It adds exactly
      one carved edge and one visited cell, and keeps the invariant. */
  lemma CarveStep(m: Maze, start: Cell, stack: seq<Cell>, nb: Cell)
    requires GenInv(m, start, stack) && |stack| > 0
    requires nb in UnvisitedNeighbors(m, stack[|stack| - 1])
    ensures var m' := Carved(m, stack[|stack| - 1], nb);
      && GenInv(m', start, stack + [nb])
      && |OpenEdges(m')| == |OpenEdges(m)| + 1
      && |VisitedCells(m')| == |VisitedCells(m)| + 1
      && |UnvisitedCells(m')| + 1 == |UnvisitedCells(m)|
  {
    var cur := stack[|stack| - 1];
    assert CarveReady(m, cur, nb);
    CarveKeepsWallsInv(m, cur, nb);
    CarveCounts(m, cur, nb);
    CarveKeepsReach(m, start, cur, nb);
    CarveKeepsClosed(m, stack, cur, nb);
  }

  /** A backtracking step: the top of the stack has no unvisited neighbour
      and is popped; the invariant holds of the shorter stack. */
  lemma BacktrackStep(m: Maze, start: Cell, stack: seq<Cell>)
    requires GenInv(m, start, stack) && |stack| > 0
    requires UnvisitedNeighbors(m, stack[|stack| - 1]) == []
    ensures GenInv(m, start, stack[..|stack| - 1])
  {
    BacktrackKeepsClosed(m, stack);
  }

  lemma BacktrackKeepsClosed(m: Maze, stack: seq<Cell>)
    requires StackInv(m, stack) && ClosedInv(m, stack) && |stack| > 0
    requires UnvisitedNeighbors(m, stack[|stack| - 1]) == []
    ensures StackInv(m, stack[..|stack| - 1]) && ClosedInv(m, stack[..|stack| - 1])
  {
    var cur := stack[|stack| - 1];
    var rest := stack[..|stack| - 1];
    NoUnvisitedNeighbor(m, cur);
    forall i | 0 <= i < |rest| ensures m.Contains(rest[i]) && m.Visited(rest[i]) {
      assert rest[i] == stack[i];
    }
    forall c | m.Contains(c) && m.Visited(c) ensures c in rest || NeighborsVisited(m, c) {
      InPopped(stack, c);
    }
  }

  /** A cell on a stack is the popped top or on the rest of it. */
  lemma InPopped<T>(stack: seq<T>, c: T)
    requires |stack| > 0
    ensures c in stack <==> c == stack[|stack| - 1] || c in stack[..|stack| - 1]
  {
    assert stack == stack[..|stack| - 1] + [stack[|stack| - 1]];
  }

  /** A cell without unvisited neighbours has only visited neighbours. */
  lemma NoUnvisitedNeighbor(m: Maze, cur: Cell)
    requires m.Valid() && UnvisitedNeighbors(m, cur) == []
    ensures NeighborsVisited(m, cur)
  {
    forall d | m.Contains(d) && Adjacent(cur, d) ensures m.Visited(d) {
      assert d !in UnvisitedNeighbors(m, cur);
    }
  }

  /** Popping the top of a stack and pushing it back restores the stack. */
  lemma PopPush<T>(s: seq<T>)
    requires |s| > 0
    ensures s[..|s| - 1] + [s[|s| - 1]] == s
  {
  }

  lemma {:induction false} SweepX(m: Maze, y: int, x0: int, x1: int)
    requires m.Valid() && 0 <= y < m.height && 0 <= x0 < m.width && 0 <= x1 < m.width
    requires forall c :: m.Contains(c) && m.Visited(c) ==> NeighborsVisited(m, c)
    requires m.Visited(Cell(x0, y))
    ensures m.Visited(Cell(x1, y))
    decreases if x0 < x1 then x1 - x0 else x0 - x1
  {
    if x0 < x1 {
      assert Adjacent(Cell(x0, y), Cell(x0 + 1, y));
      SweepX(m, y, x0 + 1, x1);
    } else if x0 > x1 {
      assert Adjacent(Cell(x0, y), Cell(x0 - 1, y));
      SweepX(m, y, x0 - 1, x1);
    }
  }

  lemma {:induction false} SweepY(m: Maze, x: int, y0: int, y1: int)
    requires m.Valid() && 0 <= x < m.width && 0 <= y0 < m.height && 0 <= y1 < m.height
    requires forall c :: m.Contains(c) && m.Visited(c) ==> NeighborsVisited(m, c)
    requires m.Visited(Cell(x, y0))
    ensures m.Visited(Cell(x, y1))
    decreases if y0 < y1 then y1 - y0 else y0 - y1
  {
    if y0 < y1 {
      assert Adjacent(Cell(x, y0), Cell(x, y0 + 1));
      SweepY(m, x, y0 + 1, y1);
    } else if y0 > y1 {
      assert Adjacent(Cell(x, y0), Cell(x, y0 - 1));
      SweepY(m, x, y0 - 1, y1);
    }
  }

  /** When the stack is empty every visited cell has only visited
      neighbours; the grid being connected, every cell is then visited. */
  lemma AllVisitedWhenClosed(m: Maze, start: Cell)
    requires m.Valid() && m.Contains(start) && m.Visited(start)
    requires forall c :: m.Contains(c) && m.Visited(c) ==> NeighborsVisited(m, c)
    ensures forall c :: m.Contains(c) ==> m.Visited(c)
  {
    forall c | m.Contains(c) ensures m.Visited(c) {
      SweepX(m, start.y, start.x, c.x);
      SweepY(m, c.x, start.y, c.y);
    }
  }

  /** At loop exit: every cell is visited, the carved edges number one less
      than the cells, and any cell is reachable from any other. */
  lemma Finish(m: Maze, start: Cell)
    requires GenInv(m, start, [])
    ensures forall c :: m.Contains(c) ==> m.Visited(c)
    ensures |OpenEdges(m)| == m.width * m.height - 1
    ensures forall a, b :: m.Contains(a) && m.Contains(b) ==> Reachable(m, a, b)
  {
    AllVisitedWhenClosed(m, start);
    assert VisitedCells(m) == AllCells(m.width, m.height);
    AllCellsCount(m.width, m.height);
    ConnectedFromOne(m, start);
  }

  /** Generates a width-by-height maze. The start cell and every choice among
      unvisited neighbours come from `draws`. The result is a spanning tree of
      the grid: every cell visited, walls in agreement on both sides, the
      border closed, width * height - 1 carved edges, and every cell
      reachable from every other. */
  method GenerateMaze(width: int, height: int, draws: seq<nat>) returns (m: Maze)
    requires width >= 1 && height >= 1
    ensures m.Valid() && m.width == width && m.height == height
    ensures forall c :: m.Contains(c) ==> m.Visited(c)
    ensures Symmetric(m) && BorderClosed(m)
    ensures |OpenEdges(m)| == width * height - 1
    ensures forall a, b :: m.Contains(a) && m.Contains(b) ==> Reachable(m, a, b)
  {
    m := Maze(width, height, Fill(width, height, false), Fill(width, height, AllClosed));
    var start := Cell(Draw(draws, 0, width), Draw(draws, 1, height));
    var k := 2;
    InitInv(width, height, start);
    m := Mark(m, start);
    var stack := [start];
    while |stack| > 0
      invariant GenInv(m, start, stack)
      invariant m.width == width && m.height == height
      decreases 2 * |UnvisitedCells(m)| + |stack|
    {
      ghost var before := stack;
      var cur := stack[|stack| - 1];
      stack := stack[..|stack| - 1];
      var unvisited := UnvisitedNeighbors(m, cur);
      if |unvisited| > 0 {
        PopPush(before);
        stack := stack + [cur];
        var nb := unvisited[Draw(draws, k, |unvisited|)];
        k := k + 1;
        CarveStep(m, start, before, nb);
        m := Carve(m, cur, nb);
        m := Mark(m, nb);
        stack := stack + [nb];
      } else {
        BacktrackStep(m, start, before);
      }
    }
    Finish(m, start);
  }
}

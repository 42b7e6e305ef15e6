/**
 Shortest paths by breadth-first search over the steps a maze allows, and
 reconstruction of the path by following parent links back from the end.
 */
module Solver {
  import opened Grid
  import opened Mazes

  /** A distance; `Infinity` is the source's marker for a cell not reached yet. */
  datatype Dist = Finite(n: nat) | Infinity

  datatype Option<T> = None | Some(value: T)

  /** The per-cell record of the search: the parent link (the source's
      `[-1, -1]` is `None`) and the distance from the start. */
  datatype Record = Record(parent: Option<Cell>, dist: Dist)

  const Unseen := Record(None, Infinity)

  /** The outcome of a search: the cells from start to end, or the report
      that the end cannot be reached. */
  datatype Solution = Path(cells: seq<Cell>) | NoPath

  type Records = seq<seq<Record>>

  /** `c` has been reached: its distance is known. */
  predicate Known(rec: Records, c: Cell) {
    InGrid(rec, c) && At(rec, c).dist.Finite?
  }

  function DistOf(rec: Records, c: Cell): nat
    requires Known(rec, c)
  {
    At(rec, c).dist.n
  }

  /** The record of `c` is untouched, or links to a reached parent from which
      one open step leads to `c`, at the parent's distance plus one. */
  ghost predicate LinkedAt(m: Maze, rec: Records, c: Cell)
    requires InGrid(rec, c)
  {
    || At(rec, c) == Unseen
    || (&& At(rec, c).parent.Some? && At(rec, c).dist.Finite?
        && var p := At(rec, c).parent.value;
        && Open(m, p, c) && Known(rec, p)
        && At(rec, c).dist.n == DistOf(rec, p) + 1)
  }

  /** The records of a search from `start`: the start at distance 0 without a
      parent, every other cell untouched or properly linked. */
  ghost predicate Linked(m: Maze, start: Cell, rec: Records) {
    && m.Valid() && Shaped(rec, m.width, m.height) && m.Contains(start)
    && At(rec, start) == Record(None, Finite(0))
    && forall c :: m.Contains(c) && c != start ==> LinkedAt(m, rec, c)
  }

  /** Every open step out of the reached cell `c` leads to a reached cell at
      most one further away. */
  ghost predicate Settled(m: Maze, rec: Records, c: Cell)
    requires Known(rec, c)
  {
    forall b :: Open(m, c, b) ==> Known(rec, b) && DistOf(rec, b) <= DistOf(rec, c) + 1
  }

  /** The queue holds reached cells in non-decreasing order of distance, all
      within `level` and `level + 1`, and no reached cell is further than
      `level + 1`. */
  ghost predicate Frontier(rec: Records, queue: seq<Cell>, level: nat) {
    && (forall i :: 0 <= i < |queue| ==>
          Known(rec, queue[i]) && level <= DistOf(rec, queue[i]) <= level + 1)
    && (forall i, j :: 0 <= i < j < |queue| ==>
          Known(rec, queue[i]) && Known(rec, queue[j]) && DistOf(rec, queue[i]) <= DistOf(rec, queue[j]))
    && (forall c :: Known(rec, c) ==> DistOf(rec, c) <= level + 1)
  }

  /** Every reached cell is queued, being expanded, or settled. */
  ghost predicate Explored(m: Maze, rec: Records, queue: seq<Cell>, busy: set<Cell>) {
    forall c :: Known(rec, c) ==> c in queue || c in busy || Settled(m, rec, c)
  }

  /** `rec'` keeps every record that was already written in `rec`. */
  ghost predicate Extends(rec: Records, rec': Records) {
    forall c :: Known(rec, c) ==> InGrid(rec', c) && At(rec', c) == At(rec, c)
  }

  function Unknown(m: Maze, rec: Records): set<Cell> {
    set c | c in AllCells(m.width, m.height) && InGrid(rec, c) && !Known(rec, c)
  }

  lemma SettledGrows(m: Maze, rec: Records, rec': Records, c: Cell)
    requires Known(rec, c) && Settled(m, rec, c) && Extends(rec, rec')
    ensures Known(rec', c) && Settled(m, rec', c)
  {
    forall b | Open(m, c, b) ensures Known(rec', b) && DistOf(rec', b) <= DistOf(rec', c) + 1 {
      assert Known(rec, b);
    }
  }

  /** The records after `nb` is reached from `current` at distance `d`. */
  function Reach(rec: Records, current: Cell, nb: Cell, d: nat): (r: Records)
    requires InGrid(rec, nb)
    ensures forall c :: InGrid(r, c) <==> InGrid(rec, c)
    ensures At(r, nb) == Record(Some(current), Finite(d))
    ensures forall c :: InGrid(rec, c) && c != nb ==> At(r, c) == At(rec, c)
  {
    Put(rec, nb, Record(Some(current), Finite(d)))
  }

  lemma ReachExtends(rec: Records, current: Cell, nb: Cell, d: nat)
    requires InGrid(rec, nb) && !Known(rec, nb)
    ensures Extends(rec, Reach(rec, current, nb, d))
    ensures Known(Reach(rec, current, nb, d), nb) && DistOf(Reach(rec, current, nb, d), nb) == d
    ensures forall c :: Known(Reach(rec, current, nb, d), c) ==> c == nb || Known(rec, c)
  {
  }

  lemma DiscoverLinked(m: Maze, start: Cell, rec: Records, current: Cell, nb: Cell)
    requires Linked(m, start, rec)
    requires Known(rec, current) && Open(m, current, nb) && !Known(rec, nb)
    ensures Linked(m, start, Reach(rec, current, nb, DistOf(rec, current) + 1))
  {
    var rec' := Reach(rec, current, nb, DistOf(rec, current) + 1);
    ReachExtends(rec, current, nb, DistOf(rec, current) + 1);
    assert Shaped(rec', m.width, m.height);
    forall c | m.Contains(c) && c != start ensures LinkedAt(m, rec', c) {
      if c != nb {
        assert LinkedAt(m, rec, c);
      }
    }
  }

  lemma DiscoverFrontier(rec: Records, queue: seq<Cell>, current: Cell, level: nat, nb: Cell)
    requires Frontier(rec, queue, level)
    requires InGrid(rec, nb) && !Known(rec, nb)
    ensures Frontier(Reach(rec, current, nb, level + 1), queue + [nb], level)
  {
    ReachExtends(rec, current, nb, level + 1);
  }

  lemma DiscoverExplored(m: Maze, rec: Records, queue: seq<Cell>, busy: set<Cell>, current: Cell, d: nat, nb: Cell)
    requires Explored(m, rec, queue, busy)
    requires InGrid(rec, nb) && !Known(rec, nb)
    ensures Explored(m, Reach(rec, current, nb, d), queue + [nb], busy)
  {
    var rec' := Reach(rec, current, nb, d);
    ReachExtends(rec, current, nb, d);
    forall c | Known(rec', c) && c !in queue + [nb] && c !in busy ensures Settled(m, rec', c) {
      SettledGrows(m, rec, rec', c);
    }
  }

  lemma DiscoverCount(m: Maze, rec: Records, current: Cell, d: nat, nb: Cell)
    requires m.Contains(nb) && InGrid(rec, nb) && !Known(rec, nb)
    ensures |Unknown(m, Reach(rec, current, nb, d))| + 1 == |Unknown(m, rec)|
  {
    var rec' := Reach(rec, current, nb, d);
    ReachExtends(rec, current, nb, d);
    forall c ensures c in Unknown(m, rec) <==> c in Unknown(m, rec') || c == nb {
      if InGrid(rec, c) && c != nb {
        assert At(rec', c) == At(rec, c);
      }
    }
    assert nb !in Unknown(m, rec');
    assert Unknown(m, rec) == Unknown(m, rec') + {nb};
  }

  /** The callback run for one neighbour `nb` of `current`
      (script.ts:144-162): behind a closed wall of `current` it is skipped,
      a reached one is left alone, an unreached one gets `current` as parent
      and the distance of `current` plus one, and is queued. */
  method Visit(m: Maze, start: Cell, rec: Records, queue: seq<Cell>, current: Cell, ghost level: nat, nb: Cell)
    returns (rec': Records, queue': seq<Cell>)
    requires Linked(m, start, rec) && Frontier(rec, queue, level)
    requires Explored(m, rec, queue, {current})
    requires Known(rec, current) && DistOf(rec, current) == level
    requires m.Contains(nb) && Adjacent(current, nb)
    ensures Linked(m, start, rec') && Frontier(rec', queue', level)
    ensures Explored(m, rec', queue', {current})
    ensures Extends(rec, rec')
    ensures Open(m, current, nb) ==> Known(rec', nb) && DistOf(rec', nb) <= level + 1
    ensures !Open(m, current, nb) ==> rec' == rec && queue' == queue
    ensures || (rec' == rec && queue' == queue)
            || (&& !Known(rec, nb) && queue' == queue + [nb]
                && rec' == Reach(rec, current, nb, level + 1))
    ensures |Unknown(m, rec')| + |queue'| == |Unknown(m, rec)| + |queue|
  {
    rec', queue' := rec, queue;
    if Blocked(At(m.walls, current), current, nb) {
      return;
    }
    if !Known(rec, nb) {
      Discover(m, start, rec, queue, current, level, nb);
      rec' := Reach(rec, current, nb, DistOf(rec, current) + 1);
      queue' := queue + [nb];
    }
  }

  /** Reaching the unreached `nb` through an open step from `current` keeps
      every search invariant and removes `nb` from the unreached cells. */
  lemma Discover(m: Maze, start: Cell, rec: Records, queue: seq<Cell>, current: Cell, level: nat, nb: Cell)
    requires Linked(m, start, rec) && Frontier(rec, queue, level)
    requires Explored(m, rec, queue, {current})
    requires Known(rec, current) && DistOf(rec, current) == level
    requires Open(m, current, nb) && !Known(rec, nb)
    ensures Linked(m, start, Reach(rec, current, nb, level + 1))
    ensures Frontier(Reach(rec, current, nb, level + 1), queue + [nb], level)
    ensures Explored(m, Reach(rec, current, nb, level + 1), queue + [nb], {current})
    ensures Extends(rec, Reach(rec, current, nb, level + 1))
    ensures Known(Reach(rec, current, nb, level + 1), nb)
    ensures DistOf(Reach(rec, current, nb, level + 1), nb) == level + 1
    ensures |Unknown(m, Reach(rec, current, nb, level + 1))| + 1 == |Unknown(m, rec)|
  {
    DiscoverLinked(m, start, rec, current, nb);
    DiscoverFrontier(rec, queue, current, level, nb);
    DiscoverExplored(m, rec, queue, {current}, current, level + 1, nb);
    DiscoverCount(m, rec, current, level + 1, nb);
    ReachExtends(rec, current, nb, level + 1);
  }

  lemma KnownKept(rec: Records, rec': Records, c: Cell)
    requires Extends(rec, rec') && Known(rec, c)
    ensures Known(rec', c) && DistOf(rec', c) == DistOf(rec, c)
  {
  }

  /** The loop over the neighbours of `current` (script.ts:142-163).
      Afterwards `current` is settled: every open step out of it leads to a
      reached cell at most one further away. */
  method Expand(m: Maze, start: Cell, rec: Records, queue: seq<Cell>, current: Cell, ghost level: nat)
    returns (rec': Records, queue': seq<Cell>)
    requires Linked(m, start, rec) && Frontier(rec, queue, level)
    requires Explored(m, rec, queue, {current})
    requires Known(rec, current) && DistOf(rec, current) == level
    ensures Linked(m, start, rec') && Frontier(rec', queue', level)
    ensures Explored(m, rec', queue', {})
    ensures Extends(rec, rec')
    ensures Known(rec', current) && DistOf(rec', current) == level
    ensures Settled(m, rec', current)
    ensures |Unknown(m, rec')| + |queue'| == |Unknown(m, rec)| + |queue|
  {
    var ns := Neighbors(m.width, m.height, current);
    rec', queue' := rec, queue;
    var i := 0;
    while i < |ns|
      invariant 0 <= i <= |ns|
      invariant Linked(m, start, rec') && Frontier(rec', queue', level)
      invariant Explored(m, rec', queue', {current})
      invariant Extends(rec, rec')
      invariant Known(rec', current) && DistOf(rec', current) == level
      invariant forall j :: 0 <= j < i && Open(m, current, ns[j]) ==>
                  Known(rec', ns[j]) && DistOf(rec', ns[j]) <= level + 1
      invariant |Unknown(m, rec')| + |queue'| == |Unknown(m, rec)| + |queue|
    {
      ghost var prev := rec';
      rec', queue' := Visit(m, start, rec', queue', current, level, ns[i]);
      StepsKept(m, prev, rec', current, ns, i, level);
      i := i + 1;
    }
    AllNeighborsSettle(m, rec', current, ns, level);
  }

  /** After the neighbour `ns[i]` is visited, the open steps to `ns[0..i]`
      still lead to reached cells at most one level further, and `current`
      keeps its distance. */
  lemma StepsKept(m: Maze, prev: Records, rec: Records, current: Cell, ns: seq<Cell>, i: nat, level: nat)
    requires i < |ns| && Extends(prev, rec)
    requires Known(prev, current) && DistOf(prev, current) == level
    requires forall j :: 0 <= j < i && Open(m, current, ns[j]) ==>
               Known(prev, ns[j]) && DistOf(prev, ns[j]) <= level + 1
    requires Open(m, current, ns[i]) ==> Known(rec, ns[i]) && DistOf(rec, ns[i]) <= level + 1
    ensures Known(rec, current) && DistOf(rec, current) == level
    ensures forall j :: 0 <= j <= i && Open(m, current, ns[j]) ==>
              Known(rec, ns[j]) && DistOf(rec, ns[j]) <= level + 1
  {
    forall j | 0 <= j <= i && Open(m, current, ns[j])
      ensures Known(rec, ns[j]) && DistOf(rec, ns[j]) <= level + 1
    {
      if j < i {
        KnownKept(prev, rec, ns[j]);
      }
    }
    KnownKept(prev, rec, current);
  }

  /** Once every open step to a neighbour in the list of all neighbours
      reaches a cell at most one level further, the cell is settled. */
  lemma AllNeighborsSettle(m: Maze, rec: Records, current: Cell, ns: seq<Cell>, level: nat)
    requires ns == Neighbors(m.width, m.height, current)
    requires Known(rec, current) && DistOf(rec, current) == level
    requires forall j :: 0 <= j < |ns| && Open(m, current, ns[j]) ==>
               Known(rec, ns[j]) && DistOf(rec, ns[j]) <= level + 1
    ensures Settled(m, rec, current)
  {
    forall b | Open(m, current, b) ensures Known(rec, b) && DistOf(rec, b) <= level + 1 {
      assert b in ns;
      var j :| 0 <= j < |ns| && ns[j] == b;
    }
  }

  /** The records and queue right after the start is queued at distance 0. */
  lemma InitSearch(m: Maze, start: Cell)
    requires m.Valid() && m.Contains(start)
    ensures var rec := Put(Fill(m.width, m.height, Unseen), start, Record(None, Finite(0)));
      && Linked(m, start, rec) && Frontier(rec, [start], 0) && Explored(m, rec, [start], {})
  {
    var rec := Put(Fill(m.width, m.height, Unseen), start, Record(None, Finite(0)));
    assert forall c :: Known(rec, c) ==> c == start;
  }

  /** Taking the head of the queue: the level rises to its distance. */
  lemma Dequeue(m: Maze, rec: Records, queue: seq<Cell>, level: nat)
    requires Frontier(rec, queue, level) && Explored(m, rec, queue, {}) && |queue| > 0
    ensures Known(rec, queue[0])
    ensures Frontier(rec, queue[1..], DistOf(rec, queue[0]))
    ensures Explored(m, rec, queue[1..], {queue[0]})
  {
    assert Known(rec, queue[0]);
    var rest := queue[1..];
    forall i | 0 <= i < |rest| ensures DistOf(rec, queue[0]) <= DistOf(rec, rest[i]) {
      assert rest[i] == queue[i + 1];
    }
    forall c | Known(rec, c) && c in queue ensures c in rest || c == queue[0] {
      var i :| 0 <= i < |queue| && queue[i] == c;
      if i > 0 {
        assert rest[i - 1] == c;
      }
    }
  }

  /** The search loop (script.ts:137-164): the start is queued at distance 0,
      then cells are taken from the front of the queue and expanded until the
      queue is empty. Afterwards every record is untouched or properly linked,
      and every reached cell is settled. */
  method Bfs(m: Maze, start: Cell) returns (rec: Records)
    requires m.Valid() && m.Contains(start)
    ensures Linked(m, start, rec)
    ensures forall c :: Known(rec, c) ==> Settled(m, rec, c)
  {
    rec := Fill(m.width, m.height, Unseen);
    var queue := [start];
    rec := Put(rec, start, Record(None, Finite(0)));
    ghost var level := 0;
    InitSearch(m, start);
    while |queue| > 0
      invariant Linked(m, start, rec) && Frontier(rec, queue, level)
      invariant Explored(m, rec, queue, {})
      decreases |Unknown(m, rec)| + |queue|
    {
      Dequeue(m, rec, queue, level);
      var current := queue[0];
      queue := queue[1..];
      level := DistOf(rec, current);
      rec, queue := Expand(m, start, rec, queue, current, level);
    }
  }

  /** Following parent links from the reached cell `end` (script.ts:166-174):
      the links end at the start, and the path read forwards is a walk from
      the start to `end` with one cell more than the distance of `end`. */
  method Reconstruct(m: Maze, start: Cell, rec: Records, end: Cell) returns (path: seq<Cell>)
    requires Linked(m, start, rec) && Known(rec, end)
    ensures WalkBetween(m, path, start, end)
    ensures |path| == DistOf(rec, end) + 1
  {
    var back := [end];
    var current := end;
    while At(rec, current).parent.Some?
      invariant Known(rec, current) && m.Contains(current)
      invariant |back| >= 1 && back[0] == end && back[|back| - 1] == current
      invariant |back| + DistOf(rec, current) == DistOf(rec, end) + 1
      invariant forall i :: 0 <= i < |back| - 1 ==> Open(m, back[i + 1], back[i])
      decreases DistOf(rec, current)
    {
      assert current != start && LinkedAt(m, rec, current);
      var parent := At(rec, current).parent.value;
      back := back + [parent];
      current := parent;
    }
    assert current == start || !LinkedAt(m, rec, current);
    path := Reverse(back);
    forall i | 0 <= i < |path| - 1 ensures Open(m, path[i], path[i + 1]) {
      assert Open(m, back[|back| - 2 - i + 1], back[|back| - 2 - i]);
    }
  }

  /** A walk from the start reaches a reached cell no closer than its
      distance: when every reached cell is settled, the distances of the
      search are lengths of shortest walks. */
  lemma {:induction false} WalkBound(m: Maze, start: Cell, rec: Records, p: seq<Cell>)
    requires Linked(m, start, rec)
    requires forall c :: Known(rec, c) ==> Settled(m, rec, c)
    requires IsWalk(m, p) && p[0] == start
    ensures Known(rec, p[|p| - 1]) && DistOf(rec, p[|p| - 1]) <= |p| - 1
  {
    if |p| > 1 {
      var q := p[..|p| - 1];
      assert IsWalk(m, q) by {
        forall i | 0 <= i < |q| - 1 ensures Open(m, q[i], q[i + 1]) {
          assert Open(m, p[i], p[i + 1]);
        }
      }
      WalkBound(m, start, rec, q);
      assert Open(m, p[|p| - 2], p[|p| - 1]);
      assert Settled(m, rec, q[|q| - 1]);
    }
  }

  /** The search from `start` to `end` (script.ts:132-174). The path it
      returns is a walk from `start` to `end` no longer than any other; it
      reports `NoPath` exactly when no walk leads from `start` to `end`; and
      from a cell to itself it returns that cell alone. */
  method FindSolution(m: Maze, start: Cell, end: Cell) returns (s: Solution)
    requires m.Valid() && m.Contains(start) && m.Contains(end)
    ensures s.Path? <==> Reachable(m, start, end)
    ensures s.Path? ==> WalkBetween(m, s.cells, start, end)
    ensures s.Path? ==> forall q :: WalkBetween(m, q, start, end) ==> |s.cells| <= |q|
    ensures start == end ==> s == Path([start])
  {
    var rec := Bfs(m, start);
    if !Known(rec, end) {
      forall q | WalkBetween(m, q, start, end) ensures false {
        WalkBound(m, start, rec, q);
      }
      return NoPath;
    }
    var path := Reconstruct(m, start, rec, end);
    forall q | WalkBetween(m, q, start, end) ensures |path| <= |q| {
      WalkBound(m, start, rec, q);
    }
    if start == end {
      assert |path| == 1;
      assert path == [start];
    }
    s := Path(path);
  }
}

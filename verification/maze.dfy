/**
 The maze: per-cell wall records over a width-by-height grid, the test the
 solver uses to step from one cell to the next, and carving of a shared
 edge.
 */
module Mazes {
  import opened Grid

  /** The four sides of one cell; `true` is a closed wall. */
  datatype Wall = Wall(top: bool, right: bool, bottom: bool, left: bool)

  const AllClosed := Wall(true, true, true, true)

  /** The generator's output: the visited flag of every cell (`grid`) and
      the wall record of every cell (`walls`), both indexed `[x][y]`. */
  datatype Maze = Maze(width: int, height: int, grid: seq<seq<bool>>, walls: seq<seq<Wall>>) {

    predicate Valid() {
      width >= 1 && height >= 1 && Shaped(grid, width, height) && Shaped(walls, width, height)
    }

    predicate Contains(c: Cell) {
      InBounds(width, height, c)
    }

    function WallAt(c: Cell): Wall
      requires Valid() && Contains(c)
    {
      At(walls, c)
    }

    function Visited(c: Cell): bool
      requires Valid() && Contains(c)
    {
      At(grid, c)
    }
  }

  /** The wall `w` of cell `from` blocks the step to `to`: the side checked
      is the one facing `to` (right for a step of +1 in x, left for -1,
      bottom for +1 in y, top for -1). */
  function Blocked(w: Wall, from: Cell, to: Cell): (r: bool)
    ensures w == AllClosed && Adjacent(from, to) ==> r
    ensures w == Wall(false, false, false, false) ==> !r
  {
    var dx := to.x - from.x;
    var dy := to.y - from.y;
    || (dx == 1 && w.right)
    || (dx == -1 && w.left)
    || (dy == 1 && w.bottom)
    || (dy == -1 && w.top)
  }

  /** One step from `a` to the adjacent cell `b` is allowed: both lie in the
      maze and `a`'s own wall facing `b` is open. */
  predicate Open(m: Maze, a: Cell, b: Cell) {
    && m.Contains(a) && m.Contains(b) && Adjacent(a, b)
    && InGrid(m.walls, a) && !Blocked(At(m.walls, a), a, b)
  }

  /** The two records of every shared edge agree. */
  ghost predicate Symmetric(m: Maze)
    requires m.Valid()
  {
    && (forall c :: m.Contains(c) && c.x + 1 < m.width ==>
          m.WallAt(c).right == m.WallAt(Cell(c.x + 1, c.y)).left)
    && (forall c :: m.Contains(c) && c.y + 1 < m.height ==>
          m.WallAt(c).bottom == m.WallAt(Cell(c.x, c.y + 1)).top)
  }

  /** Every wall on the outer border of the grid is closed. */
  ghost predicate BorderClosed(m: Maze)
    requires m.Valid()
  {
    forall c :: m.Contains(c) ==>
      && (c.x == 0 ==> m.WallAt(c).left)
      && (c.x == m.width - 1 ==> m.WallAt(c).right)
      && (c.y == 0 ==> m.WallAt(c).top)
      && (c.y == m.height - 1 ==> m.WallAt(c).bottom)
  }

  /** Every side open in `before` is open in `after`. */
  predicate OpenedOnly(before: Wall, after: Wall) {
    && (!before.top ==> !after.top)
    && (!before.right ==> !after.right)
    && (!before.bottom ==> !after.bottom)
    && (!before.left ==> !after.left)
  }

  /** In a symmetric maze a step is allowed in one direction exactly when it
      is allowed in the other, so checking only the current cell's wall is
      enough. */
  lemma OpenSymmetric(m: Maze, a: Cell, b: Cell)
    requires m.Valid() && Symmetric(m)
    ensures Open(m, a, b) <==> Open(m, b, a)
  {
    if m.Contains(a) && m.Contains(b) && Adjacent(a, b) {
      if b.x == a.x + 1 {
        assert m.WallAt(a).right == m.WallAt(b).left;
      } else if b.x == a.x - 1 {
        assert m.WallAt(b).right == m.WallAt(a).left;
      } else if b.y == a.y + 1 {
        assert m.WallAt(a).bottom == m.WallAt(b).top;
      } else {
        assert m.WallAt(b).bottom == m.WallAt(a).top;
      }
    }
  }

  /** The record `w` of cell `from` with the side facing `to` cleared,
      the side chosen from the offset by the same two if-chains the
      generator uses. */
  function Clear(w: Wall, from: Cell, to: Cell): (r: Wall)
    ensures Adjacent(from, to) ==> !Blocked(r, from, to)
    ensures OpenedOnly(w, r)
  {
    var dx := to.x - from.x;
    var dy := to.y - from.y;
    var w1 := if dx == 1 then w.(right := false) else if dx == -1 then w.(left := false) else w;
    if dy == 1 then w1.(bottom := false) else if dy == -1 then w1.(top := false) else w1
  }

  /** Clearing the side facing `to` unblocks the step to `to` and no other. */
  lemma ClearBlocks(w: Wall, from: Cell, to: Cell, c: Cell)
    requires Adjacent(from, to) && Adjacent(from, c)
    ensures Blocked(Clear(w, from, to), from, c) <==> Blocked(w, from, c) && c != to
    ensures OpenedOnly(w, Clear(w, from, to))
  {
  }

  /** Clears the wall between `cur` and its neighbour `nb` on both sides:
      `cur`'s side facing `nb` and `nb`'s side facing `cur`. */
  function Carve(m: Maze, cur: Cell, nb: Cell): (r: Maze)
    requires m.Valid() && m.Contains(cur) && m.Contains(nb) && Adjacent(cur, nb)
    ensures r.Valid() && r.width == m.width && r.height == m.height && r.grid == m.grid
    ensures forall c :: m.Contains(c) && c != cur && c != nb ==> r.WallAt(c) == m.WallAt(c)
    ensures r.WallAt(cur) == Clear(m.WallAt(cur), cur, nb)
    ensures r.WallAt(nb) == Clear(m.WallAt(nb), nb, cur)
  {
    var w1 := Put(m.walls, cur, Clear(At(m.walls, cur), cur, nb));
    var w2 := Put(w1, nb, Clear(At(m.walls, nb), nb, cur));
    m.(walls := w2)
  }

  /** Carving opens exactly the step from `cur` to `nb` and the step back;
      every other step is allowed afterwards exactly when it was before. */
  lemma CarveOpens(m: Maze, cur: Cell, nb: Cell)
    requires m.Valid() && m.Contains(cur) && m.Contains(nb) && Adjacent(cur, nb)
    ensures forall a, b :: Open(Carve(m, cur, nb), a, b) <==>
      Open(m, a, b) || (a == cur && b == nb) || (a == nb && b == cur)
  {
    var r := Carve(m, cur, nb);
    forall a, b ensures Open(r, a, b) <==> Open(m, a, b) || (a == cur && b == nb) || (a == nb && b == cur) {
      if m.Contains(a) && m.Contains(b) && Adjacent(a, b) {
        if a == cur {
          ClearBlocks(m.WallAt(cur), cur, nb, b);
        } else if a == nb {
          ClearBlocks(m.WallAt(nb), nb, cur, b);
        }
      }
    }
  }

  /** Carving only opens walls: no side closes and no other cell changes. */
  lemma CarveOnlyOpens(m: Maze, cur: Cell, nb: Cell)
    requires m.Valid() && m.Contains(cur) && m.Contains(nb) && Adjacent(cur, nb)
    ensures forall c :: m.Contains(c) ==> OpenedOnly(m.WallAt(c), Carve(m, cur, nb).WallAt(c))
  {
    ClearBlocks(m.WallAt(cur), cur, nb, nb);
    ClearBlocks(m.WallAt(nb), nb, cur, cur);
  }

  /** Carving keeps the two records of every shared edge in agreement. */
  lemma CarveKeepsSymmetric(m: Maze, cur: Cell, nb: Cell)
    requires m.Valid() && m.Contains(cur) && m.Contains(nb) && Adjacent(cur, nb)
    requires Symmetric(m)
    ensures Symmetric(Carve(m, cur, nb))
  {
    var r := Carve(m, cur, nb);
    forall c | r.Contains(c) && c.x + 1 < r.width
      ensures r.WallAt(c).right == r.WallAt(Cell(c.x + 1, c.y)).left
    {
      assert m.WallAt(c).right == m.WallAt(Cell(c.x + 1, c.y)).left;
    }
    forall c | r.Contains(c) && c.y + 1 < r.height
      ensures r.WallAt(c).bottom == r.WallAt(Cell(c.x, c.y + 1)).top
    {
      assert m.WallAt(c).bottom == m.WallAt(Cell(c.x, c.y + 1)).top;
    }
  }

  /** Carving between two cells of the grid leaves the outer border closed. */
  lemma CarveKeepsBorder(m: Maze, cur: Cell, nb: Cell)
    requires m.Valid() && m.Contains(cur) && m.Contains(nb) && Adjacent(cur, nb)
    requires BorderClosed(m)
    ensures BorderClosed(Carve(m, cur, nb))
  {
    var r := Carve(m, cur, nb);
    forall c | r.Contains(c)
      ensures && (c.x == 0 ==> r.WallAt(c).left)
              && (c.x == r.width - 1 ==> r.WallAt(c).right)
              && (c.y == 0 ==> r.WallAt(c).top)
              && (c.y == r.height - 1 ==> r.WallAt(c).bottom)
    {
      assert m.Contains(c);
    }
  }

  /** Sets the visited flag of `c`. */
  function Mark(m: Maze, c: Cell): (r: Maze)
    requires m.Valid() && m.Contains(c)
    ensures r.Valid() && r.width == m.width && r.height == m.height && r.walls == m.walls
    ensures forall d :: m.Contains(d) ==> r.Visited(d) == (d == c || m.Visited(d))
  {
    m.(grid := Put(m.grid, c, true))
  }

  // ----- Walks -----

  /** A sequence of cells in the maze, each step allowed by `Open`. */
  predicate IsWalk(m: Maze, p: seq<Cell>) {
    && |p| >= 1 && m.Contains(p[0])
    && forall i :: 0 <= i < |p| - 1 ==> Open(m, p[i], p[i + 1])
  }

  predicate WalkBetween(m: Maze, p: seq<Cell>, a: Cell, b: Cell) {
    IsWalk(m, p) && p[0] == a && p[|p| - 1] == b
  }

  ghost predicate Reachable(m: Maze, a: Cell, b: Cell) {
    exists p :: WalkBetween(m, p, a, b)
  }

  /** Every cell of a walk lies in the maze. */
  lemma WalkInside(m: Maze, p: seq<Cell>)
    requires IsWalk(m, p)
    ensures forall i :: 0 <= i < |p| ==> m.Contains(p[i])
  {
    forall i | 0 < i < |p| ensures m.Contains(p[i]) {
      assert Open(m, p[i - 1], p[i]);
    }
  }

  /** In a symmetric maze a walk read backwards is a walk. */
  lemma ReverseWalk(m: Maze, p: seq<Cell>)
    requires m.Valid() && Symmetric(m) && IsWalk(m, p)
    ensures IsWalk(m, Reverse(p))
  {
    var r := Reverse(p);
    WalkInside(m, p);
    forall i | 0 <= i < |r| - 1 ensures Open(m, r[i], r[i + 1]) {
      var j := |p| - 2 - i;
      assert Open(m, p[j], p[j + 1]);
      OpenSymmetric(m, p[j], p[j + 1]);
    }
  }

  /** A walk ending where a second one starts extends by the second. */
  lemma JoinWalks(m: Maze, p: seq<Cell>, q: seq<Cell>)
    requires IsWalk(m, p) && IsWalk(m, q) && p[|p| - 1] == q[0]
    ensures WalkBetween(m, p + q[1..], p[0], q[|q| - 1])
  {
    var r := p + q[1..];
    forall i | 0 <= i < |r| - 1 ensures Open(m, r[i], r[i + 1]) {
      if i < |p| - 1 {
        assert Open(m, p[i], p[i + 1]);
      } else {
        var j := i - (|p| - 1);
        assert Open(m, q[j], q[j + 1]);
      }
    }
  }

  /** If every cell is reachable from one cell `s` of a symmetric maze, any
      cell is reachable from any other. */
  lemma ConnectedFromOne(m: Maze, s: Cell)
    requires m.Valid() && Symmetric(m) && m.Contains(s)
    requires forall c :: m.Contains(c) ==> Reachable(m, s, c)
    ensures forall a, b :: m.Contains(a) && m.Contains(b) ==> Reachable(m, a, b)
  {
    forall a, b | m.Contains(a) && m.Contains(b) ensures Reachable(m, a, b) {
      var pa :| WalkBetween(m, pa, s, a);
      var pb :| WalkBetween(m, pb, s, b);
      ReverseWalk(m, pa);
      JoinWalks(m, Reverse(pa), pb);
    }
  }

  /** Opening more steps keeps every walk a walk. */
  lemma WalkGrows(m: Maze, m': Maze, p: seq<Cell>)
    requires forall a, b :: Open(m, a, b) ==> Open(m', a, b)
    requires m'.width == m.width && m'.height == m.height
    requires IsWalk(m, p)
    ensures IsWalk(m', p)
  {
    forall i | 0 <= i < |p| - 1 ensures Open(m', p[i], p[i + 1]) {
      assert Open(m, p[i], p[i + 1]);
    }
  }

  // ----- Counting carved edges -----

  /** An undirected edge written with `from` left of or above `to`. */
  datatype Edge = Edge(from: Cell, to: Cell)

  predicate Forward(a: Cell, b: Cell) {
    b == Cell(a.x + 1, a.y) || b == Cell(a.x, a.y + 1)
  }

  function EdgeOf(a: Cell, b: Cell): Edge {
    if Forward(a, b) then Edge(a, b) else Edge(b, a)
  }

  /** The carved edges of the maze, each once. */
  function OpenEdges(m: Maze): set<Edge> {
    set a, b | a in AllCells(m.width, m.height) && b in AllCells(m.width, m.height)
                && Forward(a, b) && Open(m, a, b) :: Edge(a, b)
  }

  lemma InOpenEdges(m: Maze, e: Edge)
    ensures e in OpenEdges(m) <==> Forward(e.from, e.to) && Open(m, e.from, e.to)
  {
    if Forward(e.from, e.to) && Open(m, e.from, e.to) {
      assert e == Edge(e.from, e.to);
    }
  }

  /** Carving a closed shared edge adds exactly that edge to the carved edges. */
  lemma CarveAddsEdge(m: Maze, cur: Cell, nb: Cell)
    requires m.Valid() && m.Contains(cur) && m.Contains(nb) && Adjacent(cur, nb)
    requires !Open(m, cur, nb) && !Open(m, nb, cur)
    ensures OpenEdges(Carve(m, cur, nb)) == OpenEdges(m) + {EdgeOf(cur, nb)}
    ensures EdgeOf(cur, nb) !in OpenEdges(m)
    ensures |OpenEdges(Carve(m, cur, nb))| == |OpenEdges(m)| + 1
  {
    CarveEdgeMembers(m, cur, nb);
    assert OpenEdges(Carve(m, cur, nb)) == OpenEdges(m) + {EdgeOf(cur, nb)};
    InOpenEdges(m, EdgeOf(cur, nb));
  }

  lemma CarveEdgeMembers(m: Maze, cur: Cell, nb: Cell)
    requires m.Valid() && m.Contains(cur) && m.Contains(nb) && Adjacent(cur, nb)
    ensures forall e :: e in OpenEdges(Carve(m, cur, nb)) <==> e in OpenEdges(m) || e == EdgeOf(cur, nb)
  {
    var r := Carve(m, cur, nb);
    CarveOpens(m, cur, nb);
    forall e ensures e in OpenEdges(r) <==> e in OpenEdges(m) || e == EdgeOf(cur, nb) {
      InOpenEdges(r, e);
      InOpenEdges(m, e);
      assert Open(r, e.from, e.to) <==> Open(m, e.from, e.to) || (e.from == cur && e.to == nb) || (e.from == nb && e.to == cur);
    }
  }
}

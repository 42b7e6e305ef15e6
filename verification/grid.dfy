/**
 Cells, two-dimensional grids and neighbour enumeration.

 A grid is a sequence of columns: `g[x][y]` is the cell in column `x` and
 row `y`, so `|g|` is the width and `|g[0]|` the height, as in the source.
 */
module Grid {

  /** A grid position; coordinates are plain integers so that a candidate
      neighbour one step outside the grid can still be written down. */
  datatype Cell = Cell(x: int, y: int)

  predicate InBounds(width: int, height: int, c: Cell) {
    0 <= c.x < width && 0 <= c.y < height
  }

  /** `b` is one step up, down, left or right of `a`. */
  predicate Adjacent(a: Cell, b: Cell) {
    || (a.y == b.y && (b.x == a.x + 1 || b.x == a.x - 1))
    || (a.x == b.x && (b.y == a.y + 1 || b.y == a.y - 1))
  }

  /** Every cell of a width-by-height grid. */
  function AllCells(width: int, height: int): (r: set<Cell>)
    ensures forall c :: c in r <==> InBounds(width, height, c)
  {
    set x, y | 0 <= x < width && 0 <= y < height :: Cell(x, y)
  }

  function Column(x: int, height: int): (r: set<Cell>)
    ensures forall c :: c in r <==> c.x == x && 0 <= c.y < height
  {
    set y | 0 <= y < height :: Cell(x, y)
  }

  lemma {:induction false} ColumnCount(x: int, height: nat)
    ensures |Column(x, height)| == height
  {
    if height == 0 {
      assert Column(x, 0) == {};
    } else {
      ColumnCount(x, height - 1);
      assert Column(x, height) == Column(x, height - 1) + {Cell(x, height - 1)};
    }
  }

  /** A width-by-height grid has width * height cells. */
  lemma {:induction false} AllCellsCount(width: nat, height: nat)
    ensures |AllCells(width, height)| == width * height
  {
    if width == 0 {
      assert AllCells(0, height) == {};
    } else {
      var rest, col := AllCells(width - 1, height), Column(width - 1, height);
      AllCellsCount(width - 1, height);
      ColumnCount(width - 1, height);
      AllCellsSplit(width - 1, height);
      DisjointUnionCount(rest, col);
      MulStep(width, height);
    }
  }

  lemma MulStep(w: nat, h: nat)
    requires w >= 1
    ensures (w - 1) * h + h == w * h
  {
  }

  lemma AllCellsSplit(x: nat, height: int)
    ensures AllCells(x + 1, height) == AllCells(x, height) + Column(x, height)
    ensures AllCells(x, height) !! Column(x, height)
  {
    assert AllCells(x + 1, height) == AllCells(x, height) + Column(x, height);
  }

  lemma DisjointUnionCount<T>(a: set<T>, b: set<T>)
    requires a !! b
    ensures |a + b| == |a| + |b|
  {
    if a != {} {
      var x :| x in a;
      DisjointUnionCount(a - {x}, b);
      assert a + b == (a - {x} + b) + {x};
    }
  }

  /** `g` has `width` columns of `height` entries each. */
  predicate Shaped<T>(g: seq<seq<T>>, width: int, height: int) {
    |g| == width && forall x :: 0 <= x < width ==> |g[x]| == height
  }

  predicate InGrid<T>(g: seq<seq<T>>, c: Cell) {
    0 <= c.x < |g| && 0 <= c.y < |g[c.x]|
  }

  function At<T>(g: seq<seq<T>>, c: Cell): T
    requires InGrid(g, c)
  {
    g[c.x][c.y]
  }

  /** `g` with the entry at `c` replaced by `v`; no other entry changes. */
  function Put<T>(g: seq<seq<T>>, c: Cell, v: T): (r: seq<seq<T>>)
    requires InGrid(g, c)
    ensures |r| == |g| && forall x :: 0 <= x < |g| ==> |r[x]| == |g[x]|
    ensures forall d :: InGrid(g, d) ==> At(r, d) == if d == c then v else At(g, d)
  {
    g[c.x := g[c.x][c.y := v]]
  }

  /** A width-by-height grid holding `v` everywhere. */
  function Fill<T>(width: nat, height: nat, v: T): (r: seq<seq<T>>)
    ensures Shaped(r, width, height)
    ensures forall c :: InBounds(width, height, c) ==> At(r, c) == v
  {
    seq(width, _ => seq(height, _ => v))
  }

  function Reverse<T>(s: seq<T>): (r: seq<T>)
    ensures |r| == |s|
    ensures forall i :: 0 <= i < |s| ==> r[i] == s[|s| - 1 - i]
  {
    if s == [] then [] else Reverse(s[1..]) + [s[0]]
  }

  function Keep(width: int, height: int, c: Cell): seq<Cell> {
    if InBounds(width, height, c) then [c] else []
  }

  /** The cells right, left, below and above `c`, in that order, that lie
      inside a width-by-height grid: exactly the in-bounds cells adjacent
      to `c`. The order is part of the model: a drawn index into the
      unvisited neighbours picks the same cell as in script.ts:25-35 only
      because the candidates come in this order. */
  function Neighbors(width: int, height: int, c: Cell): (r: seq<Cell>)
    ensures |r| <= 4
    ensures forall d :: d in r <==> InBounds(width, height, d) && Adjacent(c, d)
  {
    Keep(width, height, Cell(c.x + 1, c.y))
    + Keep(width, height, Cell(c.x - 1, c.y))
    + Keep(width, height, Cell(c.x, c.y + 1))
    + Keep(width, height, Cell(c.x, c.y - 1))
  }
}

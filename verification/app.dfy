/**
 What the page runs: generate a maze of the requested size, then
 solve it from the top-left to the bottom-right corner. Reading the size
 from the page and drawing are not part of this model.
 */
module App {
  import opened Grid
  import opened Mazes
  import Generator
  import Solver

  /** Generation followed by the corner-to-corner search (script.ts:182-194).
      The search always succeeds on a generated maze, because every cell of
      it is reachable from every other, and returns a shortest walk. */
  method Generate(width: int, height: int, draws: seq<nat>) returns (m: Maze, s: Solver.Solution)
    requires width >= 1 && height >= 1
    ensures m.Valid() && m.width == width && m.height == height
    ensures s.Path?
    ensures WalkBetween(m, s.cells, Cell(0, 0), Cell(width - 1, height - 1))
    ensures forall q :: WalkBetween(m, q, Cell(0, 0), Cell(width - 1, height - 1)) ==> |s.cells| <= |q|
    ensures width == 1 && height == 1 ==> s.cells == [Cell(0, 0)]
  {
    m := Generator.GenerateMaze(width, height, draws);
    s := Solver.FindSolution(m, Cell(0, 0), Cell(width - 1, height - 1));
  }
}

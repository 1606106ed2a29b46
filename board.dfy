/**
 * The page's board: rows of Cell objects, indexed [row][col], and the
 * snapshot of what those cells hold, which the search engine works on.
 */
module Board {
  import opened Models
  import opened BoardState

  function Cells(grid: seq<seq<Cell>>): set<Cell>
  {
    set r, c | 0 <= r < |grid| && 0 <= c < |grid[r]| :: grid[r][c]
  }

  /** What every cell of the grid holds now, position by position. */
  function StateOf(grid: seq<seq<Cell>>): (s: State)
    reads Cells(grid)
    ensures |s| == |grid| && forall r :: 0 <= r < |grid| ==> |s[r]| == |grid[r]|
    ensures forall r, c :: 0 <= r < |grid| && 0 <= c < |grid[r]| ==> s[r][c] == grid[r][c].State()
  {
    seq(|grid|, r requires 0 <= r < |grid| reads Cells(grid) =>
      seq(|grid[r]|, c requires 0 <= c < |grid[r]| reads Cells(grid) => grid[r][c].State()))
  }
}

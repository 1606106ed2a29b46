/**
 * The page component: it owns the board the page shows, a grid of Cell
 * objects that generateGrid fills row by row.
 */
module App {
  import opened Models
  import opened BoardState
  import opened Board

  function Max(a: int, b: int): (m: int)
    ensures m >= a && m >= b && (m == a || m == b)
  {
    if a >= b then a else b
  }

  /** The cells of rows 0..hi - 1 are each a different object. */
  ghost predicate DistinctCells(grid: seq<seq<Cell>>, hi: int)
    requires 0 <= hi <= |grid|
  {
    forall r1, c1, r2, c2 ::
      0 <= r1 < hi && 0 <= c1 < |grid[r1]| && 0 <= r2 < hi && 0 <= c2 < |grid[r2]| && (r1, c1) != (r2, c2) ==>
        grid[r1][c1] != grid[r2][c2]
  }

  class AppComponent {
    var hidokuGrid: seq<seq<Cell>>

    constructor ()
      ensures hidokuGrid == []
    {
      hidokuGrid := [];
    }

    /**
     * generateGrid: for every row index below filas, the row at that index
     * becomes a new row of columnas new empty cells (value 0, hidden, not an
     * edge), each a distinct object.  Rows at or beyond filas that an earlier
     * board left behind are kept as they were.
     */
    method GenerateGrid(gridInfo: GridInfo)
      modifies this
      ensures |hidokuGrid| == Max(old(|hidokuGrid|), gridInfo.filas)
      ensures forall r :: 0 <= r < gridInfo.filas ==> |hidokuGrid[r]| == Max(gridInfo.columnas, 0)
      ensures forall r, c :: 0 <= r < gridInfo.filas && 0 <= c < |hidokuGrid[r]| ==>
                fresh(hidokuGrid[r][c]) && hidokuGrid[r][c].State() == CellState(0, None, false)
      ensures DistinctCells(hidokuGrid, Max(gridInfo.filas, 0))
      ensures forall r :: gridInfo.filas <= r < old(|hidokuGrid|) && 0 <= r ==> hidokuGrid[r] == old(hidokuGrid[r])
    {
      var fila := 0;
      while fila < gridInfo.filas
        invariant 0 <= fila <= Max(gridInfo.filas, 0)
        invariant |hidokuGrid| == Max(old(|hidokuGrid|), fila)
        invariant forall r :: 0 <= r < fila ==> |hidokuGrid[r]| == Max(gridInfo.columnas, 0)
        invariant forall r, c :: 0 <= r < fila && 0 <= c < |hidokuGrid[r]| ==>
                    fresh(hidokuGrid[r][c]) && hidokuGrid[r][c].State() == CellState(0, None, false)
        invariant DistinctCells(hidokuGrid, fila)
        invariant forall r :: fila <= r < old(|hidokuGrid|) ==> hidokuGrid[r] == old(hidokuGrid[r])
      {
        label RowStart:
        var row: seq<Cell> := [];
        var columna := 0;
        while columna < gridInfo.columnas
          invariant 0 <= columna <= Max(gridInfo.columnas, 0) && |row| == columna
          invariant forall c :: 0 <= c < |row| ==>
                      fresh@RowStart(row[c]) && row[c].State() == CellState(0, None, false)
          invariant forall c1, c2 :: 0 <= c1 < c2 < |row| ==> row[c1] != row[c2]
          invariant hidokuGrid == old@RowStart(hidokuGrid)
          invariant forall r, c :: 0 <= r < fila && 0 <= c < |hidokuGrid[r]| ==>
                      hidokuGrid[r][c].State() == CellState(0, None, false)
        {
          var cell := new Cell();
          row := row + [cell];
          columna := columna + 1;
        }
        hidokuGrid := if fila < |hidokuGrid| then hidokuGrid[fila := row] else hidokuGrid + [row];
        fila := fila + 1;
      }
    }
  }
}

/**
 * BackTracking: randomized depth-first search that extends a path from a start
 * cell by tentatively writing value + 1 into an empty neighbour, recursing,
 * and writing 0 back when the recursion fails.
 */
module BackTrackingSearch {
  import opened Models
  import opened BoardState
  import opened Board
  import opened MoveModel
  import opened Randomness

  class BackTracking {
    const gridInfo: GridInfo
    /** What the board's cells hold; every write of the search replaces it. */
    var processGrid: State
    const allowedBaseMoves: seq<Move>

    constructor (gridInfo: GridInfo, processGrid: seq<seq<Cell>>)
      ensures this.gridInfo == gridInfo && this.processGrid == old(StateOf(processGrid))
      ensures allowedBaseMoves == KingMoves
    {
      this.gridInfo := gridInfo;
      this.processGrid := StateOf(processGrid);
      var moves := BuildBaseMoves();
      allowedBaseMoves := moves;
    }

    /**
     * The board has the dimensions of gridInfo (at least one cell), quantity
     * counts its cells and every base move is a king move.
     */
    ghost predicate Valid()
      reads this
    {
      Shaped(processGrid, gridInfo) && gridInfo.rowIndexes >= 0 && gridInfo.colIndexes >= 0 &&
      gridInfo.quantity == (gridInfo.rowIndexes + 1) * (gridInfo.colIndexes + 1) &&
      forall m :: m in allowedBaseMoves ==> IsKingOffset(m)
    }

    /**
     * Extends the path that ends in cell.  On success the board is extended
     * from cell by a chain that ends on quantity, and that last cell is
     * marked as an edge and shown.  On failure every allowed move was tried
     * once and the board is as it was on entry.
     */
    method RecursiveMove(cell: Position) returns (found: bool, ghost path: seq<Position>, ghost tried: seq<Move>)
      requires Valid() && Within(processGrid, cell) && At(processGrid, cell).value >= 1
      modifies this
      decreases EmptyIn(processGrid), 1
      ensures Valid()
      ensures !found ==> multiset(tried) == multiset(AllowedMoves(old(processGrid), gridInfo, allowedBaseMoves, cell))
      ensures !found ==> processGrid == old(processGrid)
      ensures found ==> Extended(old(processGrid), processGrid, path, old(At(processGrid, cell).value)) && path[0] == cell
      ensures found ==> At(processGrid, path[|path| - 1]) == CellState(gridInfo.quantity, Some(gridInfo.quantity), true)
    {
      ghost var s0 := processGrid;
      ghost var v := At(processGrid, cell).value;
      if At(processGrid, cell).value == gridInfo.quantity {
        processGrid := MarkEdge(processGrid, cell);
        MarkIsExtension(s0, cell);
        return true, [cell], [];
      }

      var movesAllowed := GetAllowedMoves(processGrid, gridInfo, allowedBaseMoves, cell);
      AllowedMovesFilterBase(processGrid, gridInfo, allowedBaseMoves, cell);
      ghost var initial := movesAllowed;
      tried := [];

      while movesAllowed != []
        invariant Valid() && processGrid == s0
        invariant multiset(movesAllowed) + multiset(tried) == multiset(initial)
        decreases |movesAllowed|
      {
        var rnd := Random();
        var moveIndex := RandomIndex(rnd, |movesAllowed| - 1);
        var allowedMove := movesAllowed[moveIndex];
        SpliceOneOut(movesAllowed, moveIndex, tried, initial);
        movesAllowed := movesAllowed[..moveIndex] + movesAllowed[moveIndex + 1..];
        tried := tried + [allowedMove];

        var result;
        ghost var sub;
        result, sub := TryMove(cell, allowedMove);
        if result {
          return true, sub, tried;
        }
      }
      return false, [], tried;
    }

    /**
     * One iteration of RecursiveMove's loop: writes cell's value + 1 into the
     * cell the move leads to, recurses from there, and writes 0 back if the
     * recursion fails.
     */
    method TryMove(cell: Position, allowedMove: Move) returns (found: bool, ghost path: seq<Position>)
      requires Valid() && Within(processGrid, cell) && At(processGrid, cell).value >= 1
      requires IsKingOffset(allowedMove) && IsAllowed(processGrid, gridInfo, cell, allowedMove)
      modifies this
      decreases EmptyIn(processGrid), 0
      ensures Valid()
      ensures !found ==> processGrid == old(processGrid)
      ensures found ==> Extended(old(processGrid), processGrid, path, old(At(processGrid, cell).value)) && path[0] == cell
      ensures found ==> At(processGrid, path[|path| - 1]) == CellState(gridInfo.quantity, Some(gridInfo.quantity), true)
    {
      ghost var s0 := processGrid;
      var dir := CalculateMoveIndex(cell, allowedMove);
      AllowedTarget(processGrid, gridInfo, cell, allowedMove);
      processGrid := SetValue(processGrid, dir, At(processGrid, cell).value + 1);
      ghost var s1 := processGrid;
      FillShrinksEmpty(s0, dir, At(s0, cell).value + 1);
      var result;
      ghost var sub, subTried;
      result, sub, subTried := RecursiveMove(dir);
      if result {
        AllowedStep(s0, s1, processGrid, gridInfo, cell, allowedMove, sub);
        return true, [cell] + sub;
      }
      SetValueUndone(s0, s1, dir, At(s0, cell).value + 1);
      processGrid := SetValue(processGrid, dir, 0);
      return false, [];
    }

    /**
     * Puts 1 on a random start cell, marks it as an edge, shows it and
     * extends the path from there.  When the search succeeds the board
     * with its start so marked is extended along path from the start: path
     * holds 1, 2, ..., every other cell keeps its value, label and edge
     * mark, and the board is a solved Hidoku whose end is marked and shown.
     * Otherwise only the start cell differs from the board before the call.
     */
    method GenerateSolution() returns (grid: State, ghost solved: bool, ghost start: Position, ghost path: seq<Position>)
      requires Valid()
      modifies this
      ensures Valid() && grid == processGrid
      ensures InBounds(start, gridInfo) && Within(old(processGrid), start)
      ensures At(processGrid, start) == CellState(1, Some(1), true)
      ensures solved ==> Extended(Update(old(processGrid), start, CellState(1, Some(1), true)), processGrid, path, 1) &&
                         path[0] == start
      ensures solved ==> Solved(processGrid, gridInfo.quantity)
      ensures solved ==> forall p :: Within(processGrid, p) && At(processGrid, p).value == gridInfo.quantity ==>
                At(processGrid, p) == CellState(gridInfo.quantity, Some(gridInfo.quantity), true)
      ensures !solved ==> processGrid == Update(old(processGrid), start, CellState(1, Some(1), true))
    {
      ghost var s0 := processGrid;
      var rndCol := Random();
      var randomCol := RandomIndex(rndCol, gridInfo.colIndexes);
      var rndRow := Random();
      var randomRow := RandomIndex(rndRow, gridInfo.rowIndexes);
      var startCell := Position(randomRow, randomCol);
      start := startCell;

      processGrid := SetValue(processGrid, startCell, 1);
      processGrid := MarkEdge(processGrid, startCell);
      ghost var s1 := processGrid;
      SameStates(s1, Update(s0, start, CellState(1, Some(1), true)));

      var found;
      ghost var tried;
      found, path, tried := RecursiveMove(startCell);
      solved := found;
      if found {
        var rows, cols := gridInfo.rowIndexes + 1, gridInfo.colIndexes + 1;
        assert At(processGrid, path[|path| - 1]).value == 1 + |path| - 1;
        FullChainSolves(processGrid, rows, cols, path);
        if |path| > 1 {
          assert start != path[|path| - 1] by {
            assert At(processGrid, path[0]).value != At(processGrid, path[|path| - 1]).value;
          }
        }
      }
      grid := processGrid;
    }
  }
}

/**
 * GreedyMatrix: fixes a start cell (value 1) and a final cell (value
 * quantity), then repeatedly writes value + 1 into the allowed neighbour
 * farthest from the final cell, never undoing a write, until the value
 * quantity - 1 is placed or no neighbour is left.
 */
module GreedySearch {
  import opened Models
  import opened BoardState
  import opened Board
  import opened MoveModel
  import opened Randomness

  /**
   * The square of the Euclidean distance between two positions; the square
   * root the page takes does not change which distance is larger.
   */
  function SquaredDistance(p: Position, q: Position): (d: nat)
    ensures d == 0 <==> p == q
    ensures KingAdjacent(p, q) ==> 1 <= d <= 2
  {
    var dr, dc := q.row - p.row, q.col - p.col;
    SquareFacts(dr);
    SquareFacts(dc);
    dr * dr + dc * dc
  }

  lemma SquareFacts(x: int)
    ensures x * x >= 0 && (x * x == 0 <==> x == 0) && (x != 0 ==> x * x >= 1)
    ensures -1 <= x <= 1 ==> x * x <= 1
  {
    if x > 0 {
      assert x * x >= x * 1;
    } else if x < 0 {
      assert x * x == (-x) * (-x);
      assert (-x) * (-x) >= (-x) * 1;
    }
  }

  /** The cell getCellAtMove reaches is the position calculateMoveIndex names. */
  function GetCellAtMove(cell: Position, move: Move): (target: Position)
    ensures target.row - cell.row == move.row && target.col - cell.col == move.col
  {
    CalculateMoveIndex(cell, move)
  }

  /** How far the cell that move k leads to lies from finalCell. */
  function MoveDistance(cell: Position, finalCell: Position, moves: seq<Move>, k: int): nat
    requires 0 <= k < |moves|
  {
    SquaredDistance(GetCellAtMove(cell, moves[k]), finalCell)
  }

  /**
   * greaterDistance: scans the moves, keeping the target of the first move
   * whose distance to finalCell beats every earlier one, starting from 0.
   * The result is absent (the page's `undefined`) exactly when every move
   * leads onto finalCell itself, in particular when there is no move.
   */
  method GreaterDistance(cell: Position, finalCell: Position, moves: seq<Move>)
    returns (lastCell: Option<Position>, ghost k: int)
    ensures lastCell.None? <==> forall j :: 0 <= j < |moves| ==> MoveDistance(cell, finalCell, moves, j) == 0
    ensures lastCell.Some? ==> 0 <= k < |moves| && lastCell.value == GetCellAtMove(cell, moves[k])
    ensures lastCell.Some? ==> forall j :: 0 <= j < |moves| ==> MoveDistance(cell, finalCell, moves, j) <= MoveDistance(cell, finalCell, moves, k)
    ensures lastCell.Some? ==> forall j :: 0 <= j < k ==> MoveDistance(cell, finalCell, moves, j) < MoveDistance(cell, finalCell, moves, k)
    ensures lastCell.Some? ==> MoveDistance(cell, finalCell, moves, k) > 0
  {
    lastCell, k := None, -1;
    var maxDistance := 0;
    for i := 0 to |moves|
      invariant lastCell.None? <==> maxDistance == 0
      invariant lastCell.None? ==> forall j :: 0 <= j < i ==> MoveDistance(cell, finalCell, moves, j) == 0
      invariant lastCell.Some? ==> 0 <= k < i && lastCell.value == GetCellAtMove(cell, moves[k]) &&
                                   maxDistance == MoveDistance(cell, finalCell, moves, k)
      invariant forall j :: 0 <= j < i ==> MoveDistance(cell, finalCell, moves, j) <= maxDistance
      invariant lastCell.Some? ==> forall j :: 0 <= j < k ==> MoveDistance(cell, finalCell, moves, j) < maxDistance
    {
      var cellMove := GetCellAtMove(cell, moves[i]);
      var distance := SquaredDistance(cellMove, finalCell);
      if distance > maxDistance {
        lastCell, k := Some(cellMove), i;
        maxDistance := distance;
      }
    }
  }

  /** When no move gets any distance from finalCell, every move leads onto it. */
  lemma NoMoveLeavesFinal(cell: Position, finalCell: Position, moves: seq<Move>)
    requires forall j :: 0 <= j < |moves| ==> MoveDistance(cell, finalCell, moves, j) == 0
    ensures forall m :: m in moves ==> CalculateMoveIndex(cell, m) == finalCell
  {
    forall m | m in moves ensures CalculateMoveIndex(cell, m) == finalCell {
      var j :| 0 <= j < |moves| && moves[j] == m;
      assert MoveDistance(cell, finalCell, moves, j) == 0;
    }
  }

  /** Every allowed move from p leads onto finalCell, so greaterDistance finds no cell. */
  predicate Stuck(s: State, info: GridInfo, base: seq<Move>, p: Position, finalCell: Position)
    requires Shaped(s, info)
  {
    forall m :: m in AllowedMoves(s, info, base, p) ==> CalculateMoveIndex(p, m) == finalCell
  }

  /** When every allowed move leads onto finalCell, an allowed move makes finalCell empty. */
  lemma StuckTargetsFinal(s: State, info: GridInfo, base: seq<Move>, p: Position, finalCell: Position)
    requires Shaped(s, info) && Within(s, finalCell)
    requires Stuck(s, info, base, p, finalCell)
    ensures forall m :: m in AllowedMoves(s, info, base, p) ==> At(s, finalCell).value == 0
  {
    AllowedMovesFilterBase(s, info, base, p);
    forall m | m in AllowedMoves(s, info, base, p) ensures At(s, finalCell).value == 0 {
      assert IsAllowed(s, info, p, m);
    }
  }

  /** finalCell is never empty, so being stuck means that no move is allowed at all. */
  lemma StuckHasNoMove(s: State, info: GridInfo, base: seq<Move>, p: Position, finalCell: Position)
    requires Shaped(s, info) && Within(s, finalCell) && At(s, finalCell).value != 0
    requires Stuck(s, info, base, p, finalCell)
    ensures AllowedMoves(s, info, base, p) == []
  {
    StuckTargetsFinal(s, info, base, p, finalCell);
  }

  /**
   * Move k is the one greaterDistance keeps from moves: its target is off
   * finalCell, no move leads farther from finalCell, and every earlier move
   * leads strictly nearer (ties go to the first move in order).
   */
  ghost predicate FarthestFirst(cell: Position, finalCell: Position, moves: seq<Move>, k: int)
  {
    0 <= k < |moves| && MoveDistance(cell, finalCell, moves, k) > 0 &&
    (forall j :: 0 <= j < |moves| ==> MoveDistance(cell, finalCell, moves, j) <= MoveDistance(cell, finalCell, moves, k)) &&
    (forall j :: 0 <= j < k ==> MoveDistance(cell, finalCell, moves, j) < MoveDistance(cell, finalCell, moves, k))
  }

  /**
   * One greedy step from p on board s: among the allowed moves from p,
   * move k is the one greaterDistance keeps, q is its target, and the
   * board becomes t by writing p's value + 1 into q.
   */
  ghost predicate GreedyStep(s: State, t: State, info: GridInfo, base: seq<Move>, p: Position, q: Position,
                             finalCell: Position, k: int)
  {
    Shaped(s, info) && Within(s, p) &&
    FarthestFirst(p, finalCell, AllowedMoves(s, info, base, p), k) &&
    q == GetCellAtMove(p, AllowedMoves(s, info, base, p)[k]) &&
    Within(s, q) && t == SetValue(s, q, At(s, p).value + 1)
  }

  /**
   * A walk of greedy steps: trace[i] is the board before step i, which goes
   * from path[i] to path[i + 1] through allowed move picks[i] and leaves
   * trace[i + 1].
   */
  ghost predicate GreedyWalk(trace: seq<State>, path: seq<Position>, picks: seq<int>, info: GridInfo,
                             base: seq<Move>, finalCell: Position)
  {
    |trace| == |path| == |picks| + 1 &&
    forall i :: 0 <= i < |picks| ==>
      GreedyStep(trace[i], trace[i + 1], info, base, path[i], path[i + 1], finalCell, picks[i])
  }

  /** A greedy step from the end of a greedy walk makes a longer greedy walk. */
  lemma WalkExtend(trace: seq<State>, path: seq<Position>, picks: seq<int>, info: GridInfo, base: seq<Move>,
                   finalCell: Position, t: State, q: Position, k: int)
    requires GreedyWalk(trace, path, picks, info, base, finalCell)
    requires GreedyStep(trace[|trace| - 1], t, info, base, path[|path| - 1], q, finalCell, k)
    ensures GreedyWalk(trace + [t], path + [q], picks + [k], info, base, finalCell)
  {
    var trace', path', picks' := trace + [t], path + [q], picks + [k];
    forall i | 0 <= i < |picks'|
      ensures GreedyStep(trace'[i], trace'[i + 1], info, base, path'[i], path'[i + 1], finalCell, picks'[i])
    {
      if i < |picks| {
        assert trace'[i] == trace[i] && trace'[i + 1] == trace[i + 1];
        assert path'[i] == path[i] && path'[i + 1] == path[i + 1] && picks'[i] == picks[i];
      }
    }
  }

  /**
   * The board generateSolution hands to the walk: start set to a shown edge
   * holding 1, then final set to a shown edge holding quantity.
   */
  function Seeded(s: State, start: Position, final: Position, quantity: int): (t: State)
    requires Within(s, start) && Within(s, final)
    ensures SameShape(s, t) && At(t, final) == CellState(quantity, Some(quantity), true)
    ensures start != final ==> At(t, start) == CellState(1, Some(1), true)
    ensures forall q :: Within(s, q) && q != start && q != final ==> At(t, q) == At(s, q)
  {
    Update(Update(s, start, CellState(1, Some(1), true)), final, CellState(quantity, Some(quantity), true))
  }

  /**
   * A walk that reaches quantity - 1 on a cell next to the final cell, which
   * the page does not check, leaves a solved Hidoku.
   */
  lemma ReachedNextToFinalSolves(s: State, info: GridInfo, path: seq<Position>, finalCell: Position)
    requires info.rowIndexes >= 0 && info.colIndexes >= 0 && Shaped(s, info)
    requires info.quantity == (info.rowIndexes + 1) * (info.colIndexes + 1)
    requires IsChain(s, path, 1) && |path| == info.quantity - 1
    requires Within(s, finalCell) && At(s, finalCell).value == info.quantity
    requires KingAdjacent(path[|path| - 1], finalCell)
    ensures Solved(s, info.quantity)
  {
    var chain := path + [finalCell];
    forall i | 0 <= i < |chain| - 1 ensures KingAdjacent(chain[i], chain[i + 1]) {
      if i < |path| - 1 {
        assert chain[i] == path[i] && chain[i + 1] == path[i + 1];
      }
    }
    assert IsChain(s, chain, 1);
    FullChainSolves(s, info.rowIndexes + 1, info.colIndexes + 1, chain);
  }

  /** The boards of the 1 x 3 example below: empty, seeded, and after the walk's one write. */
  lemma ExampleBoards()
    ensures var c0, c1, c2, c3 := CellState(0, None, false), CellState(1, Some(1), true),
                                  CellState(2, None, false), CellState(3, Some(3), true);
            Seeded([[c0, c0, c0]], Position(0, 1), Position(0, 0), 3) == [[c3, c1, c0]] &&
            SetValue([[c3, c1, c0]], Position(0, 2), 2) == [[c3, c1, c2]]
  {
    var c0, c1, c2, c3 := CellState(0, None, false), CellState(1, Some(1), true), CellState(2, None, false),
                          CellState(3, Some(3), true);
    assert [c0, c0, c0][1 := c1] == [c0, c1, c0];
    assert [c0, c1, c0][0 := c3] == [c3, c1, c0];
    assert [c3, c1, c0][2 := c2] == [c3, c1, c2];
  }

  /** On the seeded 1 x 3 board the only allowed move from (0, 1) is to the right. */
  lemma ExampleMoves(info: GridInfo)
    requires info.rowIndexes == 0 && info.colIndexes == 2
    ensures var s := [[CellState(3, Some(3), true), CellState(1, Some(1), true), CellState(0, None, false)]];
            AllowedMoves(s, info, KingMoves, Position(0, 1)) == [Move(0, 1)]
  {
    var s := [[CellState(3, Some(3), true), CellState(1, Some(1), true), CellState(0, None, false)]];
    var start := Position(0, 1);
    var prefix := AllowedMoves(s, info, KingMoves[..0], start);
    for n := 0 to 8
      invariant prefix == AllowedMoves(s, info, KingMoves[..n], start)
      invariant prefix == if n <= 4 then [] else [Move(0, 1)]
    {
      assert KingMoves[..n + 1][..n] == KingMoves[..n];
      prefix := AllowedMoves(s, info, KingMoves[..n + 1], start);
    }
    assert KingMoves[..8] == KingMoves;
  }

  /**
   * Reaching quantity - 1 does not by itself solve the board.  On an empty
   * 1 x 3 board with start (0, 1) and final (0, 0), the only allowed move
   * from the start is to (0, 2); the walk writes 2 there and stops, but no
   * neighbour of (0, 2) holds 3.
   */
  lemma ReachedNeedNotSolve(info: GridInfo)
    requires info.rowIndexes == 0 && info.colIndexes == 2 && info.quantity == 3
    ensures var empty := [[CellState(0, None, false), CellState(0, None, false), CellState(0, None, false)]];
            var s1 := Seeded(empty, Position(0, 1), Position(0, 0), 3);
            var s2 := SetValue(s1, Position(0, 2), 2);
            GreedyWalk([s1, s2], [Position(0, 1), Position(0, 2)], [0], info, KingMoves, Position(0, 0)) &&
            At(s2, Position(0, 2)).value == info.quantity - 1 && !Solved(s2, info.quantity)
  {
    var start, final, end := Position(0, 1), Position(0, 0), Position(0, 2);
    var s1 := [[CellState(3, Some(3), true), CellState(1, Some(1), true), CellState(0, None, false)]];
    var s2 := [[CellState(3, Some(3), true), CellState(1, Some(1), true), CellState(2, None, false)]];
    ExampleBoards();
    ExampleMoves(info);
    var moves := AllowedMoves(s1, info, KingMoves, start);
    assert FarthestFirst(start, final, moves, 0);
    assert GreedyStep(s1, s2, info, KingMoves, start, end, final, 0);
    assert At(s2, end).value < 3;
    forall q | Within(s2, q) && KingAdjacent(end, q) ensures At(s2, q).value != 3 {
      assert q == start;
    }
  }

  /** A chain from v holds x before its last cell exactly when v <= x < v + |path| - 1. */
  lemma ChainValuesBefore(s: State, path: seq<Position>, v: int, x: int)
    requires IsChain(s, path, v) && !(v <= x < v + |path| - 1)
    ensures forall i :: 0 <= i < |path| - 1 ==> At(s, path[i]).value != x
  {
  }

  class GreedyMatrix {
    const gridInfo: GridInfo
    /** What the board's cells hold; every write of the search replaces it. */
    var processGrid: State
    const allowedBaseMoves: seq<Move>

    constructor (gridInfo: GridInfo, processGrid: seq<seq<Cell>>)
      ensures this.gridInfo == gridInfo && this.processGrid == old(StateOf(processGrid))
      ensures allowedBaseMoves == KingMoves
    {
      this.gridInfo := gridInfo;
      this.processGrid := StateOf(processGrid);
      var moves := BuildBaseMoves();
      allowedBaseMoves := moves;
    }

    /**
     * The board has the dimensions of gridInfo (at least one cell), quantity
     * counts its cells and every base move is a king move.
     */
    ghost predicate Valid()
      reads this
    {
      Shaped(processGrid, gridInfo) && gridInfo.rowIndexes >= 0 && gridInfo.colIndexes >= 0 &&
      gridInfo.quantity == (gridInfo.rowIndexes + 1) * (gridInfo.colIndexes + 1) &&
      forall m :: m in allowedBaseMoves ==> IsKingOffset(m)
    }

    /**
     * One scheduled step from cell that has not reached quantity - 1: asks
     * for the allowed moves, lets greaterDistance pick the neighbour, and
     * writes cell.value + 1 into it.  When greaterDistance finds no
     * neighbour nothing is written.
     */
    method Step(cell: Position, finalCell: Position) returns (cellMove: Option<Position>, ghost k: int)
      requires Valid() && Within(processGrid, cell) && At(processGrid, cell).value >= 1
      modifies this
      ensures Valid()
      ensures cellMove.None? ==>
                processGrid == old(processGrid) && Stuck(processGrid, gridInfo, allowedBaseMoves, cell, finalCell)
      ensures cellMove.Some? ==>
                GreedyStep(old(processGrid), processGrid, gridInfo, allowedBaseMoves, cell, cellMove.value, finalCell, k)
      ensures cellMove.Some? ==> Within(old(processGrid), cellMove.value) &&
                                 At(old(processGrid), cellMove.value).value == 0 && KingAdjacent(cell, cellMove.value)
      ensures cellMove.Some? ==> EmptyIn(processGrid) < EmptyIn(old(processGrid))
    {
      var movesAllowed := GetAllowedMoves(processGrid, gridInfo, allowedBaseMoves, cell);
      cellMove, k := GreaterDistance(cell, finalCell, movesAllowed);
      if cellMove.None? {
        NoMoveLeavesFinal(cell, finalCell, movesAllowed);
        return;
      }
      AllowedMoveTarget(processGrid, gridInfo, allowedBaseMoves, cell, k);
      ghost var s0 := processGrid;
      processGrid := SetValue(processGrid, cellMove.value, At(processGrid, cell).value + 1);
      FillShrinksEmpty(s0, cellMove.value, At(s0, cell).value + 1);
      SameShapeRectangle(s0, processGrid, gridInfo.rowIndexes + 1, gridInfo.colIndexes + 1);
    }

    /**
     * The chain of scheduled steps from cell, run to its end.  A step stops
     * with success when its cell holds quantity - 1; otherwise it takes one
     * greedy Step and the next step starts at the cell written, so the walk
     * stops at the first cell holding quantity - 1 and only there reports
     * success.  With no
     * neighbour the page's step fails on `undefined`, which ends the chain
     * without success.  Nothing is undone: the boards trace[0] (the board on
     * entry), ..., trace[|trace| - 1] (the board on exit) are a greedy walk
     * along path, the board is extended from cell by that path, and no label
     * or edge mark changes.  On failure every allowed move from the end of
     * the chain leads onto finalCell.
     */
    method RecursiveMove(cell: Position, finalCell: Position)
      returns (reached: bool, ghost path: seq<Position>, ghost trace: seq<State>, ghost picks: seq<int>)
      requires Valid() && Within(processGrid, cell) && At(processGrid, cell).value >= 1
      modifies this
      ensures Valid()
      ensures Extended(old(processGrid), processGrid, path, old(At(processGrid, cell).value)) && path[0] == cell
      ensures MarksKept(old(processGrid), processGrid)
      ensures GreedyWalk(trace, path, picks, gridInfo, allowedBaseMoves, finalCell)
      ensures trace[0] == old(processGrid) && trace[|trace| - 1] == processGrid
      ensures reached <==> At(processGrid, path[|path| - 1]).value == gridInfo.quantity - 1
      ensures forall i :: 0 <= i < |path| - 1 ==> At(processGrid, path[i]).value != gridInfo.quantity - 1
      ensures !reached ==> Stuck(processGrid, gridInfo, allowedBaseMoves, path[|path| - 1], finalCell)
    {
      ghost var s0 := processGrid;
      ghost var v := At(processGrid, cell).value;
      var current := cell;
      path, trace, picks := [cell], [processGrid], [];
      NothingWrittenIsExtension(processGrid, cell);

      while At(processGrid, current).value != gridInfo.quantity - 1
        invariant Valid() && Within(processGrid, current)
        invariant Extended(s0, processGrid, path, v) && path[0] == cell && path[|path| - 1] == current
        invariant MarksKept(s0, processGrid)
        invariant GreedyWalk(trace, path, picks, gridInfo, allowedBaseMoves, finalCell)
        invariant trace[0] == s0 && trace[|trace| - 1] == processGrid
        invariant !(v <= gridInfo.quantity - 1 < v + |path| - 1)
        decreases EmptyIn(processGrid)
      {
        ghost var s1 := processGrid;
        var cellMove;
        ghost var k;
        cellMove, k := Step(current, finalCell);
        if cellMove.None? {
          ChainValuesBefore(processGrid, path, v, gridInfo.quantity - 1);
          return false, path, trace, picks;
        }
        var dir := cellMove.value;
        assert At(s1, current).value + 1 == v + |path|;
        AppendIsExtension(s0, s1, processGrid, path, dir, v);
        WalkExtend(trace, path, picks, gridInfo, allowedBaseMoves, finalCell, processGrid, dir, k);
        path, trace, picks := path + [dir], trace + [processGrid], picks + [k];
        current := dir;
      }
      ChainValuesBefore(processGrid, path, v, gridInfo.quantity - 1);
      return true, path, trace, picks;
    }

    /**
     * Makes start a shown edge holding 1, then final a shown edge holding
     * quantity.
     */
    method Seed(start: Position, final: Position)
      requires Valid() && InBounds(start, gridInfo) && InBounds(final, gridInfo)
      modifies this
      ensures Valid() && Within(old(processGrid), start) && Within(old(processGrid), final)
      ensures processGrid == Seeded(old(processGrid), start, final, gridInfo.quantity)
    {
      ghost var s0 := processGrid;
      ShapedWithin(processGrid, gridInfo, start);
      ShapedWithin(processGrid, gridInfo, final);
      processGrid := SetValue(processGrid, start, 1);
      processGrid := MarkEdge(processGrid, start);
      SetAndMark(s0, processGrid, start, 1);
      ghost var s1 := processGrid;
      processGrid := SetValue(processGrid, final, gridInfo.quantity);
      processGrid := MarkEdge(processGrid, final);
      SetAndMark(s1, processGrid, final, gridInfo.quantity);
      SameShapeRectangle(s0, processGrid, gridInfo.rowIndexes + 1, gridInfo.colIndexes + 1);
    }

    /**
     * Puts 1 on a random start cell and quantity on a random final cell
     * (the final write wins when both are the same cell), marks both as
     * edges, shows both, and runs the chain from the start cell.  From the
     * board so seeded the chain is a greedy walk from the start cell that
     * writes only empty cells and no label or edge mark.  The final cell
     * ends as it was set; the start cell too unless it is the final cell;
     * when the chain succeeds it holds 1, 2, ..., quantity - 1 from the
     * start cell, and when it fails its end has no allowed move left.
     */
    method GenerateSolution()
      returns (grid: State, ghost reached: bool, ghost start: Position, ghost final: Position,
               ghost path: seq<Position>, ghost trace: seq<State>, ghost picks: seq<int>)
      requires Valid()
      modifies this
      ensures Valid() && grid == processGrid
      ensures InBounds(start, gridInfo) && InBounds(final, gridInfo)
      ensures Within(old(processGrid), start) && Within(old(processGrid), final)
      ensures var s := Seeded(old(processGrid), start, final, gridInfo.quantity);
              Extended(s, processGrid, path, At(s, start).value) && path[0] == start && MarksKept(s, processGrid)
      ensures GreedyWalk(trace, path, picks, gridInfo, allowedBaseMoves, final)
      ensures trace[0] == Seeded(old(processGrid), start, final, gridInfo.quantity) && trace[|trace| - 1] == processGrid
      ensures At(processGrid, final) == CellState(gridInfo.quantity, Some(gridInfo.quantity), true)
      ensures start != final ==> At(processGrid, start) == CellState(1, Some(1), true)
      ensures start != final && reached ==>
                IsChain(processGrid, path, 1) && path[0] == start && |path| == gridInfo.quantity - 1
      ensures start != final ==> (reached <==> |path| == gridInfo.quantity - 1)
      ensures !reached ==> (path != [] && Within(processGrid, path[|path| - 1]) &&
                            AllowedMoves(processGrid, gridInfo, allowedBaseMoves, path[|path| - 1]) == [])
    {
      var rndColStart := Random();
      var randomColStart := RandomIndex(rndColStart, gridInfo.colIndexes);
      var rndRowStart := Random();
      var randomRowStart := RandomIndex(rndRowStart, gridInfo.rowIndexes);
      var rndColFinal := Random();
      var randomColFinal := RandomIndex(rndColFinal, gridInfo.colIndexes);
      var rndRowFinal := Random();
      var randomRowFinal := RandomIndex(rndRowFinal, gridInfo.rowIndexes);
      var startCell := Position(randomRowStart, randomColStart);
      var finalCell := Position(randomRowFinal, randomColFinal);
      start, final := startCell, finalCell;
      ghost var s0 := processGrid;
      QuantityPositive(gridInfo);
      Seed(startCell, finalCell);
      ghost var s2 := processGrid;
      assert At(s2, startCell).value >= 1;

      reached, path, trace, picks := RecursiveMove(startCell, finalCell);
      ExtendedKeepsNonZero(s2, processGrid, path, At(s2, startCell).value);
      assert At(processGrid, finalCell).value == At(s2, finalCell).value;
      if start != final {
        assert At(processGrid, path[|path| - 1]).value == 1 + |path| - 1;
      }
      if !reached {
        StuckHasNoMove(processGrid, gridInfo, allowedBaseMoves, path[|path| - 1], finalCell);
      }
      grid := processGrid;
    }
  }
}

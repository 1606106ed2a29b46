/**
 * The move model both strategies share: the eight king moves, the target of a
 * move, and the moves allowed from a cell (inside the board and onto an empty
 * cell).
 */
module MoveModel {
  import opened Models
  import opened BoardState

  /** dr, dc in {-1, 0, 1}, not both 0. */
  predicate IsKingOffset(m: Move)
  {
    -1 <= m.row <= 1 && -1 <= m.col <= 1 && m != Move(0, 0)
  }

  /** The eight king moves in row-major order of (row, col). */
  const KingMoves: seq<Move> :=
    [Move(-1, -1), Move(-1, 0), Move(-1, 1),
     Move(0, -1),               Move(0, 1),
     Move(1, -1),  Move(1, 0),  Move(1, 1)]

  /** Row-major order: strictly earlier row, or same row and strictly earlier column. */
  predicate RowMajorBefore(a: Move, b: Move)
  {
    a.row < b.row || (a.row == b.row && a.col < b.col)
  }

  lemma KingMovesAreTheKingOffsets()
    ensures |KingMoves| == 8
    ensures forall m :: m in KingMoves <==> IsKingOffset(m)
    ensures forall i, j :: 0 <= i < j < |KingMoves| ==> RowMajorBefore(KingMoves[i], KingMoves[j])
  {
  }

  /**
   * The move list built by the strategies' constructors: two nested loops
   * push every (row, col) of {-1, 0, 1}^2 in row-major order, then the entry
   * at index 4, which is (0, 0), is spliced out.
   */
  method BuildBaseMoves() returns (allowedBaseMoves: seq<Move>)
    ensures allowedBaseMoves == KingMoves
  {
    allowedBaseMoves := [];
    for row := -1 to 2
      invariant |allowedBaseMoves| == 3 * (row + 1)
      invariant forall k :: 0 <= k < |allowedBaseMoves| ==> allowedBaseMoves[k] == Move(k / 3 - 1, k % 3 - 1)
    {
      for col := -1 to 2
        invariant |allowedBaseMoves| == 3 * (row + 1) + (col + 1)
        invariant forall k :: 0 <= k < |allowedBaseMoves| ==> allowedBaseMoves[k] == Move(k / 3 - 1, k % 3 - 1)
      {
        allowedBaseMoves := allowedBaseMoves + [Move(row, col)];
      }
    }
    assert allowedBaseMoves[4] == Move(0, 0);
    allowedBaseMoves := allowedBaseMoves[..4] + allowedBaseMoves[5..];
    assert forall k :: 0 <= k < 8 ==> allowedBaseMoves[k] == KingMoves[k];
  }

  /** The position a move leads to from a cell. */
  function CalculateMoveIndex(p: Position, move: Move): Position
  {
    Position(p.row + move.row, p.col + move.col)
  }

  /**
   * The move is recovered from the cell and the position reached, so two
   * different moves from one cell never reach the same position.
   */
  lemma MoveIndexInverse(p: Position, move: Move, other: Move)
    ensures var q := CalculateMoveIndex(p, move); Move(q.row - p.row, q.col - p.col) == move
    ensures CalculateMoveIndex(p, other) == CalculateMoveIndex(p, move) <==> other == move
  {
  }

  /** A move leads to a king-adjacent position exactly when it is a king offset. */
  lemma MoveIndexIsAdjacent(p: Position, move: Move)
    ensures KingAdjacent(p, CalculateMoveIndex(p, move)) <==> IsKingOffset(move)
  {
  }

  /** The king moves reach exactly the king-adjacent positions, each by one move. */
  lemma KingMovesReachNeighbours(p: Position)
    ensures forall q :: KingAdjacent(p, q) <==>
                        exists m :: m in KingMoves && CalculateMoveIndex(p, m) == q
    ensures forall i, j :: 0 <= i < j < |KingMoves| ==>
                           CalculateMoveIndex(p, KingMoves[i]) != CalculateMoveIndex(p, KingMoves[j])
  {
    KingMovesAreTheKingOffsets();
    forall q | KingAdjacent(p, q)
      ensures exists m :: m in KingMoves && CalculateMoveIndex(p, m) == q
    {
      var m := Move(q.row - p.row, q.col - p.col);
      assert IsKingOffset(m);
      assert CalculateMoveIndex(p, m) == q;
    }
  }

  /** Moving by m from cell lands inside the board on a cell holding 0. */
  predicate IsAllowed(s: State, info: GridInfo, p: Position, m: Move)
    requires Shaped(s, info)
  {
    var dir := CalculateMoveIndex(p, m);
    InBounds(dir, info) && s[dir.row][dir.col].value == 0
  }

  /** The moves of base, in base order, that IsAllowed keeps. */
  function AllowedMoves(s: State, info: GridInfo, base: seq<Move>, p: Position): seq<Move>
    requires Shaped(s, info)
    decreases |base|
  {
    if base == [] then []
    else
      var last := base[|base| - 1];
      AllowedMoves(s, info, base[..|base| - 1], p) + (if IsAllowed(s, info, p, last) then [last] else [])
  }

  /**
   * Splicing the move at index k out of the moves still to try and appending
   * it to the moves tried keeps the two together a permutation of initial.
   */
  lemma SpliceOneOut(moves: seq<Move>, k: int, tried: seq<Move>, initial: seq<Move>)
    requires 0 <= k < |moves| && multiset(moves) + multiset(tried) == multiset(initial)
    ensures moves[k] in initial
    ensures multiset(moves[..k] + moves[k + 1..]) + multiset(tried + [moves[k]]) == multiset(initial)
  {
    assert moves == moves[..k] + [moves[k]] + moves[k + 1..];
    assert moves[k] in multiset(moves);
    assert moves[k] in multiset(initial);
  }

  /** a keeps some of the elements of b, in b's order. */
  predicate IsSubsequence(a: seq<Move>, b: seq<Move>)
    decreases |b|
  {
    if a == [] then true
    else if b == [] then false
    else if a[|a| - 1] == b[|b| - 1] then IsSubsequence(a[..|a| - 1], b[..|b| - 1])
    else IsSubsequence(a, b[..|b| - 1])
  }

  /** The allowed moves are exactly the allowed members of base, kept in base order. */
  lemma {:induction false} AllowedMovesFilterBase(s: State, info: GridInfo, base: seq<Move>, p: Position)
    requires Shaped(s, info)
    ensures forall m :: m in AllowedMoves(s, info, base, p) <==> m in base && IsAllowed(s, info, p, m)
    ensures IsSubsequence(AllowedMoves(s, info, base, p), base)
    decreases |base|
  {
    if base != [] {
      var front, last := base[..|base| - 1], base[|base| - 1];
      AllowedMovesFilterBase(s, info, front, p);
      assert base == front + [last];
      if !IsAllowed(s, info, p, last) {
        SubsequenceOfPrefix(AllowedMoves(s, info, front, p), front, last);
        assert AllowedMoves(s, info, base, p) == AllowedMoves(s, info, front, p);
      } else {
        var r := AllowedMoves(s, info, front, p) + [last];
        assert r[..|r| - 1] == AllowedMoves(s, info, front, p);
      }
    }
  }

  /** The target of a king move that IsAllowed keeps is an empty in-board neighbour. */
  lemma AllowedTarget(s: State, info: GridInfo, p: Position, m: Move)
    requires Shaped(s, info) && IsKingOffset(m) && IsAllowed(s, info, p, m)
    ensures var q := CalculateMoveIndex(p, m);
            Within(s, q) && At(s, q).value == 0 && KingAdjacent(p, q)
  {
    MoveIndexIsAdjacent(p, m);
    ShapedWithin(s, info, CalculateMoveIndex(p, m));
  }

  /**
   * Writing value + 1 on the target of an allowed king move and extending
   * from there by sub extends the board from p by [p] + sub.
   */
  lemma AllowedStep(s0: State, s1: State, s2: State, info: GridInfo, p: Position, m: Move, sub: seq<Position>)
    requires Shaped(s0, info) && Within(s0, p) && At(s0, p).value >= 1
    requires IsKingOffset(m) && IsAllowed(s0, info, p, m)
    requires s1 == SetValue(s0, CalculateMoveIndex(p, m), At(s0, p).value + 1)
    requires Extended(s1, s2, sub, At(s1, CalculateMoveIndex(p, m)).value) && sub[0] == CalculateMoveIndex(p, m)
    ensures Extended(s0, s2, [p] + sub, At(s0, p).value)
  {
    var q := CalculateMoveIndex(p, m);
    AllowedTarget(s0, info, p, m);
    StepIsExtension(s0, s1, s2, p, q, sub, At(s0, p).value);
  }

  /** The target of an allowed king move is an empty in-board neighbour. */
  lemma AllowedMoveTarget(s: State, info: GridInfo, base: seq<Move>, p: Position, k: int)
    requires Shaped(s, info) && forall m :: m in base ==> IsKingOffset(m)
    requires 0 <= k < |AllowedMoves(s, info, base, p)|
    ensures var q := CalculateMoveIndex(p, AllowedMoves(s, info, base, p)[k]);
            Within(s, q) && At(s, q).value == 0 && KingAdjacent(p, q)
  {
    var m := AllowedMoves(s, info, base, p)[k];
    AllowedMovesFilterBase(s, info, base, p);
    assert m in AllowedMoves(s, info, base, p);
    AllowedTarget(s, info, p, m);
  }

  /** Appending to b keeps every subsequence of b. */
  lemma {:induction false} SubsequenceOfPrefix(a: seq<Move>, b: seq<Move>, x: Move)
    requires IsSubsequence(a, b)
    ensures IsSubsequence(a, b + [x])
    decreases |b|, 1
  {
    var bx := b + [x];
    assert bx[..|bx| - 1] == b;
    if a != [] && a[|a| - 1] == x {
      SubsequenceDropLast(a, b);
    }
  }

  /** Dropping the last element of a subsequence leaves a subsequence. */
  lemma {:induction false} SubsequenceDropLast(a: seq<Move>, b: seq<Move>)
    requires a != [] && IsSubsequence(a, b)
    ensures IsSubsequence(a[..|a| - 1], b)
    decreases |b|, 0
  {
    var a', b' := a[..|a| - 1], b[..|b| - 1];
    assert b == b' + [b[|b| - 1]];
    if a[|a| - 1] != b[|b| - 1] {
      SubsequenceDropLast(a, b');
    }
    SubsequenceOfPrefix(a', b', b[|b| - 1]);
  }

  /**
   * getAllowedMoves: one pass over the base moves, skipping those that leave
   * the board or land on a non-empty cell.
   */
  method GetAllowedMoves(s: State, info: GridInfo, base: seq<Move>, p: Position)
    returns (allowedMoves: seq<Move>)
    requires Shaped(s, info)
    ensures allowedMoves == AllowedMoves(s, info, base, p)
  {
    allowedMoves := [];
    for i := 0 to |base|
      invariant allowedMoves == AllowedMoves(s, info, base[..i], p)
    {
      assert base[..i + 1][..i] == base[..i];
      var move := base[i];
      var dir := CalculateMoveIndex(p, move);
      if dir.row < 0 || dir.row > info.rowIndexes || dir.col < 0 || dir.col > info.colIndexes {
        continue;
      }
      var cellMove := s[dir.row][dir.col];
      if cellMove.value != 0 {
        continue;
      }
      allowedMoves := allowedMoves + [move];
    }
    assert base[..|base|] == base;
  }

  // ---------------------------------------------------------------------------
  // Number of allowed moves on an empty board.

  /** How many of the rows (or columns) x - 1, x, x + 1 lie in [0, hi]. */
  function Span(x: int, hi: int): nat
  {
    (if x > 0 then 1 else 0) + 1 + (if x < hi then 1 else 0)
  }

  /**
   * On an empty board every in-bounds neighbour is allowed, so a cell has one
   * allowed move per in-bounds neighbour position.
   */
  lemma EmptyBoardMoveCount(s: State, info: GridInfo, p: Position)
    requires Shaped(s, info) && AllEmpty(s)
    requires 0 <= p.row <= info.rowIndexes && 0 <= p.col <= info.colIndexes
    ensures |AllowedMoves(s, info, KingMoves, p)| ==
            Span(p.row, info.rowIndexes) * Span(p.col, info.colIndexes) - 1
  {
    var up, down := p.row > 0, p.row < info.rowIndexes;
    var left, right := p.col > 0, p.col < info.colIndexes;
    EmptyBoardFirstHalf(s, info, p);
    EmptyBoardSecondHalf(s, info, p);
    assert KingMoves[..8] == KingMoves;
    SpanProduct(up, down, left, right);
    assert Span(p.row, info.rowIndexes) == B(up) + 1 + B(down);
    assert Span(p.col, info.colIndexes) == B(left) + 1 + B(right);
  }

  /** The moves of the row above and the left neighbour. */
  lemma EmptyBoardFirstHalf(s: State, info: GridInfo, p: Position)
    requires Shaped(s, info) && AllEmpty(s)
    requires 0 <= p.row <= info.rowIndexes && 0 <= p.col <= info.colIndexes
    ensures var up, left, right := p.row > 0, p.col > 0, p.col < info.colIndexes;
            |AllowedMoves(s, info, KingMoves[..4], p)| ==
            B(up && left) + B(up) + B(up && right) + B(left)
  {
    var up, down, left, right := p.row > 0, p.row < info.rowIndexes, p.col > 0, p.col < info.colIndexes;
    assert KingMoves[..0] == [];
    EmptyBoardStep(s, info, p, 1, up && left);
    EmptyBoardStep(s, info, p, 2, up);
    EmptyBoardStep(s, info, p, 3, up && right);
    EmptyBoardStep(s, info, p, 4, left);
  }

  /** The right neighbour and the moves of the row below. */
  lemma EmptyBoardSecondHalf(s: State, info: GridInfo, p: Position)
    requires Shaped(s, info) && AllEmpty(s)
    requires 0 <= p.row <= info.rowIndexes && 0 <= p.col <= info.colIndexes
    ensures var down, left, right := p.row < info.rowIndexes, p.col > 0, p.col < info.colIndexes;
            |AllowedMoves(s, info, KingMoves[..8], p)| ==
            |AllowedMoves(s, info, KingMoves[..4], p)| +
            B(right) + B(down && left) + B(down) + B(down && right)
  {
    var up, down, left, right := p.row > 0, p.row < info.rowIndexes, p.col > 0, p.col < info.colIndexes;
    EmptyBoardStep(s, info, p, 5, right);
    EmptyBoardStep(s, info, p, 6, down && left);
    EmptyBoardStep(s, info, p, 7, down);
    EmptyBoardStep(s, info, p, 8, down && right);
  }

  /** On an empty board the i-th king move counts exactly when its target is inside the board. */
  lemma EmptyBoardStep(s: State, info: GridInfo, p: Position, i: int, inside: bool)
    requires Shaped(s, info) && AllEmpty(s) && 0 < i <= |KingMoves|
    requires inside == InBounds(CalculateMoveIndex(p, KingMoves[i - 1]), info)
    ensures |AllowedMoves(s, info, KingMoves[..i], p)| == |AllowedMoves(s, info, KingMoves[..i - 1], p)| + B(inside)
  {
    OneMoreAllowed(s, info, KingMoves, p, i);
    EmptyAllowedIsInBounds(s, info, p, KingMoves[i - 1]);
  }

  /** On an empty board a move is allowed exactly when it lands inside the board. */
  lemma EmptyAllowedIsInBounds(s: State, info: GridInfo, p: Position, m: Move)
    requires Shaped(s, info) && AllEmpty(s)
    ensures IsAllowed(s, info, p, m) == InBounds(CalculateMoveIndex(p, m), info)
  {
    var d := CalculateMoveIndex(p, m);
    ShapedWithin(s, info, d);
  }

  function B(b: bool): nat { if b then 1 else 0 }

  lemma SpanProduct(up: bool, down: bool, left: bool, right: bool)
    ensures (B(up) + 1 + B(down)) * (B(left) + 1 + B(right)) - 1 ==
            B(up && left) + B(up) + B(up && right) + B(left) + B(right) +
            B(down && left) + B(down) + B(down && right)
  {
  }

  /** The allowed moves of the first i base moves, one base move at a time. */
  lemma OneMoreAllowed(s: State, info: GridInfo, base: seq<Move>, p: Position, i: nat)
    requires Shaped(s, info) && 0 < i <= |base|
    ensures |AllowedMoves(s, info, base[..i], p)| ==
            |AllowedMoves(s, info, base[..i - 1], p)| + (if IsAllowed(s, info, p, base[i - 1]) then 1 else 0)
  {
    assert base[..i][..i - 1] == base[..i - 1];
  }

  /** An interior cell of an empty board has all 8 king moves. */
  lemma EmptyBoardInteriorHasEight(s: State, info: GridInfo, p: Position)
    requires Shaped(s, info) && AllEmpty(s)
    requires 0 < p.row < info.rowIndexes && 0 < p.col < info.colIndexes
    ensures |AllowedMoves(s, info, KingMoves, p)| == 8
  {
    assert Span(p.row, info.rowIndexes) == 3 && Span(p.col, info.colIndexes) == 3;
    EmptyBoardMoveCount(s, info, p);
  }

  /** A border cell that is not a corner of an empty board (at least 2 x 2) has 5 moves. */
  lemma EmptyBoardBorderHasFive(s: State, info: GridInfo, p: Position)
    requires Shaped(s, info) && AllEmpty(s)
    requires info.rowIndexes >= 1 && info.colIndexes >= 1
    requires 0 <= p.row <= info.rowIndexes && 0 <= p.col <= info.colIndexes
    requires (p.row == 0 || p.row == info.rowIndexes) != (p.col == 0 || p.col == info.colIndexes)
    ensures |AllowedMoves(s, info, KingMoves, p)| == 5
  {
    assert Span(p.row, info.rowIndexes) * Span(p.col, info.colIndexes) == 6;
    EmptyBoardMoveCount(s, info, p);
  }

  /** A corner of an empty board (at least 2 x 2) has 3 moves. */
  lemma EmptyBoardCornerHasThree(s: State, info: GridInfo, p: Position)
    requires Shaped(s, info) && AllEmpty(s)
    requires info.rowIndexes >= 1 && info.colIndexes >= 1
    requires p.row == 0 || p.row == info.rowIndexes
    requires p.col == 0 || p.col == info.colIndexes
    ensures |AllowedMoves(s, info, KingMoves, p)| == 3
  {
    assert Span(p.row, info.rowIndexes) == 2 && Span(p.col, info.colIndexes) == 2;
    EmptyBoardMoveCount(s, info, p);
  }
}

# Hidoku path generation, modelled in Dafny

A Hidoku is a rectangular board of `filas x columnas` cells. It is solved when
the numbers 1 .. `filas * columnas` lie one per cell and each number `k` is
king-adjacent to `k + 1`. The page's engine (`src/app/core/algorithms.ts`)
creates such a numbering by walking a chain of king moves across the board.
It has two strategies:

- **BackTracking** puts 1 on a random cell. It then writes `value + 1` into a
  randomly chosen empty neighbour and recurses from there. When the recursion
  fails, it writes 0 back and tries another neighbour.
- **GreedyMatrix** puts 1 on a random start cell and `quantity` on a random
  final cell. It then keeps writing `value + 1` into the allowed neighbour that
  is farthest from the final cell. It never undoes a write, and it stops when
  `quantity - 1` has been placed.

The project models these pieces:

- the move model both strategies share (`MoveModel`);
- both strategies as classes whose methods change the board (`BackTrackingSearch`, `GreedySearch`);
- the `Cell` and `GridInfo` classes of `src/app/core/models.ts` (`Models`);
- the page's board allocation `generateGrid` (`App`).

The board is modelled by value. Each strategy keeps a field `processGrid: State`.
A `State` is a `seq<seq<CellState>>` indexed `[row][col]`, and every write of
the search replaces the field with the updated state. A cell of the engine is
named by its `Position`, which plays the part of the `row`/`col` pair the
engine reads from a `Cell`.

The states are related by a few definitions in `BoardState`:

- `Extended(s0, s1, path, v)` states that a search step extends `s0` into `s1`
  by a chain `path`:
  - `path` starts on a cell that already held `v`;
  - every later cell of `path` was empty and now holds the next value;
  - consecutive cells of `path` are king-adjacent;
  - every cell off the path keeps its value;
  - only the last cell of the path may change its label or edge mark.
- `IsChain(s, path, v)` states that `path` is such a chain in `s`.
- `Solved(s, quantity)` is the finished Hidoku.

What the source leaves implicit, the model states as assumptions:

- **The `Cell` interface.** The engine reads and writes `cell.row`,
  `cell.col` and `cell.isEdge`, and `src/app/core/models.ts` declares none of
  them. `Cell` is given an `isEdge` field, which the constructor sets to false.
- **The `GridInfo` interface.** The engine reads `gridInfo.rowIndexes`,
  `gridInfo.colIndexes` and `gridInfo.quantity`, and the `GridInfo` of
  `src/app/core/models.ts` declares none of them either. The constructor
  produces them as `filas - 1`, `columnas - 1` and `filas * columnas`.
- **The `Move` type.** `Move` is imported by the engine, but
  `src/app/core/models.ts` does not define it. It is modelled as a
  `(row, col)` pair.
- **The board shape.** Both searches require the board to have
  `rowIndexes + 1` rows of `colIndexes + 1` cells, with at least one cell.
  `Valid()` states this shape.

The code and its own comments disagree in one place, and the code is
followed. In `generateHidoku`, the call to `generateSolution` carries the
comment `// Generates a valid solution` (`src/app/app.component.ts:48-49`),
and the call to `setDifficulty` carries `// Hides cells based on dificulty`
(`src/app/app.component.ts:51-52`). Both called methods are empty
(`src/app/app.component.ts:64-70`), so the page neither runs a strategy nor
hides a cell. The engine is modelled on its own.

## Model

| member | source | states |
|---|---|---|
| Models.Cell.constructor | src/app/core/models.ts:2-5 | a new cell holds value 0 by default (or the given value), no label by default (or the given one), and is not an edge |
| Models.Cell.ShowValue | src/app/core/models.ts:7-9 | the label becomes the current value; the value and the edge mark are unchanged |
| Models.Cell.HideValue | src/app/core/models.ts:11-13 | the label is cleared; the value and the edge mark are unchanged |
| Models.Shown | src/app/core/models.ts:7-9 | the label of the shown cell is its value, and nothing else changes |
| Models.Hidden | src/app/core/models.ts:11-13 | the hidden cell has no label, and nothing else changes |
| Models.ShowHideLaws | src/app/core/models.ts:7-13 | showing and hiding are each idempotent, and each cancels the other's effect on the label |
| Models.GridInfo.constructor | src/app/core/models.ts:21-27 | filas, columnas and dificultad are copied from the form; the derived rowIndexes, colIndexes and quantity are filas - 1, columnas - 1 and filas * columnas |
| Randomness.Random | src/app/core/algorithms.ts:60 | a draw of Math.random is a real in [0, 1) |
| Randomness.Round | src/app/core/algorithms.ts:60 | Math.round gives the integer nearest to x, with halves rounding up |
| Randomness.RandomIndex | src/app/core/algorithms.ts:34-35 | Math.round(Math.random() * n) always lies in [0, n], so every random row, column or move index is in range |
| Board.StateOf | src/app/core/algorithms.ts:21 | the snapshot the engine starts from has the grid's shape and holds, at every position, what that cell holds |
| BoardState.ShapedWithin | src/app/core/algorithms.ts:88-93 | on a board of the configured size, the bounds test of getAllowedMoves admits exactly the positions of cells |
| BoardState.SetValueEffect | src/app/core/algorithms.ts:64 | writing a value into a cell (`cellMove.value = cell.value + 1`, also at lines 69 and 170) changes that cell's value only: its label and edge mark, the board's shape and every other cell stay as they were |
| BoardState.SetValueUndone | src/app/core/algorithms.ts:64-69 | writing a value and then writing back the cell's old value restores the whole board |
| BoardState.FillShrinksEmpty | src/app/core/algorithms.ts:64 | filling an empty cell removes exactly that cell from the set of empty cells, so the set strictly shrinks |
| BoardState.MarkEdge | src/app/core/algorithms.ts:52-53 | the marked cell keeps its value, is shown, and is an edge |
| BoardState.MarkIsExtension | src/app/core/algorithms.ts:51-54 | marking the cell that holds quantity extends the board by the one-cell chain of that cell |
| BoardState.SetAndMark | src/app/core/algorithms.ts:148-154 | writing a value, marking the cell as an edge and showing it puts a shown edge cell with that value there, and changes nothing else |
| BoardState.StepIsExtension | src/app/core/algorithms.ts:62-67 | writing v + 1 on an empty neighbour of a cell holding v, followed by an extension from that neighbour, extends the board from the cell by one more step |
| BoardState.AppendIsExtension | src/app/core/algorithms.ts:169-172 | one greedy write of the next value on an empty neighbour of the chain's end extends the chain by that cell, and no mark changes |
| BoardState.NothingWrittenIsExtension | src/app/core/algorithms.ts:163-165 | a step that writes nothing extends the board by the one-cell chain of its start |
| BoardState.ExtendedKeepsNonZero | src/app/core/algorithms.ts:57-64 | an extension never overwrites a cell that held a non-zero value |
| BoardState.FullChainSolves | src/app/core/algorithms.ts:45-47 | a chain 1, 2, ..., rows * cols over a rows x cols board is a solved Hidoku: every value in 1..quantity sits on exactly one cell, and k is king-adjacent to k + 1 |
| BoardState.BoxSetSize | src/app/core/algorithms.ts:51 | a rows x cols board has rows * cols positions, which is the count quantity stands for |
| MoveModel.BuildBaseMoves | src/app/core/algorithms.ts:25-30 | the nested loops followed by splice(4, 1) build exactly the eight king moves in row-major order, with (0, 0) the entry removed |
| MoveModel.KingMovesAreTheKingOffsets | src/app/core/algorithms.ts:25-30 | the base list has 8 entries, its members are exactly the (dr, dc) in {-1, 0, 1}^2 other than (0, 0), and they are in strict row-major order |
| MoveModel.MoveIndexInverse | src/app/core/algorithms.ts:105-110 | calculateMoveIndex (also at lines 221-226) offsets the cell by the move: the move is recovered from the cell and the position reached, so different moves from one cell reach different positions |
| MoveModel.MoveIndexIsAdjacent | src/app/core/algorithms.ts:105-110 | the target of a move is king-adjacent to the cell exactly when the move is a king offset |
| MoveModel.KingMovesReachNeighbours | src/app/core/algorithms.ts:105-110 | the king moves reach every king-adjacent position and nothing else, and no two of them reach the same one |
| MoveModel.GetAllowedMoves | src/app/core/algorithms.ts:81-103 | the loop returns exactly AllowedMoves, the base moves whose target is in bounds and empty, in base order |
| MoveModel.AllowedMovesFilterBase | src/app/core/algorithms.ts:81-103 | a move is allowed exactly when it is a base move with an in-bounds, empty target, and the allowed moves keep base order |
| MoveModel.AllowedTarget | src/app/core/algorithms.ts:62-64 | a king move that getAllowedMoves keeps leads to an empty cell of the board that is king-adjacent to the cell |
| MoveModel.AllowedMoveTarget | src/app/core/algorithms.ts:167-170 | the target of any allowed move from a cell is an empty cell of the board that is king-adjacent to that cell |
| MoveModel.AllowedStep | src/app/core/algorithms.ts:62-67 | writing value + 1 through an allowed move, followed by a successful extension from there, extends the board from the cell |
| MoveModel.SpliceOneOut | src/app/core/algorithms.ts:60-61 | splicing the chosen move out of the remaining moves keeps the remaining and the tried moves together a permutation of the initial candidates |
| MoveModel.EmptyBoardMoveCount | src/app/core/algorithms.ts:81-103 | on an empty board a cell has one allowed move per in-bounds neighbour: (rows spanned) * (columns spanned) - 1 |
| MoveModel.EmptyAllowedIsInBounds | src/app/core/algorithms.ts:88-97 | on an empty board a move is allowed exactly when its target is in bounds |
| MoveModel.EmptyBoardInteriorHasEight | src/app/core/algorithms.ts:81-103 | an interior cell of an empty board has 8 allowed moves |
| MoveModel.EmptyBoardBorderHasFive | src/app/core/algorithms.ts:81-103 | a border cell that is not a corner of an empty board of at least 2 x 2 has 5 allowed moves |
| MoveModel.EmptyBoardCornerHasThree | src/app/core/algorithms.ts:81-103 | a corner of an empty board of at least 2 x 2 has 3 allowed moves |
| BackTrackingSearch.BackTracking.constructor | src/app/core/algorithms.ts:21-31 | the search keeps gridInfo and the board's contents, and its base moves are the eight king moves |
| BackTrackingSearch.BackTracking.RecursiveMove | src/app/core/algorithms.ts:50-72 | on failure the board is exactly as on entry and the moves tried are a permutation of the allowed moves, so each was tried exactly once; on success the board is extended from the cell by a king-adjacent chain cell.value, ..., quantity that writes only empty cells, and its last cell is a shown edge |
| BackTrackingSearch.BackTracking.TryMove | src/app/core/algorithms.ts:62-69 | one loop iteration: on failure the tentative write is undone and the board is as before; on success the board is extended from the cell through the chosen neighbour, ending on a shown edge cell holding quantity |
| BackTrackingSearch.BackTracking.GenerateSolution | src/app/core/algorithms.ts:32-48 | the random start cell is in bounds and becomes a shown edge holding 1; on success the board with the start so set is extended along a path from the start holding 1, 2, ..., every other cell keeps its value, label and edge mark, the board is a solved Hidoku, and its cell holding quantity is a shown edge; on failure only the start cell differs from the board before the call |
| GreedySearch.SquaredDistance | src/app/core/algorithms.ts:189-191 | the squared distance is 0 exactly for the same position and is 1 or 2 between king neighbours |
| GreedySearch.GetCellAtMove | src/app/core/algorithms.ts:193-195 | the cell reached lies the move's offsets away from the cell |
| GreedySearch.GreaterDistance | src/app/core/algorithms.ts:175-187 | the result is absent exactly when every candidate leads onto the final cell (in particular when there are none); otherwise it is the target of the first candidate of maximal distance, that distance is positive, and ties go to the lowest index |
| GreedySearch.NoMoveLeavesFinal | src/app/core/algorithms.ts:175-187 | when no candidate has a positive distance, every candidate leads onto the final cell |
| GreedySearch.StuckHasNoMove | src/app/core/algorithms.ts:167-170 | since the final cell is never empty, a walk that greaterDistance cannot continue has no allowed move at all |
| GreedySearch.StuckTargetsFinal | src/app/core/algorithms.ts:167-170 | when every allowed move leads onto the final cell, any allowed move would find the final cell empty |
| GreedySearch.WalkExtend | src/app/core/algorithms.ts:162-173 | a greedy step from the end of a greedy walk gives a greedy walk one step longer, with the earlier steps unchanged |
| GreedySearch.Seeded | src/app/core/algorithms.ts:146-153 | the seeded board has the shape of the board; final holds quantity, labelled and marked; a distinct start holds 1, labelled and marked; every other cell is unchanged |
| GreedySearch.ReachedNextToFinalSolves | src/app/core/algorithms.ts:162-165 | a chain 1, ..., quantity - 1 whose end is king-adjacent to the cell holding quantity makes the board a solved Hidoku |
| GreedySearch.ReachedNeedNotSolve | src/app/core/algorithms.ts:162-170 | on an empty 1 x 3 board with start (0, 1) and final (0, 0) the greedy walk writes 2 into (0, 2) and succeeds, yet the board is not a solved Hidoku |
| GreedySearch.GreedyMatrix.constructor | src/app/core/algorithms.ts:125-135 | the search keeps gridInfo and the board's contents, and its base moves are the eight king moves |
| GreedySearch.GreedyMatrix.Seed | src/app/core/algorithms.ts:146-153 | the board becomes the seeded board: start a shown edge holding 1, then final a shown edge holding quantity |
| GreedySearch.GreedyMatrix.Step | src/app/core/algorithms.ts:167-170 | one step from a cell: either greaterDistance keeps no move, nothing is written and every allowed move leads onto the final cell, or the board goes from the old one by one greedy step to an empty king-adjacent neighbour, and the number of empty cells drops |
| GreedySearch.GreedyMatrix.RecursiveMove | src/app/core/algorithms.ts:162-173 | the boards before and after each step form a greedy walk along the path written: step i moves from path[i] to the target of the allowed move that greaterDistance keeps on the board of that moment (farthest from the final cell, first in base order on ties) and writes path[i]'s value + 1 there; nothing is undone, so the board is extended from the cell by that path and no label or edge mark changes; the walk stops at the first cell holding quantity - 1 (no earlier cell of the path holds it) and succeeds exactly when its end holds quantity - 1; otherwise every allowed move from the end leads onto the final cell |
| GreedySearch.GreedyMatrix.GenerateSolution | src/app/core/algorithms.ts:136-160 | both random cells are in bounds; from the board with start set to a shown edge holding 1 and then final to a shown edge holding quantity, the chain is a greedy walk from the start (as for recursiveMove) that writes only empty cells, keeps every other value and changes no label or edge mark, in both outcomes; the final cell ends holding quantity and a distinct start cell holding 1; on success the start begins a king-adjacent chain 1, ..., quantity - 1, and with start and final distinct it succeeds exactly when the path has quantity - 1 cells; on failure the chain's end has no allowed move |
| App.AppComponent.constructor | src/app/app.component.ts:13 | the page starts with no board |
| App.AppComponent.GenerateGrid | src/app/app.component.ts:55-62 | rows 0..filas-1 become new rows of columnas fresh, distinct empty cells (value 0, hidden, not an edge); rows at or beyond filas that an earlier, larger board left behind are kept; the grid is never shortened |

## Left out

- Aliasing of `Cell` objects: the engine writes `value`, `isEdge` and `label` into the shared `Cell` objects of `processGrid`, while the model writes a value snapshot taken by the constructors (`Board.StateOf`). The page's `hidokuGrid` cells are therefore not updated by the model's searches, and the engine's `return this.processGrid` is modelled as returning the final snapshot.
- `Cell.row` / `Cell.col`: positions are carried as `Position` values rather than as fields of the cell.
- `async` / `await` in `BackTracking` (src/app/core/algorithms.ts:32,45,50,65): scheduling only; the recursion is ordinary recursion.
- The `setTimeout` continuation of `GreedyMatrix.recursiveMove` (src/app/core/algorithms.ts:172): the page returns from `generateSolution` after the first step and the chain runs later; the model runs the chain to its end as a loop before returning.
- The `TypeError` the page raises when `greaterDistance` returns `undefined` (src/app/core/algorithms.ts:170): the model ends the walk there with `reached = false`.
- GreedySearch.GreedyMatrix.GenerateSolution: promises a chain up to quantity - 1, not a solved board, because the page does not check that the walk ends next to the final cell; `GreedySearch.ReachedNeedNotSolve` gives a board where it does not, and `GreedySearch.ReachedNextToFinalSolves` shows that the board is solved when it does. When start and final coincide, the walk may even write values above quantity.
- `Math.random` is a nondeterministic choice of a real in [0, 1) (`Randomness.Random`); floating-point effects of `Math.random() * n` are not modelled.
- `Math.sqrt` / `Math.pow` in `distance` (src/app/core/algorithms.ts:190): floating point; the model compares squared integer distances, which order the candidates the same way.
- BackTrackingSearch.BackTracking.RecursiveMove: on success it does not state that the moves tried so far are a sub-multiset of the allowed moves (on failure it states the full permutation), because carrying that multiset bound through the success path makes the proof of `TryMove` several times more expensive.
- BackTrackingSearch.BackTracking.TryMove is a helper that holds one iteration of `recursiveMove`'s loop body, so that the loop and the write, recurse and undo step are proved apart; it adds no behaviour.
- `RecursiveAlgorightm` and `SpiralMatrix` (src/app/core/algorithms.ts:8-16,113-120): stubs that only throw "not implemented".
- The form, its validators and `formErrors` (src/app/app.component.ts:17-36, src/app/core/models.ts:30-51), `generateHidoku`'s `form.invalid` guard, and the empty `generateSolution` / `setDifficulty` of the page (src/app/app.component.ts:64-70): UI and library behaviour, or nothing to model.
- `src/app/app.module.ts`, `src/main.ts` and `app.rb`: module wiring, bootstrap and a GUI layout, with no engine logic.

# Minesweeper engine in Dafny

A model of the game engine of an iOS Minesweeper app, together with proofs about it. The engine has four parts:

- **`Board`** (module `Boards`, `board.dfy`). Rows, columns and a bomb count. Index and coordinate arithmetic. The adjacency list of a cell. The three preset boards. Equality. The dictionary round trip used to persist a board.
- **`BoardCell`** (module `BoardCells`, `board_cell.dfy`). The engine's cell value: a state (covered, revealed or bomb), the number of adjacent bombs, and a mark flag that is independent of the state.
- **`GameCell`** (module `GameCells`, `game_cell.dfy`). An older four-state cell value (covered, revealed, bomb, marked) that nothing in the app uses: the controller and the collection view's data source both work on `BoardCell`, the latter through the `CellProvider` protocol (Minesweeper/GameCollectionViewDataSource.swift:11-13).
- **`GameController`** (module `Games`, `game_controller.dfy`). A class holding the cells, the board and the Won/Lost/Playing state. Its operations are `reset(board:)` with random bomb placement, `reveal(at:)` with its recursive flood fill, `mark(at:)`, and the two counters `remainingCoveredCells` and `remainingMarkers`.

`wrappers.dfy` holds the `Option` type that the failable initialiser returns.

## Behaviour as the code has it

The model follows the Swift code. In these places the code behaves in ways its names and comments do not suggest:

- **Coordinates.** `coordinate(for:)` computes the row as `index / rows` and the column as `index % columns`. On a square board this inverts `index(for:)` (`CoordinateOfIndex`, `IndexOfCoordinate`). On any other board it does not:
  - On a 2 x 3 board the last index gets row 2 (`CoordinateOfIndexNonSquare`), and its adjacency list contains 7 and 8 (`NeighboursNonSquare`).
  - On a 1 x 3 board the middle cell's adjacency list runs from -3 to 5 (`NeighboursOneRow`), so a one-row board cannot be played with this code.

  The controller is therefore modelled on square boards only (`Playable`).
- **No terminal-phase guard.** `reveal(at:)` and `mark(at:)` do not check the game state. After a win or a loss they still change cells. Revealing any bomb, even a marked one, sets the state to Lost again.
- **What counts as covered.** Bombs are a cell state of their own, so they are never "covered". Marked covered cells are covered. The game is won once no covered cell remains, that is, once every non-bomb cell is revealed, marked ones included.
- **Bomb draws.** Bomb positions are drawn with `arc4random_uniform(squares - 1)`, so on a board of at least two squares:
  - the last index is never a bomb (`NewGameLastIndexFree`);
  - at most `squares - 1` bombs can be placed;
  - a board with more bombs than that never finishes dealing, and `Playable` excludes it.

  On a 1 x 1 board the draw `arc4random_uniform(0)` yields 0, so one bomb can be placed, and it lands on the last (and only) index (`DrawRange`).
- **Marked cells.** A flag blocks reveal only partly. A marked covered cell is not turned over, but the code still floods its neighbours when it has no adjacent bombs. This can recurse forever (see Findings). `GameController.Reveal` returns at once on a marked covered cell. `RevealFrame` models the code as written.

## Model

| member | source | states |
|---|---|---|
| Boards.Neighbours | Minesweeper/Board.swift:25-54 | the adjacency list has at most eight entries |
| Boards.AdjacentIndices | Minesweeper/Board.swift:25-54 | the edge flags and the eight conditional appends build exactly the list `Neighbours` describes |
| Boards.QuotRemNatural | Minesweeper/Board.swift:21-23 | for a non-negative index and a positive divisor, Swift's truncating `/` and `%` agree with Euclidean division |
| Boards.DivUnique | Minesweeper/Board.swift:21-23 | the quotient and remainder of `q * n + m` with `0 <= m < n` are `q` and `m` |
| Boards.CellAt | Minesweeper/Board.swift:17-23 | on an n x n grid, `r * n + c` lies in range and divides back into `r` and `c` |
| Boards.IndexInRange | Minesweeper/Board.swift:13-19 | every in-range row and column has an index in `[0, squares)` |
| Boards.CoordinateOfIndex | Minesweeper/Board.swift:17-23 | on a square board `coordinate(for: index(for: row, column))` gives back the row and column |
| Boards.IndexOfCoordinate | Minesweeper/Board.swift:17-23 | on a square board every index in range has an in-range coordinate whose index is the same index |
| Boards.CoordinateOfIndexNonSquare | Minesweeper/Board.swift:17-23 | on a 2 x 3 board row 1, column 2 has index 5, whose coordinate is row 2: the round trip fails off the square |
| Boards.NeighboursAscending | Minesweeper/Board.swift:25-54 | the adjacency list is strictly ascending, so it has no repeats |
| Boards.NeighboursExcludeSelf | Minesweeper/Board.swift:25-54 | a cell is never its own neighbour |
| Boards.MoveIsAdjacent | Minesweeper/Board.swift:21-23 | a step of at most one row and one column that stays on a square grid lands on an in-range index at distance 1 |
| Boards.NeighbourCases | Minesweeper/Board.swift:39-51 | on a square board, an index is in the list exactly when it is one of the eight moves the edge flags allow |
| Boards.StepIsAdjacent | Minesweeper/Board.swift:25-54 | every allowed move lands in range at row/column distance 1 |
| Boards.AdjacentIsStep | Minesweeper/Board.swift:25-54 | every in-range index at distance 1 is an allowed move |
| Boards.NeighboursAreMoore | Minesweeper/Board.swift:25-54 | on a square board, j is adjacent to i if and only if j is in range at row/column distance exactly 1 |
| Boards.NeighboursSymmetric | Minesweeper/Board.swift:25-54 | adjacency is symmetric on a square board |
| Boards.NeighboursInRange | Minesweeper/Board.swift:25-54 | on a square board every adjacent index is a valid index |
| Boards.NeighbourCount | Minesweeper/Board.swift:25-54 | a corner has 3 neighbours, another edge cell 5, an inner cell 8 |
| Boards.NeighboursNonSquare | Minesweeper/Board.swift:21-54 | on a 2 x 3 board the last cell's list holds 7 and 8, which are off the board |
| Boards.NeighboursOneRow | Minesweeper/Board.swift:21-54 | on a 1 x 3 board the middle cell's list is -3, -2, -1, 0, 2, 3, 4, 5 |
| Boards.PresetsAreSquare | Minesweeper/Board.swift:58-60 | the easy (8 x 8, 5 bombs), medium (8 x 8, 10 bombs) and hard (12 x 12, 40 bombs) boards, the constants `Easy`, `Medium` and `Hard`, are square and have fewer bombs than squares |
| Boards.Squares | Minesweeper/Board.swift:13 | definition: rows times columns; properties in `IndexInRange` and `CellAt` |
| Boards.Index | Minesweeper/Board.swift:17-19 | definition: the row-major index; properties in `IndexInRange`, `CoordinateOfIndex` and `IndexOfCoordinate` |
| Boards.Coordinate | Minesweeper/Board.swift:21-23 | definition: row by `rows`, column by `columns`; properties in `CoordinateOfIndex`, `IndexOfCoordinate` and `CoordinateOfIndexNonSquare` |
| Boards.Quot | Minesweeper/Board.swift:21-23 | definition: Swift's `/`, truncating toward zero; properties in `QuotRemNatural` |
| Boards.Rem | Minesweeper/Board.swift:21-23 | definition: Swift's `%`, with the sign of the dividend; properties in `QuotRemNatural` and `ModNatBound` |
| Boards.ModNatBound | Minesweeper/Board.swift:21-23 | the remainder of a natural by a positive divisor is below the divisor |
| Boards.StepArithmetic | Minesweeper/Board.swift:17-23 | on an n x n grid a move of `dr` rows and `dc` columns that stays on the grid adds `dr * n + dc` to the index and moves row and column by exactly `dr` and `dc` |
| Boards.Equal | Minesweeper/Board.swift:86-90 | definition: the three fields pairwise; properties in `EqualIsIdentity` |
| Boards.FromDictionary | Minesweeper/Board.swift:68-75 | definition: `None` unless all three keys hold integers; properties in `FromDictionaryFails` and `SerializedRoundTrip` |
| Boards.Serialized | Minesweeper/Board.swift:77-79 | definition: the three fields under their keys; properties in `SerializedRoundTrip` |
| Boards.EqualIsIdentity | Minesweeper/Board.swift:86-90 | `==` holds exactly when rows, columns and bombs all agree |
| Boards.SerializedRoundTrip | Minesweeper/Board.swift:68-79 | reading back `serialized` gives the same board |
| Boards.FromDictionaryFails | Minesweeper/Board.swift:68-75 | the initialiser fails exactly when one of the three keys is missing or is not an integer, and otherwise takes the three values |
| BoardCells.DefaultCellIsBlank | Minesweeper/BoardCell.swift:19-30 | a new cell is covered, unmarked and has no adjacent bombs |
| BoardCells.ExactlyOneState | Minesweeper/BoardCell.swift:13-29 | a cell is exactly one of covered, bomb and revealed |
| BoardCells.CanRevealIffNotRevealed | Minesweeper/BoardCell.swift:23-29 | `canReveal` holds exactly for covered cells and bombs |
| BoardCells.MarkIsIndependent | Minesweeper/BoardCell.swift:19-30 | setting the mark changes neither the state nor the count, and a bomb or covered cell stays one when marked |
| GameCells.DefaultGameCellIsBlank | Minesweeper/GameCell.swift:20-26 | a new game cell is covered, has no adjacent bombs and can be revealed |
| GameCells.ExactlyOneGameState | Minesweeper/GameCell.swift:13-31 | a game cell is exactly one of covered, bomb, revealed and marked |
| GameCells.GameCellCanRevealIff | Minesweeper/GameCell.swift:24-31 | a game cell can be revealed exactly when it is neither revealed nor marked |
| GameCells.MarkedIsNotBomb | Minesweeper/GameCell.swift:13-31 | a marked game cell is not a bomb, and marking one makes it unrevealable |
| Games.Count | Minesweeper/GameController.swift:30-36 | definition: the left fold behind both counters; properties in `CountIsCardinality`, `CountIsZero`, `CountUpdate`, `CountMonotone`, `CountAtLeast` and `CountComplement` |
| Games.BombsAmong | Minesweeper/GameController.swift:120-127 | the number of bombs among the listed indices is at most the list's length; further properties in `BombsAmongPlace`, `BombsAmongZero` and `PlacingKeepsConsistent` |
| Games.DrawRange | Minesweeper/GameController.swift:117 | definition: how many values `arc4random_uniform(squares - 1)` can return; properties in `FreeIndexExists`, `NewGameLastIndexFree` and `NextFreeIndex` |
| Games.CountIsCardinality | Minesweeper/GameController.swift:30-36 | the left fold counts exactly the set of indices whose cell has the property |
| Games.CountIsZero | Minesweeper/GameController.swift:30-32 | the fold is zero exactly when no cell has the property |
| Games.CountUpdate | Minesweeper/GameController.swift:30-32 | replacing one cell changes the count by what that cell contributed before and after |
| Games.CountMonotone | Minesweeper/GameController.swift:30-32 | a change that never gives a cell the property does not raise the count |
| Games.CountAtLeast | Minesweeper/GameController.swift:30-32 | if the first k cells have the property, the count is at least k |
| Games.CountComplement | Minesweeper/GameController.swift:30-36 | two properties that split every cell have counts summing to the number of cells |
| Games.BombsAmongPlace | Minesweeper/GameController.swift:120-127 | placing a bomb adds one bomb to every duplicate-free neighbour list that names it |
| Games.BombsAmongZero | Minesweeper/GameController.swift:97-100 | when no listed index is counted as a bomb, no listed in-range index is a bomb cell |
| Games.ConsistentSameBombs | Minesweeper/GameController.swift:83-87 | changing cells without moving bombs or counts keeps every count accurate |
| Games.PlacingKeepsConsistent | Minesweeper/GameController.swift:120-127 | placing a bomb and adding one to each neighbour's count keeps every count equal to its bomb neighbours |
| Games.BlankIsDealt | Minesweeper/GameController.swift:53-58 | fresh blank cells are a deal of zero bombs with accurate counts |
| Games.PlaceBomb | Minesweeper/GameController.swift:120-127 | one round of placement turns a deal of k bombs into a deal of k + 1 |
| Games.NewGameLastIndexFree | Minesweeper/GameController.swift:116-119 | on a board of at least two squares the last index is never a bomb |
| Games.NewGameCounts | Minesweeper/GameController.swift:53-60 | a new game has squares minus bombs covered cells, no marks, and counts between 0 and 8 |
| Games.FreeIndexExists | Minesweeper/GameController.swift:116-119 | while fewer bombs than the draw range are placed, a free index exists, so the rejection loop can succeed |
| Games.RevealFrame | Minesweeper/GameController.swift:71-103 | one activation of `reveal(at:)` as written changes no cell but the target |
| Games.RevealFrameGuard | Minesweeper/GameController.swift:72-81 | revealing a bomb, marked or not, loses and changes no cell; revealing a revealed cell changes nothing |
| Games.RevealFrameCovered | Minesweeper/GameController.swift:83-100 | a covered cell is revealed unless marked; the game is won exactly when no covered cell remains; otherwise it floods exactly when it has no adjacent bombs |
| Games.RevealFrameFloods | Minesweeper/GameController.swift:83-100 | an activation that floods was on a covered cell with no adjacent bombs, and revealed it unless it was marked |
| Games.RevealFrameProgress | Minesweeper/GameController.swift:83-100 | when no marked cell has zero adjacent bombs, every flooding activation lowers the number of covered unmarked cells by one |
| Games.GuardedRevealFrame | Minesweeper/GameController.swift:71-103 | the corrected activation also changes no cell but the target |
| Games.GuardedRevealFrameAgrees | Minesweeper/GameController.swift:83-100 | the corrected activation equals the written one except on a marked covered cell with no adjacent bombs, and never floods from a marked cell |
| Games.GuardedRevealFrameProgress | Minesweeper/GameController.swift:83-100 | every flooding corrected activation lowers the number of covered unmarked cells by one, whatever is marked |
| Games.MarkedZeroCellsReachable | Minesweeper/GameController.swift:108-111 | a new 2 x 2 game without bombs, after marking cells 0 and 1, has two marked cells with no adjacent bombs |
| Games.TwoByTwoNeighbours | Minesweeper/Board.swift:25-54 | on a 2 x 2 board cells 0 and 1 each have the other three as neighbours |
| Games.MarkedZeroCellsCycle | Minesweeper/GameController.swift:83-100 | in that game, revealing 0 floods to 1 without change and revealing 1 floods to 0 without change |
| Games.MarkedZeroCellFloods | Minesweeper/GameController.swift:83-100 | as written, a marked zero cell, while a covered cell remains, changes nothing and floods every neighbour |
| Games.AdvancedKeeps | Minesweeper/GameController.swift:83-87 | revealing cells keeps bombs, marks and counts, and so keeps the counts accurate; the covered and pending counts never grow |
| Games.Insert | Minesweeper/GameController.swift:101-102 | inserting into an ascending list gives an ascending list holding exactly the old elements and the new one |
| Games.SortedUnique | Minesweeper/GameController.swift:101-102 | `Set(...).sort()` is strictly ascending and has exactly the elements of its input |
| Games.SortedUniqueSingleton | Minesweeper/GameController.swift:101-102 | deduplicating and sorting a single index gives that index |
| Games.MarkToggled | Minesweeper/GameController.swift:108-111 | the cells after `mark(at:)` have the old length; properties in `MarkTogglesOnlyTheMark` and `MarkersAfterMark` |
| Games.MarkTogglesOnlyTheMark | Minesweeper/GameController.swift:108-111 | marking flips the mark of one unrevealed cell and nothing else, and marking twice restores the cells |
| Games.MarkersAfterMark | Minesweeper/GameController.swift:34-36 | marking uses up one marker, unmarking returns one, and marking a revealed cell changes nothing |
| Games.AddToCounts | Minesweeper/GameController.swift:124-126 | the inner loop adds one to the count of exactly the listed cells |
| Games.ReachedConfined | Minesweeper/GameController.swift:74-100 | every reached index that is not a seed neighbours a cell turned over since the call began into a revealed cell with no adjacent bombs; cells revealed before the call let no flood through, as `reveal(at:)` returns at once on them |
| Games.FloodOrderAppend | Minesweeper/GameController.swift:98-100 | an order of cells reached from the adjacent indices, followed by an order reached from one of them, is again an order reached from the adjacent indices |
| Games.FloodOrderPrepend | Minesweeper/GameController.swift:96-102 | a cell that floods to every other seed, followed by an order reached from those seeds, is an order reached from that cell |
| Games.FloodOrderWeaken | Minesweeper/GameController.swift:96-102 | an order built with some flooding steps stays valid when more steps become possible |
| Games.FloodStepStable | Minesweeper/GameController.swift:83-100 | revealing more cells keeps every flooding step since a given start, because a turned-over cell stays revealed and keeps its count |
| Games.FloodOrderAddSeed | Minesweeper/GameController.swift:101 | listing one more seed last extends an order |
| Games.FloodStepRebase | Minesweeper/GameController.swift:83-100 | a flooding step of a later call is a step since an earlier start: the cell it leaves was still pending, so unchanged, when the later call began |
| Games.RevealedAlone | Minesweeper/GameController.swift:72-95 | a reveal that changes at most the target cell and returns only the target meets every promise about the result: ascending, in range, naming every changed cell, leaving no pending neighbour of a changed zero cell, and reached from the target |
| Games.ReachedAddSeed | Minesweeper/GameController.swift:101 | what was reached from some seeds, together with one more seed, is reached from those seeds and it |
| Games.FloodResult | Minesweeper/GameController.swift:101-102 | `Set(indices + [index]).sort()` contains the index, is ascending and in range, names every changed cell, is reached from the neighbours and the index, and is `[index]` when there are no neighbours |
| Games.ReachedFlood | Minesweeper/GameController.swift:83-102 | when a pending cell is turned over into one with no adjacent bombs and the flood from it reaches a set from its neighbours and itself, that set is reached from the cell through cells turned over since before it was revealed |
| Games.ReachedJoin | Minesweeper/GameController.swift:98-100 | what the earlier recursive calls reached from the adjacent indices since the loop began, followed by what the next call reached from its index since that call began, is reached from the adjacent indices since the loop began |
| Games.RevealedInTurnStep | Minesweeper/GameController.swift:98-100 | one more recursive call, with what `reveal(at:)` promises, extends the loop's record of cells changed, flooded and reached |
| Games.GameController.RemainingCoveredCells | Minesweeper/GameController.swift:30-32 | the number of covered cells, zero exactly when none is covered |
| Games.GameController.RemainingMarkers | Minesweeper/GameController.swift:34-36 | the bomb count minus the number of marked cells |
| Games.GameController.constructor | Minesweeper/GameController.swift:42-44 | a new controller plays a freshly dealt easy board |
| Games.GameController.Reset | Minesweeper/GameController.swift:53-60 | switches board if one is given, then deals a new game with exactly `bombs` bombs and accurate counts in the Playing state |
| Games.GameController.NextFreeIndex | Minesweeper/GameController.swift:116-119 | returns a non-bomb index inside the draw range |
| Games.GameController.InsertBombs | Minesweeper/GameController.swift:115-128 | from blank cells, places exactly `bombs` bombs inside the draw range and leaves every count accurate |
| Games.GameController.PlaceNextBomb | Minesweeper/GameController.swift:120-127 | one round of the placement loop turns a deal of k bombs into a deal of k + 1, by placing a bomb at some index of the draw range that held none and adding one to the count of each of its neighbours (`Placed`) |
| Games.GameController.Reveal | Minesweeper/GameController.swift:71-103 | without a flood, leaves exactly the corrected activation's cells and state and returns the index; always: the state rule, the target no longer pending, only covered unmarked cells revealed, an ascending result naming every changed cell, no pending neighbour of a flooded zero cell, and every index of the result reached from the target through cells this call turned over into revealed cells with no adjacent bombs (`Reached`, `ReachedConfined`) |
| Games.GameController.Uncover | Minesweeper/GameController.swift:83-102 | on a covered unmarked cell: without a flood, leaves exactly the corrected activation's cells and state and returns the index; the state becomes Won exactly when no covered cell remains and is otherwise unchanged; and the same promises about the result as `Reveal` |
| Games.GameController.Flood | Minesweeper/GameController.swift:96-102 | the tail of a reveal at a revealed cell with no adjacent bombs: afterwards none of its neighbours is covered and unmarked, and the result is ascending, in range, includes the cell, names every cell that changed, and holds only the cell and cells reached from its neighbours through cells this call turned over into revealed cells with no adjacent bombs |
| Games.GameController.RevealAll | Minesweeper/GameController.swift:98-100 | revealing each adjacent index in turn leaves none of them covered and unmarked, and the concatenated results name every cell that changed, all in range, each reached from one of the adjacent indices through cells this call turned over into revealed cells with no adjacent bombs |
| Games.GameController.Mark | Minesweeper/GameController.swift:108-111 | the cells become `MarkToggled` of the old cells, and board and state are unchanged |

## Left out

- The delegate callbacks (`gameDidWin`, `gameDidLose(at:)`) are not modelled. They have no effect on the engine's state, and the loss index is passed to the delegate only.
- `arc4random_uniform` is modelled as a nondeterministic choice of an index inside its range (`DrawRange`, `NextFreeIndex`). Neither the distribution nor the number of retries is modelled.
- Swift `Int` overflow (`rows * columns`, counter increments) is not modelled. Integers are unbounded.
- Dealing on non-square boards, on negative sizes, or with more bombs than the draw range can place is not modelled. `Games.GameController.Reset` and `Games.GameController.InsertBombs` require `Playable`. On such boards the source goes wrong in different ways:
  - on a non-square board the adjacency list can run off the grid, and the count update then indexes off the array;
  - with a negative square count, `Array(count:repeatedValue:)` traps (Minesweeper/GameController.swift:58);
  - with a negative bomb count, the range `0..<bombs` traps (Minesweeper/GameController.swift:120);
  - with more bombs than the draw range, placement never finishes.
- Boards.Coordinate and Boards.Neighbours require `rows != 0 && columns != 0`. On a board with zero rows or zero columns, `coordinate(for:)` traps on the division or remainder by zero (Minesweeper/Board.swift:22), and so does `adjacentIndices(for:)`, which calls it. That trap is not modelled. On every other board, square or not, the two functions model the code.
- Games.GameController.Reveal: on a marked covered cell it returns at once instead of flooding as the code does; see Findings. `RevealFrame` keeps the written behaviour.
- Games.GameController.Reveal: when it floods, the contract states that the result is ascending, in range, contains the index, names every changed cell and holds only cells reached through cells the call itself turned over (`Reached`). It does not state that the result is exactly the union of the recursive calls' results.
- Games.GameController.Reveal and Games.GameController.Mark require `0 <= index < |cells|`, and `Mark` also requires `Valid`. An out-of-range index makes the source trap on `cells[index]` (Minesweeper/GameController.swift:72, :109). That trap is not modelled.
- Games.GameController.Reveal: it requires accurate counts on a square board (`Valid`). The source has no such precondition, but only such states arise from `init()` and `reset(board:)`.
- `Games.GameController.Uncover`, `Games.GameController.Flood` and `Games.GameController.RevealAll` are not separate functions in the source. They split the body of `reveal(at:)` past its guards so that the mutual recursion can be proved to terminate, decreasing on the number of covered unmarked cells, and so that each part is proved on its own.
- The dictionary of `init?(dictionary:)` and `serialized` maps strings to integers or other values. Foundation's `NSNumber` bridging is not modelled.
- `reserveCapacity` has no observable effect and is not modelled.
- The user interface, the leaderboard, persistence and the app delegate are not part of this model.

## Findings

| source | as written | input that shows it | evidently intended | confidence | as-written member | corrected member |
|---|---|---|---|---|---|---|
| Minesweeper/GameController.swift:83-100 | a covered cell that is marked is not turned over, but when it has no adjacent bombs `reveal(at:)` still recurses into its neighbours, and those recurse back into it with nothing changed | a new 2 x 2 board with no bombs; mark cells 0 and 1; `reveal(at: 0)` recurses into 1, which recurses into 0 in the same state, without end | a marked covered cell returns at once, as it does when it has adjacent bombs, so every recursive step reveals one cell | not executed | Games.MarkedZeroCellsCycle | Games.GuardedRevealFrameProgress |

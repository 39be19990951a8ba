/**
 * The game engine (Minesweeper/GameController.swift): the cell array, the
 * board and the Won/Lost/Playing state; bomb placement on reset, reveal with
 * its recursive flood fill, and marking.
 */
module Games {
  import opened Wrappers
  import opened Boards
  import opened BoardCells

  datatype GameState = Won | Lost | Playing

  // Folds over the cells

  /** The properties of a cell that the controller counts. */
  datatype CellProperty = CoveredCell | MarkedCell | BombCell | PendingCell

  /** Covered and not marked: the only kind of cell `reveal(at:)` turns over. */
  predicate IsPending(c: BoardCell) {
    c.IsCovered() && !c.isMarked
  }

  predicate Has(c: BoardCell, p: CellProperty) {
    match p
    case CoveredCell => c.IsCovered()
    case MarkedCell => c.isMarked
    case BombCell => c.IsBomb()
    case PendingCell => IsPending(c)
  }

  /** `cells.reduce(0) { $1 has p ? $0 + 1 : $0 }`, folding from the left. */
  function Count(cells: seq<BoardCell>, p: CellProperty): nat {
    if cells == [] then 0
    else Count(cells[..|cells| - 1], p) + (if Has(cells[|cells| - 1], p) then 1 else 0)
  }

  /** The indices of the cells satisfying `p`. */
  function Where(cells: seq<BoardCell>, p: CellProperty): set<int> {
    set i | 0 <= i < |cells| && Has(cells[i], p)
  }

  lemma {:induction false} CountIsCardinality(cells: seq<BoardCell>, p: CellProperty)
    ensures Count(cells, p) == |Where(cells, p)|
  {
    if cells != [] {
      var n := |cells| - 1;
      CountIsCardinality(cells[..n], p);
      assert Where(cells, p) == Where(cells[..n], p) + (if Has(cells[n], p) then {n} else {});
    }
  }

  lemma {:induction false} CountIsZero(cells: seq<BoardCell>, p: CellProperty)
    ensures Count(cells, p) == 0 <==> forall i :: 0 <= i < |cells| ==> !Has(cells[i], p)
  {
    if cells != [] {
      var n := |cells| - 1;
      CountIsZero(cells[..n], p);
      assert forall i :: 0 <= i < n ==> cells[..n][i] == cells[i];
    }
  }

  /** Replacing one cell changes the count by what that cell contributed before and after. */
  lemma {:induction false} CountUpdate(cells: seq<BoardCell>, i: int, c: BoardCell, p: CellProperty)
    requires 0 <= i < |cells|
    ensures Count(cells[i := c], p) == Count(cells, p) - (if Has(cells[i], p) then 1 else 0) + (if Has(c, p) then 1 else 0)
  {
    var n := |cells| - 1;
    if i == n {
      assert cells[i := c][..n] == cells[..n];
    } else {
      assert cells[i := c][..n] == cells[..n][i := c];
      CountUpdate(cells[..n], i, c, p);
    }
  }

  /** Fewer cells satisfy `p` after a change that never makes a cell satisfy it. */
  lemma {:induction false} CountMonotone(before: seq<BoardCell>, after: seq<BoardCell>, p: CellProperty)
    requires |after| == |before|
    requires forall i :: 0 <= i < |after| && Has(after[i], p) ==> Has(before[i], p)
    ensures Count(after, p) <= Count(before, p)
  {
    if after != [] {
      var n := |after| - 1;
      CountMonotone(before[..n], after[..n], p);
    }
  }

  /** If the first `k` cells all satisfy `p`, at least `k` cells do. */
  lemma {:induction false} CountAtLeast(cells: seq<BoardCell>, p: CellProperty, k: nat)
    requires k <= |cells|
    requires forall i :: 0 <= i < k ==> Has(cells[i], p)
    ensures Count(cells, p) >= k
  {
    if cells != [] {
      var n := |cells| - 1;
      if k == |cells| {
        CountAtLeast(cells[..n], p, k - 1);
      } else {
        CountAtLeast(cells[..n], p, k);
      }
    }
  }

  /** Cells satisfying exactly one of `p` and `q` split the board between them. */
  lemma {:induction false} CountComplement(cells: seq<BoardCell>, p: CellProperty, q: CellProperty)
    requires forall i :: 0 <= i < |cells| ==> Has(cells[i], p) != Has(cells[i], q)
    ensures Count(cells, p) + Count(cells, q) == |cells|
  {
    if cells != [] {
      var n := |cells| - 1;
      CountComplement(cells[..n], p, q);
    }
  }

  /** How many of the indices in `indices` name bomb cells. */
  function BombsAmong(cells: seq<BoardCell>, indices: seq<int>): (n: nat)
    ensures n <= |indices|
  {
    if indices == [] then 0
    else (if 0 <= indices[0] < |cells| && cells[indices[0]].IsBomb() then 1 else 0) + BombsAmong(cells, indices[1..])
  }

  lemma {:induction false} BombsAmongSameBombs(before: seq<BoardCell>, after: seq<BoardCell>, indices: seq<int>)
    requires |after| == |before|
    requires forall i :: 0 <= i < |after| ==> after[i].IsBomb() == before[i].IsBomb()
    ensures BombsAmong(after, indices) == BombsAmong(before, indices)
  {
    if indices != [] {
      BombsAmongSameBombs(before, after, indices[1..]);
    }
  }

  /** Turning a non-bomb cell into a bomb adds one to the count of every duplicate-free index list that names it. */
  lemma {:induction false} BombsAmongPlace(cells: seq<BoardCell>, p: int, c: BoardCell, indices: seq<int>)
    requires 0 <= p < |cells| && !cells[p].IsBomb() && c.IsBomb()
    requires StrictlyIncreasing(indices)
    ensures BombsAmong(cells[p := c], indices) == BombsAmong(cells, indices) + (if p in indices then 1 else 0)
  {
    if indices != [] {
      assert indices[0] !in indices[1..];
      BombsAmongPlace(cells, p, c, indices[1..]);
    }
  }

  lemma {:induction false} BombsAmongZero(cells: seq<BoardCell>, indices: seq<int>)
    requires BombsAmong(cells, indices) == 0
    ensures forall k :: k in indices && 0 <= k < |cells| ==> !cells[k].IsBomb()
  {
    if indices != [] {
      BombsAmongZero(cells, indices[1..]);
    }
  }

  /** Every cell's `adjacentBombs` is the number of bomb cells among its adjacent indices. */
  ghost predicate AdjacencyConsistent(b: Board, cells: seq<BoardCell>) {
    (|cells| > 0 ==> b.rows != 0 && b.columns != 0)
    && forall j {:trigger CountIsAccurate(b, cells, j)} :: 0 <= j < |cells| ==> CountIsAccurate(b, cells, j)
  }

  ghost predicate CountIsAccurate(b: Board, cells: seq<BoardCell>, j: int)
    requires 0 <= j < |cells| && b.rows != 0 && b.columns != 0
  {
    cells[j].adjacentBombs == BombsAmong(cells, Neighbours(b, j))
  }

  lemma ConsistentSameBombs(b: Board, before: seq<BoardCell>, after: seq<BoardCell>)
    requires AdjacencyConsistent(b, before) && |after| == |before|
    requires forall i :: 0 <= i < |after| ==> after[i].IsBomb() == before[i].IsBomb()
    requires forall i :: 0 <= i < |after| ==> after[i].adjacentBombs == before[i].adjacentBombs
    ensures AdjacencyConsistent(b, after)
  {
    forall j | 0 <= j < |after|
      ensures CountIsAccurate(b, after, j)
    {
      assert CountIsAccurate(b, before, j);
      BombsAmongSameBombs(before, after, Neighbours(b, j));
    }
  }

  /**
   * Placing a bomb on a non-bomb cell `p` and adding one to the count of each
   * of `p`'s neighbours keeps every count equal to the bombs around it.
   */
  lemma PlacingKeepsConsistent(b: Board, before: seq<BoardCell>, after: seq<BoardCell>, p: int)
    requires IsSquare(b) && |before| == Squares(b) && |after| == |before|
    requires AdjacencyConsistent(b, before)
    requires 0 <= p < |before| && !before[p].IsBomb() && after[p].IsBomb()
    requires forall j :: 0 <= j < |after| && j != p ==> after[j].IsBomb() == before[j].IsBomb()
    requires forall j :: 0 <= j < |after| ==>
      after[j].adjacentBombs == before[j].adjacentBombs + (if j in Neighbours(b, p) then 1 else 0)
    ensures AdjacencyConsistent(b, after)
  {
    var placed := before[p := after[p]];
    forall j | 0 <= j < |after|
      ensures CountIsAccurate(b, after, j)
    {
      assert CountIsAccurate(b, before, j);
      NeighboursSymmetric(b, p, j);
      NeighboursAscending(b, j);
      BombsAmongPlace(before, p, after[p], Neighbours(b, j));
      BombsAmongSameBombs(placed, after, Neighbours(b, j));
    }
  }

  // Setting up a game

  /**
   * How many values `arc4random_uniform(UInt32(squares - 1))` can return:
   * [0, squares - 1), except that an upper bound below 2 always yields 0.
   */
  function DrawRange(squares: int): int {
    if squares - 1 < 1 then 1 else squares - 1
  }

  /**
   * The boards `reset(board:)` can deal: square (the adjacency of a non-square
   * board runs off the grid), and with no more bombs than the draw can place
   * (otherwise the rejection sampling never ends).
   */
  predicate Playable(b: Board) {
    b.rows == b.columns && b.rows >= 0 && b.bombs >= 0
    && (b.bombs == 0 || (Squares(b) >= 1 && b.bombs <= DrawRange(Squares(b))))
  }

  /** The cells once `k` bombs are placed: nothing revealed or marked, `k` bombs, all drawn from the draw range, and every count accurate. */
  ghost predicate Dealt(b: Board, cells: seq<BoardCell>, k: int) {
    |cells| == Squares(b)
    && (forall i :: 0 <= i < |cells| ==> !cells[i].IsRevealed() && !cells[i].isMarked)
    && Count(cells, BombCell) == k
    && (forall i :: 0 <= i < |cells| && cells[i].IsBomb() ==> i < DrawRange(Squares(b)))
    && AdjacencyConsistent(b, cells)
  }

  /** The cells just after `reset(board:)`. */
  ghost predicate NewGame(b: Board, cells: seq<BoardCell>) {
    Dealt(b, cells, b.bombs)
  }

  /** `cells` is `before` with a bomb placed at `p` and one added to the count of each of `p`'s neighbours. */
  ghost predicate Placed(b: Board, before: seq<BoardCell>, after: seq<BoardCell>, p: int)
    requires b.rows != 0 && b.columns != 0
  {
    |after| == |before|
    && forall j :: 0 <= j < |after| ==>
      after[j] == before[j].(state := if j == p then Bomb else before[j].state,
                             adjacentBombs := before[j].adjacentBombs + (if j in Neighbours(b, p) then 1 else 0))
  }

  /** Blank cells on a playable board are a deal of no bombs. */
  lemma BlankIsDealt(b: Board, cells: seq<BoardCell>)
    requires Playable(b) && |cells| == Squares(b)
    requires forall i :: 0 <= i < |cells| ==> cells[i] == DefaultCell
    ensures Dealt(b, cells, 0)
  {
    forall j | 0 <= j < |cells|
      ensures CountIsAccurate(b, cells, j)
    {
      NoBombsAmong(cells, Neighbours(b, j));
    }
    CountIsZero(cells, BombCell);
  }

  /** One round of `insertBombs()` turns a deal of `k` bombs into a deal of `k + 1`. */
  lemma PlaceBomb(b: Board, before: seq<BoardCell>, after: seq<BoardCell>, p: int, k: int)
    requires IsSquare(b) && Dealt(b, before, k)
    requires 0 <= p < DrawRange(Squares(b)) && p < |before| && !before[p].IsBomb()
    requires Placed(b, before, after, p)
    ensures Dealt(b, after, k + 1)
  {
    var placed := before[p := before[p].(state := Bomb)];
    CountUpdate(before, p, placed[p], BombCell);
    CountMonotone(placed, after, BombCell);
    CountMonotone(after, placed, BombCell);
    PlacingKeepsConsistent(b, before, after, p);
  }

  /** When the board has at least two squares the last index is never drawn, so never a bomb. */
  lemma NewGameLastIndexFree(b: Board, cells: seq<BoardCell>)
    requires NewGame(b, cells) && Squares(b) >= 2
    ensures !cells[Squares(b) - 1].IsBomb()
  {
  }

  /** A new game has no bomb-free cell revealed: every non-bomb is covered, and every count lies in 0..8. */
  lemma NewGameCounts(b: Board, cells: seq<BoardCell>)
    requires NewGame(b, cells)
    ensures Count(cells, CoveredCell) == Squares(b) - b.bombs
    ensures Count(cells, MarkedCell) == 0
    ensures forall i :: 0 <= i < |cells| ==> 0 <= cells[i].adjacentBombs <= 8
  {
    CountComplement(cells, CoveredCell, BombCell);
    CountIsZero(cells, MarkedCell);
    forall i | 0 <= i < |cells|
      ensures 0 <= cells[i].adjacentBombs <= 8
    {
      assert CountIsAccurate(b, cells, i);
    }
  }

  /** If fewer than `bound` cells are bombs, some index below `bound` is free. */
  lemma FreeIndexExists(cells: seq<BoardCell>, bound: int)
    requires 0 <= bound <= |cells| && Count(cells, BombCell) < bound
    ensures exists i :: 0 <= i < bound && !cells[i].IsBomb()
  {
    if forall i :: 0 <= i < bound ==> cells[i].IsBomb() {
      CountAtLeast(cells, BombCell, bound);
    }
  }

  // Revealing

  /**
   * One activation of `reveal(at:)` up to its recursive calls: the cells and
   * state it leaves and the neighbours it then reveals in turn (none when it
   * returns at once). A marked covered cell is not revealed but still floods
   * when it has no adjacent bombs.
   */
  function RevealFrame(b: Board, cells: seq<BoardCell>, state: GameState, index: int): (f: Frame)
    requires 0 <= index < |cells| && b.rows != 0 && b.columns != 0
    ensures |f.cells| == |cells|
    ensures forall j :: 0 <= j < |cells| && j != index ==> f.cells[j] == cells[j]
  {
    var cell := cells[index];
    if !cell.IsCovered() then
      Frame(cells, if cell.IsBomb() then Lost else state, [])
    else
      var next := if !cell.isMarked then cells[index := cell.(state := Revealed)] else cells;
      if Count(next, CoveredCell) == 0 then Frame(next, Won, [])
      else if cell.adjacentBombs != 0 then Frame(next, state, [])
      else Frame(next, state, Neighbours(b, index))
  }

  datatype Frame = Frame(cells: seq<BoardCell>, state: GameState, floods: seq<int>)

  /** On a bomb, marked or not, the game is lost and nothing else changes; on a revealed cell nothing changes at all. */
  lemma RevealFrameGuard(b: Board, cells: seq<BoardCell>, state: GameState, index: int)
    requires 0 <= index < |cells| && b.rows != 0 && b.columns != 0
    ensures cells[index].IsBomb() ==> RevealFrame(b, cells, state, index) == Frame(cells, Lost, [])
    ensures cells[index].IsRevealed() ==> RevealFrame(b, cells, state, index) == Frame(cells, state, [])
  {
  }

  /**
   * On a covered cell: the cell is revealed unless marked; the game is won
   * exactly when no covered cell is left (marked cells count as covered,
   * bombs do not); otherwise the cell floods exactly when it has no adjacent
   * bombs, and a cell with adjacent bombs changes alone.
   */
  lemma RevealFrameCovered(b: Board, cells: seq<BoardCell>, state: GameState, index: int)
    requires 0 <= index < |cells| && b.rows != 0 && b.columns != 0
    requires cells[index].IsCovered()
    ensures var f := RevealFrame(b, cells, state, index);
      && f.cells[index] == (if cells[index].isMarked then cells[index] else cells[index].(state := Revealed))
      && (var noneCovered := forall j :: 0 <= j < |f.cells| ==> !f.cells[j].IsCovered();
          && (noneCovered ==> f.state == Won && f.floods == [])
          && (!noneCovered ==>
                (f.state == state && f.floods == (if cells[index].adjacentBombs == 0 then Neighbours(b, index) else []))))
  {
    var f := RevealFrame(b, cells, state, index);
    CountIsZero(f.cells, CoveredCell);
  }

  /** No marked cell without adjacent bombs: the condition under which `reveal(at:)` terminates. */
  predicate NoMarkedZeroCell(cells: seq<BoardCell>) {
    forall j :: 0 <= j < |cells| && cells[j].isMarked ==> cells[j].adjacentBombs != 0
  }

  /** An activation that floods was on a covered cell without adjacent bombs, and revealed it unless it was marked. */
  lemma RevealFrameFloods(b: Board, cells: seq<BoardCell>, state: GameState, index: int)
    requires 0 <= index < |cells| && b.rows != 0 && b.columns != 0
    requires RevealFrame(b, cells, state, index).floods != []
    ensures cells[index].IsCovered() && cells[index].adjacentBombs == 0
    ensures RevealFrame(b, cells, state, index).cells ==
      if cells[index].isMarked then cells else cells[index := cells[index].(state := Revealed)]
  {
  }

  /** Without marked zero cells, every activation that floods has revealed one cell first, so fewer covered unmarked cells remain. */
  lemma RevealFrameProgress(b: Board, cells: seq<BoardCell>, state: GameState, index: int)
    requires 0 <= index < |cells| && b.rows != 0 && b.columns != 0
    requires NoMarkedZeroCell(cells)
    requires RevealFrame(b, cells, state, index).floods != []
    ensures Count(RevealFrame(b, cells, state, index).cells, PendingCell) == Count(cells, PendingCell) - 1
  {
    RevealFrameFloods(b, cells, state, index);
    CountUpdate(cells, index, cells[index].(state := Revealed), PendingCell);
  }

  /**
   * `reveal(at:)` as evidently intended: the same activation, except that a
   * marked covered cell returns at once, as it does when it has adjacent bombs.
   */
  function GuardedRevealFrame(b: Board, cells: seq<BoardCell>, state: GameState, index: int): (f: Frame)
    requires 0 <= index < |cells| && b.rows != 0 && b.columns != 0
    ensures |f.cells| == |cells|
    ensures forall j :: 0 <= j < |cells| && j != index ==> f.cells[j] == cells[j]
  {
    if cells[index].IsCovered() && cells[index].isMarked then Frame(cells, state, [])
    else RevealFrame(b, cells, state, index)
  }

  /** The guard changes the activation only on a marked covered cell without adjacent bombs, and there it stops the flood. */
  lemma GuardedRevealFrameAgrees(b: Board, cells: seq<BoardCell>, state: GameState, index: int)
    requires 0 <= index < |cells| && b.rows != 0 && b.columns != 0
    ensures var marked := cells[index].IsCovered() && cells[index].isMarked;
      && (!(marked && cells[index].adjacentBombs == 0) ==>
            GuardedRevealFrame(b, cells, state, index) == RevealFrame(b, cells, state, index))
      && (marked ==> GuardedRevealFrame(b, cells, state, index).floods == [])
  {
    if cells[index].IsCovered() && cells[index].isMarked {
      CountIsZero(cells, CoveredCell);
    }
  }

  /** With the guard, every activation that floods has revealed one cell first, whatever is marked: the recursion ends. */
  lemma GuardedRevealFrameProgress(b: Board, cells: seq<BoardCell>, state: GameState, index: int)
    requires 0 <= index < |cells| && b.rows != 0 && b.columns != 0
    requires GuardedRevealFrame(b, cells, state, index).floods != []
    ensures Count(GuardedRevealFrame(b, cells, state, index).cells, PendingCell) == Count(cells, PendingCell) - 1
  {
    assert !(cells[index].IsCovered() && cells[index].isMarked);
    assert GuardedRevealFrame(b, cells, state, index) == RevealFrame(b, cells, state, index);
    RevealFrameFloods(b, cells, state, index);
    var revealed := cells[index].(state := Revealed);
    assert GuardedRevealFrame(b, cells, state, index).cells == cells[index := revealed];
    assert Has(cells[index], PendingCell) && !Has(revealed, PendingCell);
    CountUpdate(cells, index, revealed, PendingCell);
  }

  /** A new 2 x 2 game without bombs, with cells 0 and 1 then marked: both are marked cells without adjacent bombs. */
  lemma MarkedZeroCellsReachable()
    ensures var marked := BoardCell(Covered, 0, true);
      && NewGame(Board(2, 2, 0), seq(4, _ => DefaultCell))
      && MarkToggled(MarkToggled(seq(4, _ => DefaultCell), 0), 1) == [marked, marked, DefaultCell, DefaultCell]
  {
    var cells := seq(4, _ => DefaultCell);
    BlankIsDealt(Board(2, 2, 0), cells);
    var marked := BoardCell(Covered, 0, true);
    assert MarkToggled(cells, 0) == [marked, DefaultCell, DefaultCell, DefaultCell];
  }

  /** On a 2 x 2 board each cell has the other three as neighbours. */
  lemma TwoByTwoNeighbours()
    ensures Neighbours(Board(2, 2, 0), 0) == [1, 2, 3]
    ensures Neighbours(Board(2, 2, 0), 1) == [0, 2, 3]
  {
    var b := Board(2, 2, 0);
    assert Coordinate(b, 0) == (0, 0);
    assert Coordinate(b, 1) == (0, 1);
  }

  /**
   * In that state revealing cell 0 changes nothing and goes on to reveal
   * cell 1 first, which changes nothing and goes on to reveal cell 0 first,
   * in the same state: `reveal(at: 0)` never returns.
   */
  lemma MarkedZeroCellsCycle()
    ensures var b := Board(2, 2, 0);
      var marked := BoardCell(Covered, 0, true);
      var cells := [marked, marked, DefaultCell, DefaultCell];
      && RevealFrame(b, cells, Playing, 0) == Frame(cells, Playing, [1, 2, 3])
      && RevealFrame(b, cells, Playing, 1) == Frame(cells, Playing, [0, 2, 3])
  {
  }

  /** Revealing a marked cell without adjacent bombs, while some cell is still covered, changes nothing and floods every neighbour. */
  lemma MarkedZeroCellFloods(b: Board, cells: seq<BoardCell>, state: GameState, index: int, other: int)
    requires 0 <= index < |cells| && b.rows != 0 && b.columns != 0
    requires cells[index].IsCovered() && cells[index].isMarked && cells[index].adjacentBombs == 0
    requires 0 <= other < |cells| && cells[other].IsCovered()
    ensures RevealFrame(b, cells, state, index) == Frame(cells, state, Neighbours(b, index))
  {
    CountIsZero(cells, CoveredCell);
  }

  /** Cells only move from covered-and-unmarked to revealed; nothing else about any cell changes. */
  ghost predicate Advanced(before: seq<BoardCell>, after: seq<BoardCell>) {
    |after| == |before|
    && forall j :: 0 <= j < |before| ==>
      after[j] == before[j] || (IsPending(before[j]) && after[j] == before[j].(state := Revealed))
  }

  lemma AdvancedTransitive(a: seq<BoardCell>, b: seq<BoardCell>, c: seq<BoardCell>)
    requires Advanced(a, b) && Advanced(b, c)
    ensures Advanced(a, c)
  {
  }

  /** What advancing keeps: bombs, marks and counts, and so the consistency of the counts; the number of covered cells never grows. */
  lemma AdvancedKeeps(b: Board, before: seq<BoardCell>, after: seq<BoardCell>)
    requires Advanced(before, after)
    ensures forall j :: 0 <= j < |after| ==>
      after[j].IsBomb() == before[j].IsBomb() && after[j].isMarked == before[j].isMarked
      && after[j].adjacentBombs == before[j].adjacentBombs
    ensures AdjacencyConsistent(b, before) ==> AdjacencyConsistent(b, after)
    ensures Count(after, CoveredCell) <= Count(before, CoveredCell)
    ensures Count(after, PendingCell) <= Count(before, PendingCell)
  {
    if AdjacencyConsistent(b, before) {
      ConsistentSameBombs(b, before, after);
    }
    CountMonotone(before, after, CoveredCell);
    CountMonotone(before, after, PendingCell);
  }

  /** No neighbour of cell `j` is left covered and unmarked. */
  ghost predicate Surrounded(b: Board, cells: seq<BoardCell>, j: int) {
    b.rows != 0 && b.columns != 0
    && var adjacent := Neighbours(b, j);
    forall s :: 0 <= s < |adjacent| && 0 <= adjacent[s] < |cells| ==> !IsPending(cells[adjacent[s]])
  }

  lemma SurroundedStable(b: Board, before: seq<BoardCell>, after: seq<BoardCell>, j: int)
    requires Advanced(before, after) && Surrounded(b, before, j)
    ensures Surrounded(b, after, j)
  {
  }

  /** Every cell that changed between `before` and `after` and has no adjacent bombs has no pending neighbour left. */
  ghost predicate FloodedAround(b: Board, before: seq<BoardCell>, after: seq<BoardCell>) {
    forall j {:trigger Surrounded(b, after, j)} ::
      0 <= j < |after| && j < |before| && after[j] != before[j] && after[j].adjacentBombs == 0 ==> Surrounded(b, after, j)
  }

  lemma FloodedAroundJoin(b: Board, first: seq<BoardCell>, middle: seq<BoardCell>, last: seq<BoardCell>)
    requires |first| == |middle| && Advanced(middle, last)
    requires FloodedAround(b, first, middle) && FloodedAround(b, middle, last)
    ensures FloodedAround(b, first, last)
  {
    forall j | 0 <= j < |last| && j < |first| && last[j] != first[j] && last[j].adjacentBombs == 0
      ensures Surrounded(b, last, j)
    {
      if last[j] == middle[j] {
        assert Surrounded(b, middle, j);
        SurroundedStable(b, middle, last, j);
      }
    }
  }

  /** A flood that starts from `first`, which differs from `before` at `index` alone, and leaves `index` surrounded. */
  lemma FloodedAroundTarget(b: Board, before: seq<BoardCell>, first: seq<BoardCell>, last: seq<BoardCell>, index: int)
    requires 0 <= index < |before| && |first| == |before| && |last| == |before|
    requires forall j :: 0 <= j < |before| && j != index ==> first[j] == before[j]
    requires FloodedAround(b, first, last) && Surrounded(b, last, index)
    ensures FloodedAround(b, before, last)
  {
    forall j | 0 <= j < |last| && last[j] != before[j] && last[j].adjacentBombs == 0
      ensures Surrounded(b, last, j)
    {
      if j != index {
        assert last[j] != first[j];
      }
    }
  }

  /** Only the cells named in `xs` differ between `before` and `after`. */
  ghost predicate ChangedOnlyAt(before: seq<BoardCell>, after: seq<BoardCell>, xs: seq<int>) {
    |after| == |before| && forall j :: 0 <= j < |after| && after[j] != before[j] ==> j in xs
  }

  lemma ChangedOnlyAtJoin(first: seq<BoardCell>, middle: seq<BoardCell>, last: seq<BoardCell>,
                          xs: seq<int>, ys: seq<int>, zs: seq<int>)
    requires ChangedOnlyAt(first, middle, xs) && ChangedOnlyAt(middle, last, ys)
    requires forall x :: x in xs ==> x in zs
    requires forall y :: y in ys ==> y in zs
    ensures ChangedOnlyAt(first, last, zs)
  {
  }

  // Where a flood can reach

  /**
   * Between `start` and `cells`, `k` was turned over into a revealed cell
   * without adjacent bombs and `j` is one of its neighbours: revealing `k`
   * went on to reveal `j`. A cell already revealed at `start` floods nothing,
   * since `reveal(at:)` on a revealed cell returns at once.
   */
  ghost predicate FloodsTo(b: Board, start: seq<BoardCell>, cells: seq<BoardCell>, k: int, j: int)
    requires b.rows != 0 && b.columns != 0
  {
    0 <= k < |cells| && k < |start| && cells[k] != start[k]
    && cells[k].IsRevealed() && cells[k].adjacentBombs == 0 && j in Neighbours(b, k)
  }

  /** `FloodsTo` as a value, so that the lemmas about orders below reason about any step relation. */
  ghost function FloodStep(b: Board, start: seq<BoardCell>, cells: seq<BoardCell>): (int, int) -> bool {
    (k, j) => b.rows != 0 && b.columns != 0 && FloodsTo(b, start, cells, k, j)
  }

  /** Every entry of `order` is a seed or is stepped to from an earlier entry. */
  ghost predicate FloodOrder(step: (int, int) -> bool, seeds: seq<int>, order: seq<int>) {
    forall t :: 0 <= t < |order| ==>
      order[t] in seeds || exists u :: 0 <= u < t && step(order[u], order[t])
  }

  /**
   * The indices in `xs` can be listed so that each is a seed or a neighbour
   * of a cell listed before it that was turned over between `start` and
   * `cells` and has no adjacent bombs: a path from a seed through such cells
   * reaches every one of them.
   */
  ghost predicate Reached(b: Board, start: seq<BoardCell>, cells: seq<BoardCell>, seeds: seq<int>, xs: seq<int>) {
    exists order :: (forall x :: x in order <==> x in xs) && FloodOrder(FloodStep(b, start, cells), seeds, order)
  }

  lemma ReachedSeed(b: Board, start: seq<BoardCell>, cells: seq<BoardCell>, x: int)
    ensures Reached(b, start, cells, [x], [x])
  {
    assert FloodOrder(FloodStep(b, start, cells), [x], [x]);
  }

  lemma ReachedNone(b: Board, start: seq<BoardCell>, cells: seq<BoardCell>, seeds: seq<int>)
    ensures Reached(b, start, cells, seeds, [])
  {
    var none: seq<int> := [];
    assert FloodOrder(FloodStep(b, start, cells), seeds, none);
  }

  /**
   * Confinement: every reached index that is not a seed neighbours a cell
   * turned over between `start` and `cells` into a revealed cell without
   * adjacent bombs. Cells revealed before `start` let no flood through.
   */
  lemma ReachedConfined(b: Board, start: seq<BoardCell>, cells: seq<BoardCell>, seeds: seq<int>, xs: seq<int>, x: int)
    requires b.rows != 0 && b.columns != 0
    requires Reached(b, start, cells, seeds, xs) && x in xs && x !in seeds
    ensures exists k :: (0 <= k < |cells| && k < |start| && cells[k] != start[k]
                         && cells[k].IsRevealed() && cells[k].adjacentBombs == 0 && x in Neighbours(b, k))
  {
    var order :| (forall y :: y in order <==> y in xs) && FloodOrder(FloodStep(b, start, cells), seeds, order);
    var t :| 0 <= t < |order| && order[t] == x;
    var u :| 0 <= u < t && FloodStep(b, start, cells)(order[u], order[t]);
    assert FloodsTo(b, start, cells, order[u], x);
  }

  lemma StepWeaken(step: (int, int) -> bool, wider: (int, int) -> bool, k: int, j: int)
    requires forall k, j {:trigger step(k, j)} :: step(k, j) ==> wider(k, j)
    requires step(k, j)
    ensures wider(k, j)
  {
  }

  /** An order for one relation is an order for any relation that allows at least its steps. */
  lemma FloodOrderWeaken(step: (int, int) -> bool, wider: (int, int) -> bool, seeds: seq<int>, order: seq<int>)
    requires forall k, j {:trigger step(k, j)} :: step(k, j) ==> wider(k, j)
    requires FloodOrder(step, seeds, order)
    ensures FloodOrder(wider, seeds, order)
  {
    forall t | 0 <= t < |order| && order[t] !in seeds
      ensures exists u :: 0 <= u < t && wider(order[u], order[t])
    {
      var u :| 0 <= u < t && step(order[u], order[t]);
      StepWeaken(step, wider, order[u], order[t]);
    }
  }

  /** An order from `seeds` followed by an order from one of those seeds is an order from `seeds`. */
  lemma FloodOrderAppend(step: (int, int) -> bool, seeds: seq<int>, first: seq<int>, k: int, second: seq<int>)
    requires k in seeds && FloodOrder(step, seeds, first) && FloodOrder(step, [k], second)
    ensures FloodOrder(step, seeds, first + second)
  {
    var order := first + second;
    forall t | 0 <= t < |order| && order[t] !in seeds
      ensures exists u :: 0 <= u < t && step(order[u], order[t])
    {
      if t < |first| {
        assert order[t] == first[t];
        var u :| 0 <= u < t && step(first[u], first[t]);
        assert order[u] == first[u];
      } else {
        var s := t - |first|;
        assert order[t] == second[s] && second[s] !in [k];
        var u :| 0 <= u < s && step(second[u], second[s]);
        assert order[u + |first|] == second[u];
      }
    }
  }

  /** A cell that steps to every other seed, followed by an order from those seeds, is an order from that cell. */
  lemma FloodOrderPrepend(step: (int, int) -> bool, index: int, seeds: seq<int>, rest: seq<int>)
    requires forall s :: s in seeds && s != index ==> step(index, s)
    requires FloodOrder(step, seeds, rest)
    ensures FloodOrder(step, [index], [index] + rest)
  {
    var order := [index] + rest;
    forall t | 0 <= t < |order| && order[t] !in [index]
      ensures exists u :: 0 <= u < t && step(order[u], order[t])
    {
      assert order[t] == rest[t - 1];
      if rest[t - 1] in seeds {
        assert step(order[0], order[t]);
      } else {
        var u :| 0 <= u < t - 1 && step(rest[u], rest[t - 1]);
        assert order[u + 1] == rest[u];
      }
    }
  }

  /** One more seed, listed last, extends an order. */
  lemma FloodOrderAddSeed(step: (int, int) -> bool, seeds: seq<int>, order: seq<int>, k: int)
    requires FloodOrder(step, seeds, order)
    ensures FloodOrder(step, seeds + [k], order + [k])
  {
    var longer := order + [k];
    forall t | 0 <= t < |longer| && longer[t] !in seeds + [k]
      ensures exists u :: 0 <= u < t && step(longer[u], longer[t])
    {
      assert longer[t] == order[t];
      var u :| 0 <= u < t && step(order[u], order[t]);
      assert longer[u] == order[u];
    }
  }

  /** Revealing more cells keeps every flooding step, since a turned-over cell stays revealed. */
  lemma FloodStepStable(b: Board, start: seq<BoardCell>, middle: seq<BoardCell>, last: seq<BoardCell>)
    requires Advanced(middle, last)
    ensures forall k, j {:trigger FloodStep(b, start, middle)(k, j)} ::
      FloodStep(b, start, middle)(k, j) ==> FloodStep(b, start, last)(k, j)
  {
    forall k, j | FloodStep(b, start, middle)(k, j)
      ensures FloodStep(b, start, last)(k, j)
    {
      assert FloodsTo(b, start, middle, k, j);
      assert last[k] == middle[k];
    }
  }

  /**
   * A step of a later call is a step since an earlier start: a cell the later
   * call turned over was pending when it began, so it was unchanged until then.
   */
  lemma FloodStepRebase(b: Board, start: seq<BoardCell>, middle: seq<BoardCell>, last: seq<BoardCell>)
    requires Advanced(start, middle) && Advanced(middle, last)
    ensures forall k, j {:trigger FloodStep(b, middle, last)(k, j)} ::
      FloodStep(b, middle, last)(k, j) ==> FloodStep(b, start, last)(k, j)
  {
    forall k, j | FloodStep(b, middle, last)(k, j)
      ensures FloodStep(b, start, last)(k, j)
    {
      assert FloodsTo(b, middle, last, k, j);
      assert IsPending(middle[k]) && middle[k] == start[k];
    }
  }

  /** What earlier calls reached from `seeds`, followed by what a later call reached from the seed `k`. */
  lemma ReachedJoin(b: Board, start: seq<BoardCell>, middle: seq<BoardCell>, last: seq<BoardCell>, seeds: seq<int>,
                    xs: seq<int>, k: int, ys: seq<int>)
    requires Advanced(start, middle) && Advanced(middle, last) && k in seeds
    requires Reached(b, start, middle, seeds, xs) && Reached(b, middle, last, [k], ys)
    ensures Reached(b, start, last, seeds, xs + ys)
  {
    var first :| (forall x :: x in first <==> x in xs) && FloodOrder(FloodStep(b, start, middle), seeds, first);
    var second :| (forall x :: x in second <==> x in ys) && FloodOrder(FloodStep(b, middle, last), [k], second);
    FloodStepStable(b, start, middle, last);
    FloodOrderWeaken(FloodStep(b, start, middle), FloodStep(b, start, last), seeds, first);
    FloodStepRebase(b, start, middle, last);
    FloodOrderWeaken(FloodStep(b, middle, last), FloodStep(b, start, last), [k], second);
    FloodOrderAppend(FloodStep(b, start, last), seeds, first, k, second);
    assert forall x :: x in first + second <==> x in xs + ys;
  }

  /** What was reached from `seeds`, together with one more seed `k`, is reached from `seeds` and `k`. */
  lemma ReachedAddSeed(b: Board, start: seq<BoardCell>, cells: seq<BoardCell>, seeds: seq<int>,
                       xs: seq<int>, k: int, ys: seq<int>)
    requires Reached(b, start, cells, seeds, xs)
    requires forall y :: y in ys <==> y in xs || y == k
    ensures Reached(b, start, cells, seeds + [k], ys)
  {
    var order :| (forall x :: x in order <==> x in xs) && FloodOrder(FloodStep(b, start, cells), seeds, order);
    FloodOrderAddSeed(FloodStep(b, start, cells), seeds, order, k);
    assert forall x :: x in order + [k] <==> x in ys;
  }

  /**
   * A cell turned over into a revealed cell without adjacent bombs, followed
   * by what the flood from it reached from its neighbours, is reached from
   * that cell through cells turned over since `start`.
   */
  lemma ReachedFlood(b: Board, start: seq<BoardCell>, first: seq<BoardCell>, last: seq<BoardCell>,
                     index: int, revealed: seq<int>)
    requires b.rows != 0 && b.columns != 0
    requires Advanced(start, first) && Advanced(first, last)
    requires 0 <= index < |start| && IsPending(start[index])
    requires last[index].IsRevealed() && last[index].adjacentBombs == 0
    requires Reached(b, first, last, Neighbours(b, index) + [index], revealed) && index in revealed
    ensures Reached(b, start, last, [index], revealed)
  {
    var seeds := Neighbours(b, index) + [index];
    var rest :| (forall x :: x in rest <==> x in revealed) && FloodOrder(FloodStep(b, first, last), seeds, rest);
    FloodStepRebase(b, start, first, last);
    FloodOrderWeaken(FloodStep(b, first, last), FloodStep(b, start, last), seeds, rest);
    forall s | s in seeds && s != index
      ensures FloodStep(b, start, last)(index, s)
    {
      assert FloodsTo(b, start, last, index, s);
    }
    FloodOrderPrepend(FloodStep(b, start, last), index, seeds, rest);
    assert forall x :: x in [index] + rest <==> x in revealed;
  }

  /** A reveal that changes at most the cell at `index` and returns `[index]` keeps every promise of `reveal(at:)` about its result. */
  lemma RevealedAlone(b: Board, before: seq<BoardCell>, after: seq<BoardCell>, index: int)
    requires 0 <= index < |before| && |after| == |before|
    requires forall j :: 0 <= j < |before| && j != index ==> after[j] == before[j]
    requires after[index] != before[index] && after[index].adjacentBombs == 0 ==> Surrounded(b, after, index)
    ensures StrictlyIncreasing([index]) && (forall j :: j in [index] ==> 0 <= j < |after|)
    ensures ChangedOnlyAt(before, after, [index]) && FloodedAround(b, before, after)
    ensures Reached(b, before, after, [index], [index])
  {
    ReachedSeed(b, before, after, index);
  }

  /** The result of the flood at `index`: its neighbours' results with `index` added, deduplicated and sorted. */
  lemma FloodResult(b: Board, start: seq<BoardCell>, cells: seq<BoardCell>, index: int,
                    adjacent: seq<int>, indices: seq<int>, revealed: seq<int>)
    requires 0 <= index < |cells| && forall x :: x in indices ==> 0 <= x < |cells|
    requires adjacent == [] ==> indices == []
    requires ChangedOnlyAt(start, cells, indices) && Reached(b, start, cells, adjacent, indices)
    requires revealed == SortedUnique(indices + [index])
    ensures index in revealed && StrictlyIncreasing(revealed)
    ensures forall j :: j in revealed ==> 0 <= j < |cells|
    ensures ChangedOnlyAt(start, cells, revealed)
    ensures Reached(b, start, cells, adjacent + [index], revealed)
    ensures adjacent == [] ==> revealed == [index]
  {
    forall j | j in revealed
      ensures 0 <= j < |cells|
    {
      assert j in indices + [index];
    }
    assert forall y :: y in indices ==> y in revealed;
    ReachedAddSeed(b, start, cells, adjacent, indices, index, revealed);
    if adjacent == [] {
      assert indices + [index] == [index];
      SortedUniqueSingleton(index);
    }
  }

  /**
   * What revealing `adjacent[..t]` in turn has done to `start`: cells only
   * advanced, none of those `t` neighbours is left pending, every changed
   * cell is named in `indices`, no changed cell without adjacent bombs has a
   * pending neighbour, and every named cell is reached from `adjacent`.
   */
  ghost predicate RevealedInTurn(b: Board, start: seq<BoardCell>, cells: seq<BoardCell>, adjacent: seq<int>,
                                 t: int, indices: seq<int>)
    requires b.rows != 0 && b.columns != 0
  {
    && 0 <= t <= |adjacent|
    && Advanced(start, cells)
    && (forall s :: 0 <= s < |adjacent| ==> 0 <= adjacent[s] < |cells| && !cells[adjacent[s]].IsBomb())
    && (forall s :: 0 <= s < t ==> !IsPending(cells[adjacent[s]]))
    && (forall x :: x in indices ==> 0 <= x < |cells|)
    && ChangedOnlyAt(start, cells, indices)
    && FloodedAround(b, start, cells)
    && Reached(b, start, cells, adjacent, indices)
  }

  /** Revealing the next neighbour, with what `reveal(at:)` promises, extends what was revealed in turn. */
  lemma RevealedInTurnStep(b: Board, start: seq<BoardCell>, before: seq<BoardCell>, after: seq<BoardCell>,
                           adjacent: seq<int>, t: int, indices: seq<int>, r: seq<int>)
    requires b.rows != 0 && b.columns != 0
    requires RevealedInTurn(b, start, before, adjacent, t, indices) && t < |adjacent|
    requires Advanced(before, after) && !IsPending(after[adjacent[t]])
    requires forall x :: x in r ==> 0 <= x < |after|
    requires ChangedOnlyAt(before, after, r) && FloodedAround(b, before, after)
    requires Reached(b, before, after, [adjacent[t]], r)
    ensures RevealedInTurn(b, start, after, adjacent, t + 1, indices + r)
  {
    AdvancedTransitive(start, before, after);
    forall s | 0 <= s < |adjacent|
      ensures !after[adjacent[s]].IsBomb() && (s <= t ==> !IsPending(after[adjacent[s]]))
    {
      assert !before[adjacent[s]].IsBomb();
    }
    ChangedOnlyAtJoin(start, before, after, indices, r, indices + r);
    FloodedAroundJoin(b, start, before, after);
    ReachedJoin(b, start, before, after, adjacent, indices, adjacent[t], r);
  }

  // `Set(indices).sort()`

  function Insert(s: seq<int>, x: int): (r: seq<int>)
    requires StrictlyIncreasing(s)
    ensures StrictlyIncreasing(r)
    ensures forall y :: y in r <==> y in s || y == x
  {
    if s == [] then [x]
    else if x < s[0] then [x] + s
    else if x == s[0] then s
    else
      var rest := Insert(s[1..], x);
      forall j | 0 <= j < |rest|
        ensures s[0] < rest[j]
      {
        assert rest[j] in rest;
        if rest[j] != x {
          var k :| 0 <= k < |s[1..]| && s[1..][k] == rest[j];
          assert s[k + 1] == rest[j];
        }
      }
      assert forall j :: 0 < j < |[s[0]] + rest| ==> ([s[0]] + rest)[j] == rest[j - 1];
      [s[0]] + rest
  }

  /** The distinct elements of `xs`, in ascending order. */
  function SortedUnique(xs: seq<int>): (r: seq<int>)
    ensures StrictlyIncreasing(r)
    ensures forall y :: y in r <==> y in xs
  {
    if xs == [] then [] else Insert(SortedUnique(xs[..|xs| - 1]), xs[|xs| - 1])
  }

  lemma SortedUniqueSingleton(x: int)
    ensures SortedUnique([x]) == [x]
  {
  }

  // Marking

  /** The cells after `mark(at:)`: a revealed cell is left alone, any other has its mark flipped. */
  function MarkToggled(cells: seq<BoardCell>, index: int): (r: seq<BoardCell>)
    requires 0 <= index < |cells|
    ensures |r| == |cells|
  {
    if cells[index].IsRevealed() then cells
    else cells[index := cells[index].(isMarked := !cells[index].isMarked)]
  }

  /** Marking touches only the mark of the one cell, and marking twice restores the cells. */
  lemma MarkTogglesOnlyTheMark(cells: seq<BoardCell>, index: int)
    requires 0 <= index < |cells|
    ensures var r := MarkToggled(cells, index);
      && (forall j :: 0 <= j < |cells| ==>
            r[j].state == cells[j].state && r[j].adjacentBombs == cells[j].adjacentBombs)
      && (forall j :: 0 <= j < |cells| && j != index ==> r[j] == cells[j])
      && r[index].isMarked == (cells[index].isMarked != !cells[index].IsRevealed())
      && MarkToggled(r, index) == cells
  {
  }

  /** Marking a cell uses up one marker, unmarking returns one, and a revealed cell changes nothing. */
  lemma MarkersAfterMark(cells: seq<BoardCell>, index: int)
    requires 0 <= index < |cells|
    ensures |Where(MarkToggled(cells, index), MarkedCell)| ==
      |Where(cells, MarkedCell)|
      + (if cells[index].IsRevealed() then 0 else if cells[index].isMarked then -1 else 1)
  {
    CountIsCardinality(cells, MarkedCell);
    CountIsCardinality(MarkToggled(cells, index), MarkedCell);
    if !cells[index].IsRevealed() {
      CountUpdate(cells, index, cells[index].(isMarked := !cells[index].isMarked), MarkedCell);
    }
  }

  /** The loop in `insertBombs()` that adds one to the count of each cell named in `adjacent`, a list without repeats. */
  method AddToCounts(cells: seq<BoardCell>, adjacent: seq<int>) returns (r: seq<BoardCell>)
    requires StrictlyIncreasing(adjacent)
    requires forall s :: 0 <= s < |adjacent| ==> 0 <= adjacent[s] < |cells|
    ensures |r| == |cells|
    ensures forall j :: 0 <= j < |r| ==>
      r[j] == cells[j].(adjacentBombs := cells[j].adjacentBombs + (if j in adjacent then 1 else 0))
  {
    r := cells;
    for t := 0 to |adjacent|
      invariant |r| == |cells|
      invariant forall j :: 0 <= j < |r| ==>
        r[j] == cells[j].(adjacentBombs := cells[j].adjacentBombs + (if j in adjacent[..t] then 1 else 0))
    {
      var a := adjacent[t];
      assert a !in adjacent[..t];
      assert adjacent[..t + 1] == adjacent[..t] + [a];
      r := r[a := r[a].(adjacentBombs := r[a].adjacentBombs + 1)];
    }
    assert adjacent[..|adjacent|] == adjacent;
  }

  // The controller

  class GameController {
    var cells: seq<BoardCell>
    var board: Board
    var state: GameState

    ghost predicate Valid()
      reads this
    {
      Playable(board) && |cells| == Squares(board) && AdjacencyConsistent(board, cells)
    }

    /** `remainingCoveredCells`: covered cells, marked or not; bombs are not covered. */
    function RemainingCoveredCells(): (r: int)
      reads this
      ensures r == |Where(cells, CoveredCell)|
      ensures r == 0 <==> forall j :: 0 <= j < |cells| ==> !cells[j].IsCovered()
    {
      CountIsCardinality(cells, CoveredCell);
      CountIsZero(cells, CoveredCell);
      Count(cells, CoveredCell)
    }

    /** `remainingMarkers`: the bomb count less the marked cells, not clamped at zero. */
    function RemainingMarkers(): (r: int)
      reads this
      ensures r == board.bombs - |Where(cells, MarkedCell)|
    {
      CountIsCardinality(cells, MarkedCell);
      board.bombs - Count(cells, MarkedCell)
    }

    /** `init()`: the easy board, freshly dealt. */
    constructor ()
      ensures Valid() && board == Easy && state == Playing && NewGame(board, cells)
    {
      cells := [];
      board := Easy;
      state := Playing;
      new;
      Reset(None);
    }

    /** `reset(board:)`: optionally switch board, then deal a new game. */
    method Reset(newBoard: Option<Board>)
      requires Playable(if newBoard.Some? then newBoard.value else board)
      modifies this
      ensures board == (if newBoard.Some? then newBoard.value else old(board))
      ensures state == Playing && Valid() && NewGame(board, cells)
    {
      if newBoard.Some? {
        board := newBoard.value;
      }
      state := Playing;
      cells := seq(Squares(board), _ => DefaultCell);
      InsertBombs();
    }

    /** `nextFreeIndex()`: a non-bomb index among those the draw can return; the random draw is a nondeterministic choice. */
    method NextFreeIndex() returns (index: int)
      requires Squares(board) >= 1 && |cells| == Squares(board)
      requires Count(cells, BombCell) < DrawRange(Squares(board))
      ensures 0 <= index < DrawRange(Squares(board)) && !cells[index].IsBomb()
    {
      var bound := DrawRange(Squares(board));
      FreeIndexExists(cells, bound);
      index :| 0 <= index < bound && !cells[index].IsBomb();
    }

    /** `insertBombs()`: place `bombs` bombs one by one, each time adding one to the count of every neighbour. */
    method InsertBombs()
      requires Playable(board) && |cells| == Squares(board)
      requires forall i :: 0 <= i < |cells| ==> cells[i] == DefaultCell
      modifies this
      ensures board == old(board) && state == old(state)
      ensures NewGame(board, cells)
    {
      BlankIsDealt(board, cells);
      for k := 0 to board.bombs
        invariant board == old(board) && state == old(state)
        invariant Dealt(board, cells, k)
      {
        PlaceNextBomb(k);
      }
    }

    /** One round of `insertBombs()`: draw a free index, make it a bomb, and add one to the count of each of its neighbours. */
    method PlaceNextBomb(ghost k: int)
      requires Playable(board) && k < board.bombs && Dealt(board, cells, k)
      modifies this
      ensures board == old(board) && state == old(state)
      ensures Dealt(board, cells, k + 1)
      ensures exists p :: 0 <= p < DrawRange(Squares(board)) && p < |old(cells)| && !old(cells)[p].IsBomb()
                          && Placed(board, old(cells), cells, p)
    {
      assert board.rows > 0;
      var index := NextFreeIndex();
      ghost var before := cells;
      var adjacent := AdjacentIndices(board, index);
      NeighboursInRange(board, index);
      NeighboursAscending(board, index);
      forall s | 0 <= s < |adjacent|
        ensures 0 <= adjacent[s] < |cells|
      {
        assert adjacent[s] in adjacent;
      }
      cells := AddToCounts(cells[index := cells[index].(state := Bomb)], adjacent);
      assert Placed(board, before, cells, index);
      PlaceBomb(board, before, cells, index, k);
      assert before == old(cells);
    }

    /**
     * `reveal(at:)`, with a marked covered cell returning at once (see
     * GuardedRevealFrame and MarkedZeroCellsCycle); the measure is the number
     * of covered unmarked cells.
     */
    method Reveal(index: int) returns (revealed: seq<int>)
      requires Valid() && 0 <= index < |cells|
      modifies this
      decreases Count(cells, PendingCell), 1
      ensures Valid() && board == old(board)
      ensures Advanced(old(cells), cells)
      ensures var f := GuardedRevealFrame(board, old(cells), old(state), index);
        f.floods == [] ==> cells == f.cells && state == f.state && revealed == [index]
      ensures old(cells[index]).IsCovered() ==>
        state == (if Count(cells, CoveredCell) == 0 then Won else old(state))
      ensures !IsPending(cells[index])
      ensures index in revealed && StrictlyIncreasing(revealed)
      ensures forall j :: j in revealed ==> 0 <= j < |cells|
      ensures ChangedOnlyAt(old(cells), cells, revealed)
      ensures FloodedAround(board, old(cells), cells)
      ensures Reached(board, old(cells), cells, [index], revealed)
    {
      var cell := cells[index];
      if !cell.IsCovered() {
        if cell.IsBomb() {
          state := Lost;
        }
        RevealedAlone(board, old(cells), cells, index);
        return [index];
      }

      if cell.isMarked {
        CountIsZero(cells, CoveredCell);
        RevealedAlone(board, old(cells), cells, index);
        return [index];
      }

      revealed := Uncover(index);
    }

    /**
     * The part of `reveal(at:)` past its guards, on a covered unmarked cell:
     * turn it over, check for a win, and flood when it has no adjacent bombs.
     */
    method Uncover(index: int) returns (revealed: seq<int>)
      requires Valid() && 0 <= index < |cells| && IsPending(cells[index])
      modifies this
      decreases Count(cells, PendingCell), 0
      ensures Valid() && board == old(board)
      ensures Advanced(old(cells), cells)
      ensures var f := GuardedRevealFrame(board, old(cells), old(state), index);
        f.floods == [] ==> cells == f.cells && state == f.state && revealed == [index]
      ensures state == (if Count(cells, CoveredCell) == 0 then Won else old(state))
      ensures !IsPending(cells[index])
      ensures index in revealed && StrictlyIncreasing(revealed)
      ensures forall j :: j in revealed ==> 0 <= j < |cells|
      ensures ChangedOnlyAt(old(cells), cells, revealed)
      ensures FloodedAround(board, old(cells), cells)
      ensures Reached(board, old(cells), cells, [index], revealed)
    {
      var cell := cells[index];
      CountUpdate(cells, index, cell.(state := Revealed), PendingCell);
      AdvancedKeeps(board, cells, cells[index := cell.(state := Revealed)]);
      cells := cells[index := cell.(state := Revealed)];

      if RemainingCoveredCells() == 0 {
        state := Won;
        RevealedAlone(board, old(cells), cells, index);
        return [index];
      }

      if cell.adjacentBombs != 0 {
        RevealedAlone(board, old(cells), cells, index);
        return [index];
      }

      ghost var first := cells;
      revealed := Flood(index);
      ChangedOnlyAtJoin(old(cells), first, cells, [index], revealed, revealed);
      FloodedAroundTarget(board, old(cells), first, cells, index);
      ReachedFlood(board, old(cells), first, cells, index, revealed);
    }

    /**
     * The tail of `reveal(at:)` once the cell at `index` is revealed and has
     * no adjacent bombs: reveal its neighbours, append `index`, and return the
     * distinct indices in ascending order.
     */
    method Flood(index: int) returns (revealed: seq<int>)
      requires Valid() && 0 <= index < |cells|
      requires cells[index].IsRevealed() && cells[index].adjacentBombs == 0
      requires Count(cells, CoveredCell) != 0
      modifies this
      decreases Count(cells, PendingCell), 3
      ensures Valid() && board == old(board)
      ensures Advanced(old(cells), cells)
      ensures state == (if Count(cells, CoveredCell) == 0 then Won else old(state))
      ensures Neighbours(board, index) == [] ==> cells == old(cells) && revealed == [index]
      ensures index in revealed && StrictlyIncreasing(revealed)
      ensures forall j :: j in revealed ==> 0 <= j < |cells|
      ensures ChangedOnlyAt(old(cells), cells, revealed)
      ensures FloodedAround(board, old(cells), cells) && Surrounded(board, cells, index)
      ensures Reached(board, old(cells), cells, Neighbours(board, index) + [index], revealed)
    {
      assert CountIsAccurate(board, cells, index);
      BombsAmongZero(cells, Neighbours(board, index));
      NeighboursInRange(board, index);
      var adjacent := AdjacentIndices(board, index);
      forall s | 0 <= s < |adjacent|
        ensures 0 <= adjacent[s] < |cells| && !cells[adjacent[s]].IsBomb()
      {
        assert adjacent[s] in adjacent;
      }
      var indices := RevealAll(adjacent);
      revealed := SortedUnique(indices + [index]);
      FloodResult(board, old(cells), cells, index, adjacent, indices, revealed);
    }

    /** `adjacentIndices(for:).flatMap { reveal(at: $0) }`: reveal each index in turn and concatenate what the calls return. */
    method RevealAll(adjacent: seq<int>) returns (indices: seq<int>)
      requires Valid()
      requires forall s :: 0 <= s < |adjacent| ==> 0 <= adjacent[s] < |cells| && !cells[adjacent[s]].IsBomb()
      requires Count(cells, CoveredCell) != 0
      modifies this
      decreases Count(cells, PendingCell), 2
      ensures Valid() && board == old(board)
      ensures Advanced(old(cells), cells)
      ensures state == (if Count(cells, CoveredCell) == 0 then Won else old(state))
      ensures adjacent == [] ==> indices == [] && cells == old(cells)
      ensures forall s :: 0 <= s < |adjacent| ==> !IsPending(cells[adjacent[s]])
      ensures forall x :: x in indices ==> 0 <= x < |cells|
      ensures ChangedOnlyAt(old(cells), cells, indices)
      ensures FloodedAround(board, old(cells), cells)
      ensures Reached(board, old(cells), cells, adjacent, indices)
    {
      indices := [];
      ReachedNone(board, cells, cells, adjacent);
      for t := 0 to |adjacent|
        invariant Valid() && board == old(board)
        invariant Count(cells, PendingCell) <= old(Count(cells, PendingCell))
        invariant state == (if Count(cells, CoveredCell) == 0 then Won else old(state))
        invariant t == 0 ==> indices == [] && cells == old(cells)
        invariant RevealedInTurn(board, old(cells), cells, adjacent, t, indices)
      {
        ghost var before := cells;
        var k := adjacent[t];
        if cells[k].IsCovered() {
          CountIsZero(cells, CoveredCell);
        }
        var r := Reveal(k);
        AdvancedKeeps(board, before, cells);
        RevealedInTurnStep(board, old(cells), before, cells, adjacent, t, indices, r);
        indices := indices + r;
      }
    }

    /** `mark(at:)`: flip the mark of a cell that is not revealed. */
    method Mark(index: int)
      requires Valid() && 0 <= index < |cells|
      modifies this
      ensures Valid() && board == old(board) && state == old(state)
      ensures cells == MarkToggled(old(cells), index)
    {
      if cells[index].IsRevealed() {
        return;
      }
      ConsistentSameBombs(board, cells, cells[index := cells[index].(isMarked := !cells[index].isMarked)]);
      cells := cells[index := cells[index].(isMarked := !cells[index].isMarked)];
    }
  }

  lemma {:induction false} NoBombsAmong(cells: seq<BoardCell>, indices: seq<int>)
    requires forall i :: 0 <= i < |cells| ==> !cells[i].IsBomb()
    ensures BombsAmong(cells, indices) == 0
  {
    if indices != [] {
      NoBombsAmong(cells, indices[1..]);
    }
  }

}

/**
 * The cell value of the game (Minesweeper/BoardCell.swift). Being a bomb is
 * one of the three states, and the player's mark is a separate flag, so a
 * bomb cell can be marked and is never "covered".
 */
module BoardCells {
  datatype CellState = Covered | Revealed | Bomb

  datatype BoardCell = BoardCell(state: CellState, adjacentBombs: int, isMarked: bool) {
    predicate CanReveal() {
      state == Covered || state == Bomb
    }

    predicate IsCovered() {
      state == Covered
    }

    predicate IsBomb() {
      state == Bomb
    }

    predicate IsRevealed() {
      state == Revealed
    }
  }

  /** `BoardCell()`: every stored property at its declared default. */
  const DefaultCell := BoardCell(Covered, 0, false)

  lemma DefaultCellIsBlank()
    ensures DefaultCell.IsCovered() && DefaultCell.adjacentBombs == 0 && !DefaultCell.isMarked
  {
  }

  /** Exactly one of the three state predicates holds. */
  lemma ExactlyOneState(c: BoardCell)
    ensures c.IsCovered() || c.IsBomb() || c.IsRevealed()
    ensures !(c.IsCovered() && c.IsBomb()) && !(c.IsCovered() && c.IsRevealed()) && !(c.IsBomb() && c.IsRevealed())
  {
  }

  /** A cell can be revealed iff it is not yet revealed; bombs included. */
  lemma CanRevealIffNotRevealed(c: BoardCell)
    ensures c.CanReveal() <==> !c.IsRevealed()
    ensures c.CanReveal() <==> c.IsCovered() || c.IsBomb()
  {
  }

  /** The mark is independent of the state: setting it changes neither the state nor the count, and covered and bomb cells alike may carry it. */
  lemma MarkIsIndependent(c: BoardCell, marked: bool)
    ensures c.(isMarked := marked).state == c.state
    ensures c.(isMarked := marked).adjacentBombs == c.adjacentBombs
    ensures c.(isMarked := marked).isMarked == marked
    ensures BoardCell(Bomb, c.adjacentBombs, true).IsBomb()
    ensures BoardCell(Covered, c.adjacentBombs, true).IsCovered()
  {
  }
}

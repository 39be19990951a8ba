/**
 * The older cell value (Minesweeper/GameCell.swift), which the game no longer
 * uses: here the mark is a fourth state rather than a separate flag.
 */
module GameCells {
  datatype GameCellState = Covered | Revealed | Bomb | Marked

  datatype GameCell = GameCell(state: GameCellState, adjacentBombs: int) {
    predicate CanReveal() {
      state == Covered || state == Bomb
    }

    predicate IsCovered() {
      state == Covered
    }

    predicate IsBomb() {
      state == Bomb
    }

    predicate IsRevealed() {
      state == Revealed
    }

    predicate IsMarked() {
      state == Marked
    }
  }

  /** `GameCell()`: covered, with no adjacent bombs. */
  const DefaultGameCell := GameCell(Covered, 0)

  lemma DefaultGameCellIsBlank()
    ensures DefaultGameCell.IsCovered() && DefaultGameCell.adjacentBombs == 0 && DefaultGameCell.CanReveal()
  {
  }

  /** Exactly one of the four state predicates holds. */
  lemma ExactlyOneGameState(c: GameCell)
    ensures c.IsCovered() || c.IsBomb() || c.IsRevealed() || c.IsMarked()
    ensures c.IsCovered() ==> !c.IsBomb() && !c.IsRevealed() && !c.IsMarked()
    ensures c.IsBomb() ==> !c.IsRevealed() && !c.IsMarked()
    ensures c.IsRevealed() ==> !c.IsMarked()
  {
  }

  /** Only covered and bomb cells can be revealed: marked and revealed ones cannot. */
  lemma GameCellCanRevealIff(c: GameCell)
    ensures c.CanReveal() <==> !c.IsRevealed() && !c.IsMarked()
  {
  }

  /** Marking is a state here, so a marked cell has forgotten whether it was a bomb. */
  lemma MarkedIsNotBomb(c: GameCell)
    ensures !(c.IsMarked() && c.IsBomb())
    ensures c.(state := Marked).IsMarked() && !c.(state := Marked).CanReveal()
  {
  }
}

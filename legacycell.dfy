/** The five cell states of the legacy grid (`game/cell.py`): a blocked site, a mine
    or a blank cell, each of the last two hidden or visible. A hidden cell can be
    opened, and both hidden states print alike, so the text of a grid does not give
    its mines away. */
module LegacyCell {

  datatype Cell = Blocked | InvisibleMine | InvisibleBlank | VisibleMine | VisibleBlank

  /** A mine, hidden or visible. */
  predicate IsMine(c: Cell)
  {
    c == InvisibleMine || c == VisibleMine
  }

  /** A cell already opened. */
  predicate IsVisible(c: Cell)
  {
    c == VisibleMine || c == VisibleBlank
  }

  /** `Cell.can_be_opened`: a cell can be opened exactly when it is neither blocked
      nor visible. */
  function CanBeOpened(c: Cell): (b: bool)
    ensures b <==> c != Blocked && !IsVisible(c)
  {
    c == InvisibleBlank || c == InvisibleMine
  }

  /** `Cell.__str__`: one character per cell; `#` for a hidden cell of either kind,
      and a character of its own for each other state. (The `?` fallback of the
      source cannot be reached: those are all the states.) */
  function Show(c: Cell): (s: string)
    ensures |s| == 1
  {
    match c
    case Blocked => "B"
    case InvisibleMine => "#"
    case InvisibleBlank => "#"
    case VisibleMine => "X"
    case VisibleBlank => "O"
  }

  /** A cell can be opened exactly when it prints as `#`. */
  lemma OpenableIffHash(c: Cell)
    ensures CanBeOpened(c) <==> Show(c) == "#"
  {
  }

  /** Two cells print alike exactly when they are the same state or both hidden: the
      text tells every state apart except a hidden mine from a hidden blank. */
  lemma ShowHidesOnlyMines(c: Cell, d: Cell)
    ensures Show(c) == Show(d) <==> c == d || (CanBeOpened(c) && CanBeOpened(d))
  {
  }
}

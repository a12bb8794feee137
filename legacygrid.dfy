/** The legacy static grid of `game/minesweeper.py`: a list of rows of five-state
    cells, read, opened and closed one cell at a time after a bounds check that
    raises `ValueError`, and printed one symbol and a space per cell, a line per
    row. The file declares its own copy of the cell states, which prints a visible
    mine as `!`. The model reads both copies as the one enumeration `LegacyCell`,
    so a cell the seeders write and a cell the grid clears, opens or closes compare
    equal when their names agree. */
module LegacyGrid {
  import opened Errors
  import opened Matrices
  import opened LegacyCell

  /** `Cell.__str__` of `game/minesweeper.py`: as in `game/cell.py`, except that a
      visible mine prints as `!`. */
  function Symbol(c: Cell): (s: string)
    ensures |s| == 1
    ensures c != VisibleMine ==> s == Show(c)
    ensures c == VisibleMine ==> s != Show(c) && s != Show(VisibleBlank) && s != Show(Blocked) && s != Show(InvisibleMine)
  {
    if c == VisibleMine then "!" else Show(c)
  }

  /** The length of `range(n)` and of `[x] * n`: no entry for a negative `n`. */
  function Extent(n: int): (k: nat)
    ensures n >= 0 ==> k == n
    ensures n < 0 ==> k == 0
  {
    if n < 0 then 0 else n
  }

  /** The state `open` leaves a cell in: a hidden cell becomes visible, keeping what
      it holds; any other cell is left as it is. */
  function Opened(c: Cell): (d: Cell)
    ensures CanBeOpened(c) ==> IsVisible(d) && (IsMine(d) <==> IsMine(c))
    ensures !CanBeOpened(c) ==> d == c
  {
    match c
    case InvisibleMine => VisibleMine
    case InvisibleBlank => VisibleBlank
    case _ => c
  }

  /** What `open` returns: `False` on a hidden mine, `True` on a hidden blank, `None`
      on any other cell. */
  function OpenReply(c: Cell): (r: Option<bool>)
    ensures r.None? <==> !CanBeOpened(c)
    ensures r.Some? ==> (r.value <==> !IsMine(c))
  {
    match c
    case InvisibleMine => Some(false)
    case InvisibleBlank => Some(true)
    case _ => None
  }

  /** The state `close` leaves a cell in: a visible cell is hidden again, keeping
      what it holds; any other cell is left as it is. */
  function Closed(c: Cell): (d: Cell)
    ensures IsVisible(c) ==> CanBeOpened(d) && (IsMine(d) <==> IsMine(c))
    ensures !IsVisible(c) ==> d == c
  {
    match c
    case VisibleMine => InvisibleMine
    case VisibleBlank => InvisibleBlank
    case _ => c
  }

  /** Closing an opened cell gives back the cell, unless it was visible already. */
  lemma CloseAfterOpen(c: Cell)
    requires !IsVisible(c)
    ensures Closed(Opened(c)) == c
  {
  }

  /** Opening a closed cell gives back the cell, unless it could be opened already. */
  lemma OpenAfterClose(c: Cell)
    requires !CanBeOpened(c)
    ensures Opened(Closed(c)) == c
  {
  }

  /** `_validate(row, col)`: a `ValueError` about the row when the row lies outside
      the shape, else about the column when the column does, else nothing. An error
      exactly when the position is off the grid. */
  function Validate(row: int, col: int, rows: int, cols: int): (r: Result<()>)
    ensures r.Ok? <==> InBounds((row, col), Extent(rows), Extent(cols))
    ensures !(0 <= row < rows) ==> r == Err(RowError)
    ensures 0 <= row < rows && !(0 <= col < cols) ==> r == Err(ColError)
  {
    if row < 0 || row >= rows then Err(RowError)
    else if col < 0 || col >= cols then Err(ColError)
    else Ok(())
  }

  const RowError := "row selection should be within the range for current grid"
  const ColError := "col selection should be within the range for current grid"

  /** The text of one row: each cell's symbol followed by a space. */
  function RowText(row: seq<Cell>): string
  {
    if |row| == 0 then "" else RowText(row[..|row| - 1]) + Symbol(row[|row| - 1]) + " "
  }

  /** `Grid.__str__`: the text of each row followed by a newline. */
  function Text(m: seq<seq<Cell>>): (s: string)
    ensures |s| == 0 <==> |m| == 0
    ensures |m| > 0 ==> s[|s| - 1] == '\n'
  {
    if |m| == 0 then "" else Text(m[..|m| - 1]) + RowText(m[|m| - 1]) + "\n"
  }

  /** A row's text has two characters per cell: its symbol, then a space. */
  lemma {:induction false} RowTextAt(row: seq<Cell>)
    ensures |RowText(row)| == 2 * |row|
    ensures forall j :: 0 <= j < |row| ==> RowText(row)[2 * j] == Symbol(row[j])[0] && RowText(row)[2 * j + 1] == ' '
    decreases |row|
  {
    if |row| > 0 {
      var init := row[..|row| - 1];
      RowTextAt(init);
      assert forall j :: 0 <= j < |init| ==> init[j] == row[j];
    }
  }

  /** The number of characters a row of `cols` cells takes, its newline included. */
  function Width(cols: nat): nat
  {
    2 * cols + 1
  }

  /** Where the symbol of cell `(i, j)` stands in the text of a grid of `cols`
      columns (`j == cols` for the newline ending row `i`). */
  function Offset(i: nat, j: nat, cols: nat): nat
  {
    i * Width(cols) + 2 * j
  }

  /** The text of a `rows` by `cols` grid has `Width(cols)` characters per row. */
  lemma {:induction false} TextLength(m: seq<seq<Cell>>, rows: nat, cols: nat)
    requires IsMatrix(m, rows, cols)
    ensures |Text(m)| == rows * Width(cols)
    decreases rows
  {
    if rows > 0 {
      var init := m[..rows - 1];
      assert IsMatrix(init, rows - 1, cols);
      TextLength(init, rows - 1, cols);
      RowTextAt(m[rows - 1]);
      assert |Text(m)| == |Text(init)| + Width(cols);
      NextRow(rows, Width(cols));
    }
  }

  lemma NextRow(n: nat, w: nat)
    requires n > 0
    ensures (n - 1) * w + w == n * w
  {
  }

  /** In the text of a `rows` by `cols` grid, the symbol of cell `(i, j)` stands at
      `Offset(i, j, cols)`, followed by a space. */
  lemma {:induction false} TextAt(m: seq<seq<Cell>>, rows: nat, cols: nat, i: nat, j: nat)
    requires IsMatrix(m, rows, cols) && i < rows && j < cols
    ensures Offset(i, j, cols) + 1 < |Text(m)|
    ensures Text(m)[Offset(i, j, cols)] == Symbol(m[i][j])[0] && Text(m)[Offset(i, j, cols) + 1] == ' '
    decreases rows
  {
    var init := m[..rows - 1];
    TextLength(init, rows - 1, cols);
    TextLength(m, rows, cols);
    RowTextAt(m[rows - 1]);
    assert Text(m) == Text(init) + RowText(m[rows - 1]) + "\n";
    if i < rows - 1 {
      TextAt(init, rows - 1, cols, i, j);
      assert init[i] == m[i];
    } else {
      assert Offset(i, j, cols) == |Text(init)| + 2 * j;
    }
  }

  /** In the text of a `rows` by `cols` grid, row `i` ends with a newline at
      `Offset(i, cols, cols)`. */
  lemma {:induction false} NewlineAt(m: seq<seq<Cell>>, rows: nat, cols: nat, i: nat)
    requires IsMatrix(m, rows, cols) && i < rows
    ensures Offset(i, cols, cols) < |Text(m)| && Text(m)[Offset(i, cols, cols)] == '\n'
    decreases rows
  {
    var init := m[..rows - 1];
    TextLength(init, rows - 1, cols);
    TextLength(m, rows, cols);
    RowTextAt(m[rows - 1]);
    assert Text(m) == Text(init) + RowText(m[rows - 1]) + "\n";
    if i < rows - 1 {
      NewlineAt(init, rows - 1, cols, i);
    } else {
      assert Offset(i, cols, cols) == |Text(init)| + 2 * cols;
    }
  }

  /** The grid of `game/minesweeper.py`. `rows` and `cols` are its `shape`. */
  class Grid {
    const rows: int
    const cols: int
    var states: seq<seq<Cell>>

    /** The cells have the grid's shape (none along a negative extent). */
    ghost predicate Valid()
      reads this
    {
      IsMatrix(states, Extent(rows), Extent(cols))
    }

    /** `Grid(shape)` with the default seeder, whose `load_mines` does nothing: the
        cleared grid. */
    constructor (rows: int, cols: int)
      ensures Valid() && this.rows == rows && this.cols == cols
      ensures states == Filled(Extent(rows), Extent(cols), InvisibleBlank)
    {
      this.rows := rows;
      this.cols := cols;
      new;
      ClearGrid();
    }

    /** `clear_grid`: `shape[0]` rows of `shape[1]` hidden blank cells. */
    method ClearGrid()
      modifies this
      ensures Valid() && states == Filled(Extent(rows), Extent(cols), InvisibleBlank)
    {
      var r := Extent(rows);
      var c := Extent(cols);
      states := seq(r, _ => seq(c, _ => InvisibleBlank));
      MatrixExt(states, Filled(r, c, InvisibleBlank), r, c);
    }

    /** `get_state(row, col)`: the cell at a position on the grid, the `ValueError` of
        the bounds check elsewhere. */
    function GetState(row: int, col: int): (r: Result<Cell>)
      reads this
      requires Valid()
      ensures r.Ok? <==> InBounds((row, col), Extent(rows), Extent(cols))
      ensures r.Err? ==> r.message == Validate(row, col, rows, cols).message
      ensures r.Ok? ==> r.value == states[row][col]
    {
      var v := Validate(row, col, rows, cols);
      if v.Err? then Err(v.message) else Ok(states[row][col])
    }

    /** `open(row, col)`: off the grid, the `ValueError` and nothing changes; on it,
        the addressed cell becomes `Opened` of itself, no other cell changes, and the
        reply says whether a hidden blank (`True`) or mine (`False`) was opened. */
    method Open(row: int, col: int) returns (r: Result<Option<bool>>)
      requires Valid()
      modifies this
      ensures Valid()
      ensures r.Ok? <==> InBounds((row, col), Extent(rows), Extent(cols))
      ensures r.Err? ==> r.message == Validate(row, col, rows, cols).message && states == old(states)
      ensures r.Ok? ==> states == SetEntry(old(states), Extent(rows), Extent(cols), (row, col), Opened(old(states)[row][col]))
      ensures r.Ok? ==> r.value == OpenReply(old(states)[row][col])
    {
      var v := Validate(row, col, rows, cols);
      if v.Err? {
        return Err(v.message);
      }
      if states[row][col] == InvisibleMine {
        states := states[row := states[row][col := VisibleMine]];
        return Ok(Some(false));
      }
      if states[row][col] == InvisibleBlank {
        states := states[row := states[row][col := VisibleBlank]];
        return Ok(Some(true));
      }
      SetEntrySame(states, Extent(rows), Extent(cols), (row, col));
      r := Ok(None);
    }

    /** `close(row, col)`: off the grid, the `ValueError` and nothing changes; on it,
        the addressed cell becomes `Closed` of itself and no other cell changes. */
    method Close(row: int, col: int) returns (r: Result<()>)
      requires Valid()
      modifies this
      ensures Valid()
      ensures r.Ok? <==> InBounds((row, col), Extent(rows), Extent(cols))
      ensures r.Err? ==> r.message == Validate(row, col, rows, cols).message && states == old(states)
      ensures r.Ok? ==> states == SetEntry(old(states), Extent(rows), Extent(cols), (row, col), Closed(old(states)[row][col]))
    {
      var v := Validate(row, col, rows, cols);
      if v.Err? {
        return Err(v.message);
      }
      if states[row][col] == VisibleMine {
        states := states[row := states[row][col := InvisibleMine]];
      }
      if states[row][col] == VisibleBlank {
        states := states[row := states[row][col := InvisibleBlank]];
      }
      if !IsVisible(old(states)[row][col]) {
        SetEntrySame(states, Extent(rows), Extent(cols), (row, col));
      }
      r := Ok(());
    }

    /** `__str__`: the rows in order, each cell's symbol and a space, a newline after
        each row. */
    method Render() returns (s: string)
      requires Valid()
      ensures s == Text(states)
    {
      var m := states;
      s := "";
      var i := 0;
      while i < |m|
        invariant 0 <= i <= |m|
        invariant s == Text(m[..i])
      {
        var row := m[i];
        var j := 0;
        while j < |row|
          invariant 0 <= j <= |row|
          invariant s == Text(m[..i]) + RowText(row[..j])
        {
          s := s + Symbol(row[j]) + " ";
          assert row[..j + 1][..j] == row[..j];
          j := j + 1;
        }
        assert row[..j] == row;
        s := s + "\n";
        assert m[..i + 1][..i] == m[..i];
        i := i + 1;
      }
      assert m[..i] == m;
    }
  }

  /** Opening then closing a cell that is not visible leaves the grid as it was;
      blocked cells are fixed by both. */
  lemma OpenCloseRestores(s: seq<seq<Cell>>, rows: nat, cols: nat, p: Pos)
    requires IsMatrix(s, rows, cols) && InBounds(p, rows, cols) && !IsVisible(s[p.0][p.1])
    ensures var t := SetEntry(s, rows, cols, p, Opened(s[p.0][p.1]));
            SetEntry(t, rows, cols, p, Closed(t[p.0][p.1])) == s
  {
    var t := SetEntry(s, rows, cols, p, Opened(s[p.0][p.1]));
    CloseAfterOpen(s[p.0][p.1]);
    MatrixExt(SetEntry(t, rows, cols, p, Closed(t[p.0][p.1])), s, rows, cols);
  }
}

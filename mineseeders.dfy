/** The seeders of the legacy grid (`game/mineseeders.py`). The base seeder leaves the
    grid alone; the random seeder turns hidden blank cells into blocked sites and then
    into hidden mines, drawing positions until it hits a blank cell, until the counts
    reach the requested (real) numbers; the checkerboard seeder overwrites every
    cell by a parity test. That test is written without parentheses, which gives no
    checkerboard: the seeder lays `CheckerCell`, the expression as written, and
    `IntendedCheckerCell` is the checkerboard it is named after. */
module MineSeeders {
  import opened Errors
  import opened Matrices
  import opened LegacyCell
  import opened LegacyGrid

  /** The seeders a grid can be built with. `Random` carries the numbers of mines,
      blocked sites and blank sites its constructor computed. */
  datatype Seeder = Base | Random(numMines: real, numBlocked: real, numBlank: real) | Checkerboard

  /** `total_spots`, the number of sites of the shape, as the real the ratios scale. */
  function Sites(rows: int, cols: int): real
  {
    (rows * cols) as real
  }

  /** `total_spots * ratio`: the (real) number of sites a ratio asks for. */
  function Share(rows: int, cols: int, ratio: real): real
  {
    Sites(rows, cols) * ratio
  }

  /** `RandomSeeder(shape, mine_ratio, blocked_ratio)`: the counts are the ratios of
      the number of sites; the assertion refuses a blank count outside
      `[0, total]`, which is the case exactly when the mines and blocked sites
      together are negative or more than the sites. */
  function NewRandomSeeder(rows: int, cols: int, mineRatio: real, blockedRatio: real): (r: Result<Seeder>)
    ensures r.Ok? <==> 0.0 <= Share(rows, cols, mineRatio) + Share(rows, cols, blockedRatio) <= Sites(rows, cols)
    ensures r.Ok? ==> r.value.Random? && r.value.numMines == Share(rows, cols, mineRatio)
                      && r.value.numBlocked == Share(rows, cols, blockedRatio)
  {
    var total := Sites(rows, cols);
    var numMines := Share(rows, cols, mineRatio);
    var numBlocked := Share(rows, cols, blockedRatio);
    var numBlank := total - numMines - numBlocked;
    if 0.0 <= numBlank <= total then Ok(Random(numMines, numBlocked, numBlank)) else Err("AssertionError")
  }

  /** On a grid with sites, the seeder is accepted exactly when the two ratios add up
      to a fraction in `[0, 1]`. */
  lemma RandomSeederRatios(rows: int, cols: int, mineRatio: real, blockedRatio: real)
    requires rows * cols > 0
    ensures NewRandomSeeder(rows, cols, mineRatio, blockedRatio).Ok? <==> 0.0 <= mineRatio + blockedRatio <= 1.0
  {
    var total := Sites(rows, cols);
    assert total > 0.0;
    var s := mineRatio + blockedRatio;
    assert Share(rows, cols, mineRatio) + Share(rows, cols, blockedRatio) == total * s by {
      ShareSum(total, mineRatio, blockedRatio);
    }
    ScaleBounds(total, s);
    var x := total * s;
    assert NewRandomSeeder(rows, cols, mineRatio, blockedRatio).Ok? <==> 0.0 <= x <= total;
    assert 0.0 <= x <= total <==> 0.0 <= s <= 1.0;
  }

  lemma ShareSum(t: real, a: real, b: real)
    ensures t * a + t * b == t * (a + b)
  {
  }

  /** Scaling by a positive factor keeps a value within `[0, 1]` exactly when it
      keeps the scaled value within `[0, factor]`. */
  lemma ScaleBounds(t: real, s: real)
    requires t > 0.0
    ensures 0.0 <= t * s <==> 0.0 <= s
    ensures t * s <= t <==> s <= 1.0
  {
    if s < 0.0 {
      assert t * (0.0 - s) > 0.0;
    }
    if s > 1.0 {
      assert t * s - t == t * (s - 1.0);
    } else {
      assert t - t * s == t * (1.0 - s);
    }
  }

  /** How many cells a `while converted < x` loop converts (one per turn): the
      smallest whole number not below `x`. */
  function Needed(x: real): (n: nat)
    ensures n as real >= x
    ensures n == 0 || ((n - 1) as real) < x
  {
    if x <= 0.0 then 0 else -((-x).Floor)
  }

  /** Base `Seeder.load_mines`: nothing happens to the grid. */
  method BaseLoad(grid: Grid)
    requires grid.Valid()
    ensures grid.states == old(grid.states)
  {
  }

  /** `RandomSeeder.load_mines`: the grid is cleared, then `Needed(numBlocked)` blank
      cells become blocked and `Needed(numMines)` more blank cells become hidden
      mines; every other cell stays a hidden blank. A draw that misses a blank cell
      changes nothing and is drawn again, so each turn is modelled by the blank cell
      it ends on; the loops end only when there are enough blank cells, which is
      what the precondition asks. */
  method RandomLoad(grid: Grid, numMines: real, numBlocked: real)
    requires grid.Valid()
    requires Needed(numBlocked) + Needed(numMines) <= Extent(grid.rows) * Extent(grid.cols)
    modifies grid
    ensures grid.Valid()
    ensures Count(grid.states, Blocked) == Needed(numBlocked)
    ensures Count(grid.states, InvisibleMine) == Needed(numMines)
    ensures Count(grid.states, InvisibleBlank) == Extent(grid.rows) * Extent(grid.cols) - Needed(numBlocked) - Needed(numMines)
    ensures forall i, j :: 0 <= i < Extent(grid.rows) && 0 <= j < Extent(grid.cols) ==>
              grid.states[i][j] == Blocked || grid.states[i][j] == InvisibleMine || grid.states[i][j] == InvisibleBlank
  {
    grid.ClearGrid();
    var rows, cols := Extent(grid.rows), Extent(grid.cols);
    ClearedCounts(grid.states, rows, cols);
    var blocked := 0;
    while (blocked as real) < numBlocked
      invariant grid.Valid() && blocked <= Needed(numBlocked)
      invariant Count(grid.states, Blocked) == blocked && Count(grid.states, InvisibleMine) == 0
      invariant Count(grid.states, InvisibleBlank) == rows * cols - blocked
      invariant Hidden(grid.states, rows, cols)
      decreases Needed(numBlocked) - blocked
    {
      grid.states := Convert(grid.states, rows, cols, Blocked);
      blocked := blocked + 1;
    }
    var mined := 0;
    while (mined as real) < numMines
      invariant grid.Valid() && mined <= Needed(numMines)
      invariant Count(grid.states, Blocked) == Needed(numBlocked) && Count(grid.states, InvisibleMine) == mined
      invariant Count(grid.states, InvisibleBlank) == rows * cols - Needed(numBlocked) - mined
      invariant Hidden(grid.states, rows, cols)
      decreases Needed(numMines) - mined
    {
      grid.states := Convert(grid.states, rows, cols, InvisibleMine);
      mined := mined + 1;
    }
  }

  /** Every cell is blocked, a hidden mine or a hidden blank. */
  ghost predicate Hidden(s: seq<seq<Cell>>, rows: nat, cols: nat)
    requires IsMatrix(s, rows, cols)
  {
    forall i, j :: 0 <= i < rows && 0 <= j < cols ==> s[i][j] == Blocked || s[i][j] == InvisibleMine || s[i][j] == InvisibleBlank
  }

  /** The cleared grid holds only hidden blanks. */
  lemma ClearedCounts(s: seq<seq<Cell>>, rows: nat, cols: nat)
    requires s == Filled(rows, cols, InvisibleBlank)
    ensures Count(s, InvisibleBlank) == rows * cols && Count(s, Blocked) == 0 && Count(s, InvisibleMine) == 0
    ensures Hidden(s, rows, cols)
  {
    CountBound(s, rows, cols, InvisibleBlank);
    CountBound(s, rows, cols, Blocked);
    CountBound(s, rows, cols, InvisibleMine);
  }

  /** One successful draw of the random seeder: some hidden blank cell becomes `v`.
      The other cells do not change, one blank fewer and one `v` more. */
  method Convert(s: seq<seq<Cell>>, rows: nat, cols: nat, v: Cell) returns (s': seq<seq<Cell>>)
    requires IsMatrix(s, rows, cols) && Count(s, InvisibleBlank) > 0 && v != InvisibleBlank
    ensures IsMatrix(s', rows, cols)
    ensures exists p :: InBounds(p, rows, cols) && s[p.0][p.1] == InvisibleBlank && s' == SetEntry(s, rows, cols, p, v)
    ensures Count(s', InvisibleBlank) == Count(s, InvisibleBlank) - 1 && Count(s', v) == Count(s, v) + 1
    ensures forall x :: x != InvisibleBlank && x != v ==> Count(s', x) == Count(s, x)
    ensures Hidden(s, rows, cols) && (v == Blocked || v == InvisibleMine) ==> Hidden(s', rows, cols)
  {
    ghost var w := CountWitness(s, rows, cols, InvisibleBlank);
    var r, c :| 0 <= r < rows && 0 <= c < cols && s[r][c] == InvisibleBlank;
    s' := s[r := s[r][c := v]];
    assert s' == SetEntry(s, rows, cols, (r, c), v);
    forall x
      ensures Count(s', x) == Count(s, x) - (if x == InvisibleBlank then 1 else 0) + (if x == v then 1 else 0)
    {
      CountUpdate(s, r, c, v, x);
    }
  }

  /** `CheckerboardSeeder.load_mines` as written: `row + col % 2 == 0` parses as
      `row + (col % 2) == 0`, and with non-negative indices that holds only on the
      first row, at even columns. */
  function CheckerCell(row: nat, col: nat): (c: Cell)
    ensures c == InvisibleBlank <==> row == 0 && col % 2 == 0
    ensures c != InvisibleBlank ==> c == InvisibleMine
  {
    if row + col % 2 == 0 then InvisibleBlank else InvisibleMine
  }

  /** The checkerboard the seeder is named after: blank exactly where the row and the
      column have an even sum. */
  function IntendedCheckerCell(row: nat, col: nat): (c: Cell)
    ensures c == InvisibleBlank <==> (row + col) % 2 == 0
    ensures c != InvisibleBlank ==> c == InvisibleMine
  {
    if (row + col) % 2 == 0 then InvisibleBlank else InvisibleMine
  }

  /** The intended pattern alternates: a cell and the next one along a row or a column
      never agree. */
  lemma IntendedCheckerAlternates(row: nat, col: nat)
    ensures IntendedCheckerCell(row, col) != IntendedCheckerCell(row + 1, col)
    ensures IntendedCheckerCell(row, col) != IntendedCheckerCell(row, col + 1)
  {
    assert (row + 1 + col) % 2 != (row + col) % 2;
    assert (row + col + 1) % 2 != (row + col) % 2;
  }

  /** The pattern as written does not alternate: cells (1, 0) and (1, 1), next to each
      other on the second row, are both mines. */
  lemma CheckerboardAsWrittenDoesNotAlternate()
    ensures CheckerCell(1, 0) == CheckerCell(1, 1) == InvisibleMine
    ensures IntendedCheckerCell(1, 0) != IntendedCheckerCell(1, 1)
  {
    IntendedCheckerAlternates(1, 0);
  }

  /** `CheckerboardSeeder.load_mines`: every cell of the grid is overwritten, row by
      row, with the pattern as written, `CheckerCell`: blank at the even columns of
      the first row, a mine everywhere else. */
  method CheckerboardLoad(grid: Grid)
    requires grid.Valid()
    modifies grid
    ensures grid.Valid()
    ensures forall i, j :: 0 <= i < Extent(grid.rows) && 0 <= j < Extent(grid.cols) ==> grid.states[i][j] == CheckerCell(i, j)
  {
    var rows, cols := Extent(grid.rows), Extent(grid.cols);
    for row := 0 to rows
      invariant grid.Valid()
      invariant forall i, j :: 0 <= i < row && 0 <= j < cols ==> grid.states[i][j] == CheckerCell(i, j)
    {
      for col := 0 to cols
        invariant grid.Valid()
        invariant forall i, j :: 0 <= i < row && 0 <= j < cols ==> grid.states[i][j] == CheckerCell(i, j)
        invariant forall j :: 0 <= j < col ==> grid.states[row][j] == CheckerCell(row, j)
      {
        grid.states := grid.states[row := grid.states[row][col := CheckerCell(row, col)]];
      }
    }
  }

  /** Whether a seeder's `load_mines` ends on a grid of this shape: the random
      seeder's loops need enough blank cells for both counts. */
  predicate Finishes(seeder: Seeder, rows: int, cols: int)
  {
    seeder.Random? ==> Needed(seeder.numBlocked) + Needed(seeder.numMines) <= Extent(rows) * Extent(cols)
  }

  /** The constructor's assertion admits counts whose loops cannot end: on a grid of
      one row of three cells, ratios of one half each pass it (no blank cell is
      left, which is allowed), yet the loops ask for two blocked sites and two mines
      on three cells. */
  lemma SeederAcceptsUnfillable()
    ensures NewRandomSeeder(1, 3, 0.5, 0.5).Ok?
    ensures !Finishes(NewRandomSeeder(1, 3, 0.5, 0.5).value, 1, 3)
  {
    var s := NewRandomSeeder(1, 3, 0.5, 0.5).value;
    assert s.numBlocked == 1.5 && s.numMines == 1.5;
    assert Needed(1.5) == 2;
  }

  /** The check the assertion evidently means: the whole numbers of blocked sites
      and mines the loops will place fit on the grid. A seeder it accepts always
      finishes, and it accepts every seeder that does. */
  function NewFillableSeeder(rows: int, cols: int, mineRatio: real, blockedRatio: real): (r: Result<Seeder>)
    ensures r.Ok? ==> Finishes(r.value, rows, cols) && r.value.Random?
    ensures r.Ok? ==> r == NewRandomSeeder(rows, cols, mineRatio, blockedRatio)
    ensures NewRandomSeeder(rows, cols, mineRatio, blockedRatio).Ok? && Finishes(NewRandomSeeder(rows, cols, mineRatio, blockedRatio).value, rows, cols)
            ==> r.Ok?
  {
    var r := NewRandomSeeder(rows, cols, mineRatio, blockedRatio);
    if r.Ok? && Finishes(r.value, rows, cols) then r else Err("AssertionError")
  }

  /** `Grid(shape, seeder)`: the grid is cleared, then the seeder's `load_mines`. */
  method NewGrid(rows: int, cols: int, seeder: Seeder) returns (g: Grid)
    requires Finishes(seeder, rows, cols)
    ensures fresh(g) && g.Valid() && g.rows == rows && g.cols == cols
    ensures seeder.Base? ==> g.states == Filled(Extent(rows), Extent(cols), InvisibleBlank)
    ensures seeder.Random? ==> Count(g.states, Blocked) == Needed(seeder.numBlocked)
                               && Count(g.states, InvisibleMine) == Needed(seeder.numMines)
                               && Hidden(g.states, Extent(rows), Extent(cols))
    ensures seeder.Checkerboard? ==>
              forall i, j :: 0 <= i < Extent(rows) && 0 <= j < Extent(cols) ==> g.states[i][j] == CheckerCell(i, j)
  {
    g := new Grid(rows, cols);
    match seeder
    case Base =>
      BaseLoad(g);
    case Random(numMines, numBlocked, _) =>
      RandomLoad(g, numMines, numBlocked);
    case Checkerboard =>
      CheckerboardLoad(g);
  }
}

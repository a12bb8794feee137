/** The square board engine of `minesweeper/boards.py`: the grid of open and flag
    masks (`SquareGrid`) and the board that owns the mine layout and runs the
    game moves on it (`SquareBoard`). */
module Boards {
  import opened Errors
  import opened Matrices
  import opened Board
  import opened Flood
  import opened Moves

  /** The state arrays of the square grid: which cells are open, which are flagged,
      and the proximity matrix the grid was filled with. */
  class SquareGrid {
    const rows: nat
    const cols: nat
    const open: array2<bool>
    const flags: array2<bool>
    var proximity: seq<seq<int>>

    /** The masks have the grid's shape and no cell is both open and flagged. */
    ghost predicate Valid()
      reads this, open, flags
    {
      open.Length0 == rows && open.Length1 == cols && flags.Length0 == rows && flags.Length1 == cols
      && open != flags && IsMatrix(proximity, rows, cols)
      && forall i, j :: 0 <= i < rows && 0 <= j < cols ==> !(open[i, j] && flags[i, j])
    }

    /** The state arrays `resize` allocates: every cell closed and unflagged, proximity 0. */
    constructor (rows: nat, cols: nat)
      ensures Valid() && this.rows == rows && this.cols == cols
      ensures fresh(open) && fresh(flags)
      ensures forall i, j :: 0 <= i < rows && 0 <= j < cols ==> !open[i, j] && !flags[i, j]
      ensures proximity == Filled(rows, cols, 0)
    {
      this.rows := rows;
      this.cols := cols;
      open := new bool[rows, cols]((i, j) => false);
      flags := new bool[rows, cols]((i, j) => false);
      proximity := Filled(rows, cols, 0);
    }

    /** `select`: the cell becomes open unless it is flagged; nothing else changes. */
    method Select(p: Pos)
      requires Valid() && InBounds(p, rows, cols)
      modifies open
      ensures Valid()
      ensures open[p.0, p.1] == !flags[p.0, p.1]
      ensures forall i, j :: 0 <= i < rows && 0 <= j < cols && (i, j) != p ==> open[i, j] == old(open[i, j])
      ensures Matrix(open) == SetEntry(old(Matrix(open)), rows, cols, p, !flags[p.0, p.1])
    {
      ghost var before := Matrix(open);
      open[p.0, p.1] := !flags[p.0, p.1];
      MatrixExt(Matrix(open), SetEntry(before, rows, cols, p, !flags[p.0, p.1]), rows, cols);
    }

    /** `toggle_flag`: an open cell loses its flag (it has none), a closed cell has its
        flag toggled; the open mask and other cells are untouched. */
    method ToggleFlag(p: Pos)
      requires Valid() && InBounds(p, rows, cols)
      modifies flags
      ensures Valid()
      ensures flags[p.0, p.1] == (!open[p.0, p.1] && !old(flags[p.0, p.1]))
      ensures forall i, j :: 0 <= i < rows && 0 <= j < cols && (i, j) != p ==> flags[i, j] == old(flags[i, j])
    {
      flags[p.0, p.1] := !open[p.0, p.1] && !flags[p.0, p.1];
    }

    /** `refill`: asserts the proximity shape, then installs the proximity, clears every
        flag and opens exactly the cells of `openLayout` (none without one). A layout of
        the wrong shape fails the mask assignment after the clearing. */
    method Refill(prox: seq<seq<int>>, openLayout: Option<seq<seq<bool>>>) returns (r: Result<()>)
      requires Valid()
      modifies this, open, flags
      ensures Valid()
      ensures r.Ok? <==> IsMatrix(prox, rows, cols) && (openLayout.Some? ==> IsMatrix(openLayout.value, rows, cols))
      ensures !IsMatrix(prox, rows, cols) ==> proximity == old(proximity) && unchanged(open, flags)
      ensures IsMatrix(prox, rows, cols) ==>
                proximity == prox
                && (forall i, j :: 0 <= i < rows && 0 <= j < cols ==> !flags[i, j])
                && forall i, j :: 0 <= i < rows && 0 <= j < cols ==>
                     open[i, j] == (r.Ok? && openLayout.Some? && openLayout.value[i][j])
    ensures IsMatrix(prox, rows, cols) ==> Matrix(flags) == Filled(rows, cols, false)
    ensures IsMatrix(prox, rows, cols) && openLayout.None? ==> Matrix(open) == Filled(rows, cols, false)
    {
      if !IsMatrix(prox, rows, cols) {
        return Err("AssertionError");
      }
      proximity := prox;
      forall i, j | 0 <= i < rows && 0 <= j < cols {
        flags[i, j] := false;
      }
      forall i, j | 0 <= i < rows && 0 <= j < cols {
        open[i, j] := false;
      }
      MatrixExt(Matrix(flags), Filled(rows, cols, false), rows, cols);
      if openLayout.Some? {
        var layout := openLayout.value;
        if !IsMatrix(layout, rows, cols) {
          return Err("IndexError");
        }
        forall i, j | 0 <= i < rows && 0 <= j < cols && layout[i][j] {
          open[i, j] := true;
        }
      }
      r := Ok(());
      if openLayout.None? {
        MatrixExt(Matrix(open), Filled(rows, cols, false), rows, cols);
      }
    }

    /** `size`: the grid's shape, that of its masks. */
    function Size(): (s: (nat, nat))
      reads this, open, flags
      requires Valid()
      ensures s == (open.Length0, open.Length1) && s == (flags.Length0, flags.Length1)
    {
      (rows, cols)
    }

    /** `is_open`: an open cell is never flagged. */
    function IsOpen(p: Pos): (b: bool)
      reads this, open, flags
      requires Valid() && InBounds(p, rows, cols)
      ensures b ==> !flags[p.0, p.1]
    {
      open[p.0, p.1]
    }

    /** `is_flagged`: a flagged cell is never open. */
    function IsFlagged(p: Pos): (b: bool)
      reads this, open, flags
      requires Valid() && InBounds(p, rows, cols)
      ensures b ==> !open[p.0, p.1]
    {
      flags[p.0, p.1]
    }
  }

  /** A square board: the grid it plays on, the mine layout, the proximity matrix of
      that layout and the number of opened mines the game forgives. */
  class SquareBoard {
    const grid: SquareGrid
    const mines: array2<bool>
    var proximity: seq<seq<int>>
    const forgiveness: int

    /** The grid is valid, the mine layout has its shape, and the board and the grid
        share the proximity matrix of the mine layout. */
    ghost predicate Valid()
      reads this, grid, grid.open, grid.flags, mines
    {
      grid.Valid() && mines.Length0 == grid.rows && mines.Length1 == grid.cols
      && mines != grid.open && mines != grid.flags
      && proximity == Neighbors(Matrix(mines), grid.rows, grid.cols)
      && grid.proximity == proximity
    }

    /** The body of `__init__`: the board keeps the layout the seeder drew for the
        grid's size, computes its proximity matrix and refills the grid with it,
        opening the cells of `openLayout` if one of the grid's shape is given. With a
        layout of another shape the refill clears every cell and then fails, which
        `New` reports. */
    constructor (grid: SquareGrid, layout: seq<seq<bool>>, forgiveness: int, openLayout: Option<seq<seq<bool>>>)
      requires grid.Valid() && IsMatrix(layout, grid.rows, grid.cols)
      modifies grid, grid.open, grid.flags
      ensures Valid() && this.grid == grid && this.forgiveness == forgiveness
      ensures fresh(mines) && Matrix(mines) == layout
      ensures forall i, j :: 0 <= i < grid.rows && 0 <= j < grid.cols ==>
                !grid.flags[i, j]
                && grid.open[i, j] == (openLayout.Some? && IsMatrix(openLayout.value, grid.rows, grid.cols) && openLayout.value[i][j])
    {
      var m := new bool[grid.rows, grid.cols]((i, j) requires 0 <= i < grid.rows && 0 <= j < grid.cols => layout[i][j]);
      assert forall i :: 0 <= i < grid.rows ==> Matrix(m)[i] == layout[i];
      this.grid := grid;
      mines := m;
      proximity := Neighbors(layout, grid.rows, grid.cols);
      this.forgiveness := forgiveness;
      new;
      var r := grid.Refill(proximity, openLayout);
      assert forall i :: 0 <= i < grid.rows ==> Matrix(mines)[i] == layout[i];
      assert Matrix(mines) == layout;
    }

    /** `SquareBoard(grid, seeder, forgiveness, config, open_layout)`: the board, or the
        `IndexError` of the refill when `openLayout` does not have the grid's shape.
        Either way the grid has been refilled: the proximity installed and every flag
        cleared. */
    static method New(grid: SquareGrid, layout: seq<seq<bool>>, forgiveness: int, openLayout: Option<seq<seq<bool>>>)
      returns (r: Result<SquareBoard>)
      requires grid.Valid() && IsMatrix(layout, grid.rows, grid.cols)
      modifies grid, grid.open, grid.flags
      ensures r.Ok? <==> openLayout.None? || IsMatrix(openLayout.value, grid.rows, grid.cols)
      ensures r.Ok? ==> r.value.Valid() && r.value.grid == grid && r.value.forgiveness == forgiveness && Matrix(r.value.mines) == layout
      ensures grid.proximity == Neighbors(layout, grid.rows, grid.cols)
      ensures forall i, j :: 0 <= i < grid.rows && 0 <= j < grid.cols ==>
                !grid.flags[i, j] && grid.open[i, j] == (r.Ok? && openLayout.Some? && openLayout.value[i][j])
    {
      var b := new SquareBoard(grid, layout, forgiveness, openLayout);
      if openLayout.Some? && !IsMatrix(openLayout.value, grid.rows, grid.cols) {
        return Err("IndexError");
      }
      return Ok(b);
    }

    /** `select`: with propagation on and a cell of proximity 0, a breadth-first flood
        fill; then the cell itself. The cells selected form the flood region of `pos`:
        the new open mask opens their unflagged cells and nothing else (it is
        `SelectOpen`), a cell that does not expand selects only itself, and no cell
        opened besides `pos` holds a mine, because each touches a cell of proximity 0. */
    method Select(pos: Pos, propagate: bool) returns (ghost region: set<Pos>)
      requires Valid() && InBounds(pos, grid.rows, grid.cols)
      requires propagate ==> NoFlaggedZeroPair(Matrix(grid.flags), proximity, grid.rows, grid.cols)
      modifies grid.open
      ensures Valid()
      ensures FloodRegion(region, pos, old(Matrix(grid.open)), proximity, grid.rows, grid.cols, propagate)
      ensures Matrix(grid.open) == Opened(old(Matrix(grid.open)), Matrix(grid.flags), region, grid.rows, grid.cols)
      ensures Matrix(grid.open) == SelectOpen(old(Matrix(grid.open)), Matrix(grid.flags), proximity, grid.rows, grid.cols, pos, propagate)
      ensures !Expands(old(Matrix(grid.open)), proximity, grid.rows, grid.cols, propagate, pos) ==> region == {pos}
      ensures OpensNoMineBut(old(Matrix(grid.open)), Matrix(grid.open), Matrix(mines), grid.rows, grid.cols, pos)
    {
      ghost var open0, flags0, minesM := Matrix(grid.open), Matrix(grid.flags), Matrix(mines);
      ghost var parent, rank;
      region, parent, rank := SelectCells(pos, propagate);
      SelectOutcome(region, parent, rank, pos, open0, flags0, minesM, proximity, grid.rows, grid.cols, propagate);
    }

    /** `toggle_flag`, forwarded to the grid: the open mask and the mines are untouched. */
    method ToggleFlag(pos: Pos)
      requires Valid() && InBounds(pos, grid.rows, grid.cols)
      modifies grid.flags
      ensures Valid()
      ensures grid.flags[pos.0, pos.1] == (!grid.open[pos.0, pos.1] && !old(grid.flags[pos.0, pos.1]))
      ensures forall i, j :: 0 <= i < grid.rows && 0 <= j < grid.cols && (i, j) != pos ==> grid.flags[i, j] == old(grid.flags[i, j])
    {
      grid.ToggleFlag(pos);
    }

    /** The counting loop of `chord` over the cells `ps`: those that are flagged, or
        open and mined, which is the count of known mines among them. */
    method KnownAmong(ps: seq<Pos>) returns (n: nat)
      requires Valid() && forall q :: q in ps ==> InBounds(q, grid.rows, grid.cols)
      ensures n == CountAt(KnownMines(Matrix(grid.open), Matrix(grid.flags), Matrix(mines), grid.rows, grid.cols),
                           grid.rows, grid.cols, ps)
    {
      var rows, cols := grid.rows, grid.cols;
      ghost var known := KnownMines(Matrix(grid.open), Matrix(grid.flags), Matrix(mines), rows, cols);
      n := 0;
      var k := 0;
      while k < |ps|
        invariant 0 <= k <= |ps|
        invariant n + CountAt(known, rows, cols, ps[k..]) == CountAt(known, rows, cols, ps)
      {
        var q := ps[k];
        CountAtSuffix(known, rows, cols, ps, k);
        assert known[q.0][q.1] == (grid.flags[q.0, q.1] || (grid.open[q.0, q.1] && mines[q.0, q.1]));
        if grid.IsFlagged(q) || (grid.IsOpen(q) && mines[q.0, q.1]) {
          n := n + 1;
        }
        k := k + 1;
      }
    }

    /** `select(p)` with propagation for each `p` of `ps` in turn. */
    method SelectEach(ps: seq<Pos>)
      requires Valid() && forall p :: p in ps ==> InBounds(p, grid.rows, grid.cols)
      requires NoFlaggedZeroPair(Matrix(grid.flags), proximity, grid.rows, grid.cols)
      modifies grid.open
      ensures Valid()
      ensures Matrix(grid.open) == SelectSeq(old(Matrix(grid.open)), Matrix(grid.flags), proximity, grid.rows, grid.cols, ps, |ps|)
    {
      ghost var open0, flags0 := Matrix(grid.open), Matrix(grid.flags);
      var k := 0;
      while k < |ps|
        invariant 0 <= k <= |ps|
        invariant Valid() && Matrix(grid.flags) == flags0
        invariant Matrix(grid.open) == SelectSeq(open0, flags0, proximity, grid.rows, grid.cols, ps, k)
      {
        SelectTurn(ps, k, open0, flags0);
        k := k + 1;
      }
    }

    /** One turn of the loop of `SelectEach`: `select(ps[k])`. */
    method SelectTurn(ps: seq<Pos>, k: nat, ghost open0: seq<seq<bool>>, ghost flags0: seq<seq<bool>>)
      requires Valid() && k < |ps| && forall p :: p in ps ==> InBounds(p, grid.rows, grid.cols)
      requires Matrix(grid.flags) == flags0 && NoFlaggedZeroPair(flags0, proximity, grid.rows, grid.cols)
      requires IsMatrix(open0, grid.rows, grid.cols)
      requires Matrix(grid.open) == SelectSeq(open0, flags0, proximity, grid.rows, grid.cols, ps, k)
      modifies grid.open
      ensures Valid() && Matrix(grid.flags) == flags0
      ensures Matrix(grid.open) == SelectSeq(open0, flags0, proximity, grid.rows, grid.cols, ps, k + 1)
    {
      var p := ps[k];
      assert p in ps && InBounds(p, grid.rows, grid.cols);
      ghost var region := Select(p, true);
    }

    /** `chord`: on an open cell whose known mines around it match its proximity, select
        every neighbour; otherwise nothing changes. When every flag marks a mine, no
        cell it opens holds a mine. */
    method Chord(pos: Pos)
      requires Valid() && InBounds(pos, grid.rows, grid.cols)
      requires NoFlaggedZeroPair(Matrix(grid.flags), proximity, grid.rows, grid.cols)
      modifies grid.open
      ensures Valid()
      ensures Matrix(grid.open)
              == if ChordFires(old(Matrix(grid.open)), Matrix(grid.flags), Matrix(mines), proximity, grid.rows, grid.cols, pos)
                 then SelectSeq(old(Matrix(grid.open)), Matrix(grid.flags), proximity, grid.rows, grid.cols, Adjacents(pos, (grid.rows, grid.cols)), |Adjacents(pos, (grid.rows, grid.cols))|)
                 else old(Matrix(grid.open))
      ensures FlagsOnMines(Matrix(grid.flags), Matrix(mines), grid.rows, grid.cols)
              ==> NoNewMine(old(Matrix(grid.open)), Matrix(grid.open), Matrix(mines), grid.rows, grid.cols)
    {
      var rows, cols := grid.rows, grid.cols;
      if !grid.IsOpen(pos) {
        return;
      }
      var n := KnownAmong(Adjacents(pos, (rows, cols)));
      if n == proximity[pos.0][pos.1] {
        ghost var open0, flags0, minesM := Matrix(grid.open), Matrix(grid.flags), Matrix(mines);
        var adj := Adjacents(pos, (rows, cols));
        SelectEach(adj);
        if FlagsOnMines(flags0, minesM, rows, cols) {
          ChordFindsEveryMine(open0, flags0, minesM, rows, cols, pos);
          SelectSeqSafe(open0, flags0, minesM, Neighbors(minesM, rows, cols), rows, cols, adj, |adj|);
        }
      }
    }

    /** `first_select`: the first cell and its neighbours lose their mines, the proximity
        matrix is recomputed, the grid is refilled with it (clearing every flag and
        closing every cell) and the first cell is selected. That select floods from a
        cell of proximity 0, so the first cell and all its neighbours open, and no mine
        does. The mine count can only fall; nothing checks that the board was fresh. */
    method FirstSelect(pos: Pos)
      requires Valid() && InBounds(pos, grid.rows, grid.cols)
      modifies this, mines, grid, grid.open, grid.flags
      ensures Valid()
      ensures Matrix(mines) == ClearedAround(old(Matrix(mines)), grid.rows, grid.cols, pos)
      ensures Matrix(grid.flags) == Filled(grid.rows, grid.cols, false)
      ensures var none := Filled(grid.rows, grid.cols, false);
              Matrix(grid.open) == SelectOpen(none, none, proximity, grid.rows, grid.cols, pos, true)
      ensures SafeStart(Matrix(grid.open), Matrix(mines), grid.rows, grid.cols, pos)
    {
      var rows, cols := grid.rows, grid.cols;
      ghost var m0 := Matrix(mines);
      ClearMines(pos);
      Redeal();
      OpenFirst(pos, m0);
    }

    /** The select that ends `first_select`, on the redealt board. */
    method OpenFirst(pos: Pos, ghost m0: seq<seq<bool>>)
      requires Valid() && InBounds(pos, grid.rows, grid.cols) && IsMatrix(m0, grid.rows, grid.cols)
      requires Matrix(mines) == ClearedAround(m0, grid.rows, grid.cols, pos)
      requires Matrix(grid.open) == Filled(grid.rows, grid.cols, false)
      requires Matrix(grid.flags) == Filled(grid.rows, grid.cols, false)
      modifies grid.open
      ensures Valid() && Matrix(grid.flags) == Filled(grid.rows, grid.cols, false)
      ensures var none := Filled(grid.rows, grid.cols, false);
              Matrix(grid.open) == SelectOpen(none, none, proximity, grid.rows, grid.cols, pos, true)
      ensures SafeStart(Matrix(grid.open), Matrix(mines), grid.rows, grid.cols, pos)
    {
      assert NoFlaggedZeroPair(Matrix(grid.flags), proximity, grid.rows, grid.cols);
      ghost var region := Select(pos, true);
      FirstSelectOpens(m0, grid.rows, grid.cols, pos);
    }

    /** The middle of `first_select`: the proximity matrix of the new layout is
        computed and the grid refilled with it, so nothing is open or flagged. */
    method Redeal()
      requires grid.Valid() && mines.Length0 == grid.rows && mines.Length1 == grid.cols
      requires mines != grid.open && mines != grid.flags
      modifies this, grid, grid.open, grid.flags
      ensures Valid() && Matrix(mines) == old(Matrix(mines))
      ensures Matrix(grid.open) == Filled(grid.rows, grid.cols, false)
      ensures Matrix(grid.flags) == Filled(grid.rows, grid.cols, false)
      ensures NoFlaggedZeroPair(Matrix(grid.flags), proximity, grid.rows, grid.cols)
    {
      proximity := Neighbors(Matrix(mines), grid.rows, grid.cols);
      var r := grid.Refill(proximity, None);
    }

    /** The loop of `first_select` over the mine layout: the first cell and then each of
        its neighbours in turn lose their mine. */
    method ClearMines(pos: Pos)
      requires mines.Length0 == grid.rows && mines.Length1 == grid.cols && InBounds(pos, grid.rows, grid.cols)
      modifies mines
      ensures Matrix(mines) == ClearedAround(old(Matrix(mines)), grid.rows, grid.cols, pos)
    {
      var rows, cols := grid.rows, grid.cols;
      ghost var m0 := Matrix(mines);
      var adj := Adjacents(pos, (rows, cols));
      mines[pos.0, pos.1] := false;
      ClearEach(adj);
      MatrixExt(Matrix(mines), ClearedAround(m0, rows, cols, pos), rows, cols);
    }

    /** The clearing loop: every cell listed in `adj` holds no mine afterwards, and
        the others are as they were. */
    method ClearEach(adj: seq<Pos>)
      requires forall q :: q in adj ==> 0 <= q.0 < mines.Length0 && 0 <= q.1 < mines.Length1
      modifies mines
      ensures forall i, j :: 0 <= i < mines.Length0 && 0 <= j < mines.Length1 ==>
                mines[i, j] == (old(mines[i, j]) && (i, j) !in adj)
    {
      ghost var done: set<Pos> := {};
      var k := 0;
      while k < |adj|
        invariant 0 <= k <= |adj|
        invariant forall p :: p in done ==> p in adj
        invariant forall t :: 0 <= t < k ==> adj[t] in done
        invariant forall i, j :: 0 <= i < mines.Length0 && 0 <= j < mines.Length1 ==>
                    mines[i, j] == (old(mines[i, j]) && (i, j) !in done)
      {
        var q := adj[k];
        assert q in adj;
        ClearCell(q);
        done := done + {q};
        k := k + 1;
      }
    }

    /** One turn of the clearing loop: the cell at `q` holds no mine, and no other
        cell changes. */
    method ClearCell(q: Pos)
      requires 0 <= q.0 < mines.Length0 && 0 <= q.1 < mines.Length1
      modifies mines
      ensures forall i, j :: 0 <= i < mines.Length0 && 0 <= j < mines.Length1 ==>
                mines[i, j] == (old(mines[i, j]) && (i, j) != q)
    {
      mines[q.0, q.1] := false;
    }

    /** `proximity_matrix`: the mine count around each cell, -1 on a mine. */
    function ProximityMatrix(): (prox: seq<seq<int>>)
      reads this, grid, grid.open, grid.flags, mines
      requires Valid()
      ensures IsMatrix(prox, grid.rows, grid.cols)
      ensures forall p :: InBounds(p, grid.rows, grid.cols) ==>
                prox[p.0][p.1] == if mines[p.0, p.1] then -1 else AdjacentMines(Matrix(mines), grid.rows, grid.cols, p)
    {
      forall p | InBounds(p, grid.rows, grid.cols)
        ensures proximity[p.0][p.1] == if mines[p.0, p.1] then -1 else AdjacentMines(Matrix(mines), grid.rows, grid.cols, p)
      {
        NeighborsCountAdjacentMines(Matrix(mines), grid.rows, grid.cols, p);
      }
      proximity
    }

    /** `hidden_layout`: the complement of the open mask; it and the flag mask mark
        every flagged cell, since a flagged cell is never open. */
    function HiddenLayout(): (h: seq<seq<bool>>)
      reads this, grid, grid.open, grid.flags, mines
      requires Valid()
      ensures IsMatrix(h, grid.rows, grid.cols)
      ensures forall i, j :: 0 <= i < grid.rows && 0 <= j < grid.cols ==> (h[i][j] <==> !grid.open[i, j])
      ensures forall i, j :: 0 <= i < grid.rows && 0 <= j < grid.cols && grid.flags[i, j] ==> h[i][j]
    {
      var o := Matrix(grid.open);
      seq(grid.rows, i requires 0 <= i < grid.rows => seq(grid.cols, j requires 0 <= j < grid.cols => !o[i][j]))
    }

    /** `flags`: the number of flagged cells, at most the number of closed cells. */
    function FlagCount(): (n: nat)
      reads this, grid, grid.open, grid.flags, mines
      requires Valid()
      ensures n + OpenCells() <= grid.rows * grid.cols
    {
      OnesDisjoint(Matrix(grid.flags), Matrix(grid.open), grid.rows, grid.cols);
      Ones(Matrix(grid.flags))
    }

    /** `mines`: the number of cells holding a mine. */
    function MineCount(): (n: nat)
      reads this, grid, grid.open, grid.flags, mines
      requires Valid()
      ensures n <= grid.rows * grid.cols
      ensures n == 0 <==> forall i, j :: 0 <= i < grid.rows && 0 <= j < grid.cols ==> !mines[i, j]
    {
      CountBound(Matrix(mines), grid.rows, grid.cols, true);
      Ones(Matrix(mines))
    }

    /** `cells`: the size of the proximity matrix, the number of cells of the grid. */
    function CellCount(): (n: int)
      reads this, grid, grid.open, grid.flags, mines
      requires Valid()
      ensures n == grid.rows * grid.cols
    {
      if |proximity| == 0 then 0 else
        var r, c := |proximity|, |proximity[0]|;
        assert r == grid.rows && c == grid.cols;
        r * c
    }

    /** `open_mines`: the number of open cells holding a mine; at most the number of
        mines and of open cells, and 0 exactly when no open cell holds a mine. */
    function OpenMines(): (n: nat)
      reads this, grid, grid.open, grid.flags, mines
      requires Valid()
      ensures n <= MineCount() && n <= OpenCells()
      ensures n == 0 <==> NoOpenMine(Matrix(grid.open), Matrix(mines), grid.rows, grid.cols)
    {
      OpenMineCount(Matrix(grid.open), Matrix(mines), grid.rows, grid.cols)
    }

    /** `completed`: every cell is a mine or open (all safe cells are open), or the flag
        mask is exactly the mine mask. `np.all` is the count of true entries reaching
        the number of cells (`All`). */
    function Completed(): (b: bool)
      reads this, grid, grid.open, grid.flags, mines
      requires Valid()
      ensures b <==> (forall i, j :: 0 <= i < grid.rows && 0 <= j < grid.cols ==> mines[i, j] || grid.open[i, j])
                     || (forall i, j :: 0 <= i < grid.rows && 0 <= j < grid.cols ==> mines[i, j] == grid.flags[i, j])
    {
      var rows, cols := grid.rows, grid.cols;
      Finished(Matrix(mines), Matrix(grid.open), Matrix(grid.flags), rows, cols)
    }

    /** `failed`: more mines are open than the game forgives. With a negative
        forgiveness the game is lost from the start; otherwise a lost game has an open
        mine, and with no open mine the game is lost only then. */
    function Failed(): (b: bool)
      reads this, grid, grid.open, grid.flags, mines
      requires Valid()
      ensures forgiveness < 0 ==> b
      ensures b && forgiveness >= 0 ==>
                exists i, j :: 0 <= i < grid.rows && 0 <= j < grid.cols && grid.open[i, j] && mines[i, j]
      ensures NoOpenMine(Matrix(grid.open), Matrix(mines), grid.rows, grid.cols) ==> (b <==> forgiveness < 0)
    {
      OpenMines() > forgiveness
    }

    /** `superchord`: passes that select every openable cell, repeated until a pass
        leaves the number of open cells unchanged. The result is `Superchorded`; when
        every flag marks a mine and no mine was open, none is open afterwards. */
    method Superchord()
      requires Valid() && NoFlaggedZeroPair(Matrix(grid.flags), proximity, grid.rows, grid.cols)
      modifies grid.open
      ensures Valid()
      ensures Matrix(grid.open) == Superchorded(old(Matrix(grid.open)), Matrix(grid.flags), Matrix(mines), proximity, grid.rows, grid.cols)
      ensures FlagsOnMines(Matrix(grid.flags), Matrix(mines), grid.rows, grid.cols)
              && NoOpenMine(old(Matrix(grid.open)), Matrix(mines), grid.rows, grid.cols)
              ==> NoOpenMine(Matrix(grid.open), Matrix(mines), grid.rows, grid.cols)
    {
      ghost var open0, flags0, minesM := Matrix(grid.open), Matrix(grid.flags), Matrix(mines);
      ghost var goal := Superchorded(open0, flags0, minesM, proximity, grid.rows, grid.cols);
      ghost var safe := FlagsOnMines(flags0, minesM, grid.rows, grid.cols) && NoOpenMine(open0, minesM, grid.rows, grid.cols);
      while true
        invariant Valid() && Matrix(grid.flags) == flags0 && Matrix(mines) == minesM
        invariant Superchorded(Matrix(grid.open), flags0, minesM, proximity, grid.rows, grid.cols) == goal
        invariant safe ==> NoOpenMine(Matrix(grid.open), minesM, grid.rows, grid.cols)
        decreases grid.rows * grid.cols - OpenCells()
      {
        ghost var before := Matrix(grid.open);
        var same := SuperchordPass();
        if same {
          SuperchordAtFixedPoint(before, flags0, minesM, proximity, grid.rows, grid.cols);
          break;
        }
      }
    }

    /** One pass of `superchord`: select every cell of the openable mask in row-major
        order, and report whether the number of open cells stayed the same, which
        happens exactly when the pass changed nothing. */
    method SuperchordPass() returns (same: bool)
      requires Valid() && NoFlaggedZeroPair(Matrix(grid.flags), proximity, grid.rows, grid.cols)
      modifies grid.open
      ensures Valid()
      ensures Matrix(grid.open) == Pass(old(Matrix(grid.open)), Matrix(grid.flags), Matrix(mines), proximity, grid.rows, grid.cols)
      ensures same <==> Matrix(grid.open) == old(Matrix(grid.open))
      ensures !same ==> old(OpenCells()) < OpenCells()
      ensures FlagsOnMines(Matrix(grid.flags), Matrix(mines), grid.rows, grid.cols)
              && NoOpenMine(old(Matrix(grid.open)), Matrix(mines), grid.rows, grid.cols)
              ==> NoOpenMine(Matrix(grid.open), Matrix(mines), grid.rows, grid.cols)
    {
      var rows, cols := grid.rows, grid.cols;
      var openCells := OpenCells();
      var before, flags, minesM := Matrix(grid.open), Matrix(grid.flags), Matrix(mines);
      var openable := Openable(before, flags, minesM, proximity, rows, cols);
      var targets := ArgWhere(openable, rows, cols);
      SelectEach(targets);
      var after := OpenCells();
      same := openCells == after;
      OnesMonotone(before, Matrix(grid.open), rows, cols);
      if FlagsOnMines(flags, minesM, rows, cols) && NoOpenMine(before, minesM, rows, cols) {
        OpenableAreSafeTargets(targets, before, flags, minesM, rows, cols);
        SelectSeqSafe(before, flags, minesM, Neighbors(minesM, rows, cols), rows, cols, targets, |targets|);
      }
    }

    /** `open_cells`: the number of open cells; none or all of them exactly at the ends
        of its range. */
    function OpenCells(): (n: nat)
      reads this, grid, grid.open, grid.flags, mines
      requires Valid()
      ensures n <= grid.rows * grid.cols
      ensures n == 0 <==> forall i, j :: 0 <= i < grid.rows && 0 <= j < grid.cols ==> !grid.open[i, j]
      ensures n == grid.rows * grid.cols <==> forall i, j :: 0 <= i < grid.rows && 0 <= j < grid.cols ==> grid.open[i, j]
    {
      CountBound(Matrix(grid.open), grid.rows, grid.cols, true);
      Ones(Matrix(grid.open))
    }

    /** The moves of `select`: the optional flood fill, then `pos` itself. It returns the
        cells it selected, closed under expansion, with their tree of first visits. */
    method SelectCells(pos: Pos, propagate: bool) returns (ghost region: set<Pos>, ghost parent: map<Pos, Pos>, ghost rank: map<Pos, nat>)
      requires grid.Valid() && IsMatrix(proximity, grid.rows, grid.cols) && InBounds(pos, grid.rows, grid.cols)
      requires propagate ==> NoFlaggedZeroPair(Matrix(grid.flags), proximity, grid.rows, grid.cols)
      modifies grid.open
      ensures grid.Valid()
      ensures ClosedRegion(region, pos, old(Matrix(grid.open)), proximity, grid.rows, grid.cols, propagate)
      ensures ParentTree(region, pos, parent, rank, old(Matrix(grid.open)), proximity, grid.rows, grid.cols, propagate)
      ensures Matrix(grid.open) == Opened(old(Matrix(grid.open)), Matrix(grid.flags), region, grid.rows, grid.cols)
    {
      ghost var open0, flags0 := Matrix(grid.open), Matrix(grid.flags);
      var rows, cols := grid.rows, grid.cols;
      ghost var selected: set<Pos> := {};
      parent, rank := map[], map[pos := 0];
      OpenedNone(open0, flags0, rows, cols);
      var flood := propagate && proximity[pos.0][pos.1] == 0;
      if flood {
        selected, parent, rank := FloodFill(pos);
      }
      grid.Select(pos);
      if flood {
        region := selected;
      } else {
        region := {pos};
        SingleRegion(pos, open0, proximity, rows, cols, propagate);
      }
      OpenedSelect(open0, flags0, selected, region, pos, rows, cols);
    }

    /** The queue loop of `select`, started on a cell of proximity 0: it returns the set
        of cells it enqueued, closed under expansion, with the tree of first visits. */
    method FloodFill(pos: Pos) returns (ghost enqueued: set<Pos>, ghost parent: map<Pos, Pos>, ghost rank: map<Pos, nat>)
      requires grid.Valid() && IsMatrix(proximity, grid.rows, grid.cols) && InBounds(pos, grid.rows, grid.cols)
      requires proximity[pos.0][pos.1] == 0
      requires NoFlaggedZeroPair(Matrix(grid.flags), proximity, grid.rows, grid.cols)
      modifies grid.open
      ensures grid.Valid()
      ensures ClosedRegion(enqueued, pos, old(Matrix(grid.open)), proximity, grid.rows, grid.cols, true)
      ensures ParentTree(enqueued, pos, parent, rank, old(Matrix(grid.open)), proximity, grid.rows, grid.cols, true)
      ensures Matrix(grid.open) == Opened(old(Matrix(grid.open)), Matrix(grid.flags), enqueued, grid.rows, grid.cols)
    {
      ghost var open0 := Matrix(grid.open);
      ghost var flags0 := Matrix(grid.flags);
      var rows, cols := grid.rows, grid.cols;
      ghost var prox := proximity;
      assert forall i, j :: 0 <= i < rows && 0 <= j < cols ==> !(open0[i][j] && flags0[i][j]);
      var candidates := [pos];
      enqueued := {pos};
      ghost var done: set<Pos> := {};
      parent := map[];
      rank := map[pos := 0];
      ghost var openM := open0;
      while |candidates| != 0
        invariant grid.Valid() && Matrix(grid.flags) == flags0 && Matrix(grid.open) == openM
        invariant FloodState(openM, candidates, enqueued, done, parent, rank, pos, open0, flags0, prox, rows, cols)
        decreases ClosedZero(openM, flags0, prox, rows, cols), Weight(candidates, flags0, prox, rows, cols)
      {
        candidates, enqueued, done, parent, rank, openM :=
          FloodTurn(candidates, enqueued, done, parent, rank, pos, open0, flags0, openM, prox, rows, cols);
      }
      FloodStateDone(openM, candidates, enqueued, done, parent, rank, pos, open0, flags0, prox, rows, cols);
    }

    /** One turn of the queue loop: the head of the queue is popped; when it is a closed
        cell of proximity 0 its neighbours are appended to the queue; then it is
        selected. The loop invariant is kept and the termination measure decreases. */
    method FloodTurn(candidates: seq<Pos>, ghost enqueued: set<Pos>, ghost done: set<Pos>,
                     ghost parent: map<Pos, Pos>, ghost rank: map<Pos, nat>, ghost pos: Pos,
                     ghost open0: seq<seq<bool>>, ghost flags0: seq<seq<bool>>, ghost openM: seq<seq<bool>>,
                     ghost prox: seq<seq<int>>, ghost rows: nat, ghost cols: nat)
        returns (candidates': seq<Pos>, ghost enqueued': set<Pos>, ghost done': set<Pos>,
                 ghost parent': map<Pos, Pos>, ghost rank': map<Pos, nat>, ghost openM': seq<seq<bool>>)
      requires grid.Valid() && Matrix(grid.flags) == flags0 && Matrix(grid.open) == openM
      requires prox == proximity && rows == grid.rows && cols == grid.cols
      requires FloodState(openM, candidates, enqueued, done, parent, rank, pos, open0, flags0, prox, rows, cols)
      requires |candidates| != 0
      modifies grid.open
      ensures grid.Valid() && Matrix(grid.flags) == flags0 && Matrix(grid.open) == openM'
      ensures FloodState(openM', candidates', enqueued', done', parent', rank', pos, open0, flags0, prox, rows, cols)
      ensures ClosedZero(openM', flags0, prox, rows, cols) < ClosedZero(openM, flags0, prox, rows, cols)
              || (ClosedZero(openM', flags0, prox, rows, cols) == ClosedZero(openM, flags0, prox, rows, cols)
                  && Weight(candidates', flags0, prox, rows, cols) < Weight(candidates, flags0, prox, rows, cols))
    {
      var next := candidates[0];
      candidates' := candidates[1..];
      FloodStateHead(openM, candidates, enqueued, done, parent, rank, pos, open0, flags0, prox, rows, cols);
      var expand := proximity[next.0][next.1] == 0 && !grid.IsOpen(next);
      if expand {
        var adj := Adjacents(next, (grid.rows, grid.cols));
        candidates' := AppendAll(candidates', adj);
      }
      assert candidates' == candidates[1..] + (if expand then Adjacents(next, (rows, cols)) else []);
      openM' := SetEntry(openM, rows, cols, next, !flags0[next.0][next.1]);
      enqueued', done', parent', rank' :=
        FloodStep(openM, openM', candidates, enqueued, done, parent, rank, pos, open0, flags0, prox, rows, cols, expand);
      grid.Select(next);
    }
  }
}

/** The grid of `game.py`: the cell grid of `minesweeper/game.py` driven by pixel
    coordinates. `select`, `toggle_flag` and `chord` first test the pixel against the
    grid's rectangle and do nothing outside it; inside it they act on the cell the
    pixel falls in (`get_cell_pos`). `chord` selects each neighbour through the pixel
    center of its cell, and the cells are built with the corner (0, 0): the neighbours
    are the cells selected exactly when the grid is drawn from (0, 0). */
module PixelGame {
  import opened Matrices
  import opened Board
  import opened Moves
  import opened CellGame

  class PixelGrid {
    /** The cells, their proximity, the grid's corner and the cell size. */
    const board: Grid

    ghost predicate Valid()
    {
      board.Valid()
    }

    /** `Grid(mine_layout, blit_ref)` of `game.py`: every cell hidden. */
    constructor (mineLayout: seq<seq<bool>>, rows: nat, cols: nat, blitRef: Pos, cellSize: Pos)
      requires IsMatrix(mineLayout, rows, cols) && cellSize.0 > 0 && cellSize.1 > 0
      ensures Valid() && board.rows == rows && board.cols == cols && board.mines == mineLayout
      ensures board.blitRef == blitRef && board.cellSize == cellSize
      ensures fresh(board) && fresh(board.states) && Matrix(board.states) == Filled(rows, cols, Hidden)
    {
      board := new Grid(mineLayout, rows, cols, blitRef, cellSize);
    }

    /** `select(coords, propagate)`: a pixel outside the grid changes nothing; inside
        it, the cell it falls in is selected as on the cell grid (the reference
        `AfterSelect`), with the flood fill when propagation is on and the cell has
        proximity 0. */
    method Select(coords: Pos, propagate: bool)
      requires Valid()
      modifies board.states
      ensures Grows(old(Matrix(board.states)), Matrix(board.states), board.rows, board.cols)
      ensures !board.Collides(coords) ==> Matrix(board.states) == old(Matrix(board.states))
      ensures board.Collides(coords) ==>
                var p := board.CellPos(coords);
                board.states[p.0, p.1] == Selected(old(board.states[p.0, p.1]))
                && NoMineOpenedBut(old(Matrix(board.states)), Matrix(board.states), board.mines, board.rows, board.cols, p)
                && (propagate ==> ZeroClosed(old(Matrix(board.states)), Matrix(board.states), board.proximity, board.rows, board.cols))
                && Matrix(board.states) == AfterSelect(old(Matrix(board.states)), board.proximity, board.rows, board.cols, p, propagate)
    {
      if !board.Collides(coords) {
        return;
      }
      var pos := board.CellPos(coords);
      board.Select(pos, propagate);
    }

    /** `toggle_flag(coords)`: a pixel outside the grid changes nothing; inside it,
        the flag of the cell it falls in is toggled. */
    method ToggleFlag(coords: Pos)
      requires Valid()
      modifies board.states
      ensures !board.Collides(coords) ==> Matrix(board.states) == old(Matrix(board.states))
      ensures board.Collides(coords) ==>
                var p := board.CellPos(coords);
                Matrix(board.states) == SetEntry(old(Matrix(board.states)), board.rows, board.cols, p, Toggled(old(board.states[p.0, p.1])))
    {
      if board.Collides(coords) {
        board.ToggleFlag(board.CellPos(coords));
      }
    }

    /** The cells the selecting loop of `chord` hits for the cells `ps`: for each in
        turn, the cell its center falls in, the center taken with the corner (0, 0)
        every cell is built with, when that pixel hits the grid. */
    function CenterTargets(ps: seq<Pos>): (ts: seq<Pos>)
      requires Valid()
      ensures forall t :: t in ts ==> InBounds(t, board.rows, board.cols)
      ensures |ts| <= |ps|
      decreases |ps|
    {
      if |ps| == 0 then []
      else
        var c := Center(ps[|ps| - 1], (0, 0), board.cellSize);
        CenterTargets(ps[..|ps| - 1]) + if board.Collides(c) then [board.CellPos(c)] else []
    }

    /** When the grid is drawn from (0, 0) the centers name their own cells: the loop
        of `chord` hits exactly the cells `ps`. */
    lemma {:induction false} CenterTargetsAtOrigin(ps: seq<Pos>)
      requires Valid() && board.blitRef == (0, 0) && forall p :: p in ps ==> InBounds(p, board.rows, board.cols)
      ensures CenterTargets(ps) == ps
      decreases |ps|
    {
      if |ps| > 0 {
        assert forall q :: q in ps[..|ps| - 1] ==> q in ps;
        CenterTargetsAtOrigin(ps[..|ps| - 1]);
        assert ps[|ps| - 1] in ps;
        board.CenterRoundTrip(ps[|ps| - 1]);
        assert ps == ps[..|ps| - 1] + [ps[|ps| - 1]];
      }
    }

    /** `chord(coords)`: outside the grid, or on a cell whose chord test fails,
        nothing changes; otherwise each neighbour is selected through the pixel center
        of its cell, in turn: the cells become the reference `Selects` over the cells
        those centers hit, and only cells of their flood regions change. Cells only
        open. When the grid is drawn from (0, 0) those centers name the neighbours, so
        the cells are `Selects` over the neighbours, none of them stays hidden, and
        when every flag marks a mine no mine opens. */
    method Chord(coords: Pos)
      requires Valid()
      modifies board.states
      ensures Grows(old(Matrix(board.states)), Matrix(board.states), board.rows, board.cols)
      ensures !board.Collides(coords) ==> Matrix(board.states) == old(Matrix(board.states))
      ensures board.Collides(coords) && !board.Fires(old(Matrix(board.states)), board.CellPos(coords))
              ==> Matrix(board.states) == old(Matrix(board.states))
      ensures board.blitRef == (0, 0) && board.Collides(coords) && board.Fires(old(Matrix(board.states)), board.CellPos(coords))
              ==> AllShown(Adjacents(board.CellPos(coords), (board.rows, board.cols)), Matrix(board.states), board.rows, board.cols)
      ensures board.blitRef == (0, 0) && FlagsOnMines(Layout(old(Matrix(board.states)), board.rows, board.cols, Flagged), board.mines, board.rows, board.cols)
              ==> NoMineOpened(old(Matrix(board.states)), Matrix(board.states), board.mines, board.rows, board.cols)
      ensures board.Collides(coords) && board.Fires(old(Matrix(board.states)), board.CellPos(coords))
              ==> Matrix(board.states) == Selects(old(Matrix(board.states)), board.proximity, board.rows, board.cols,
                                                  CenterTargets(Adjacents(board.CellPos(coords), (board.rows, board.cols))))
      ensures board.Collides(coords) ==>
                forall i, j :: 0 <= i < board.rows && 0 <= j < board.cols && board.states[i, j] != old(board.states[i, j])
                  ==> (i, j) in RegionsOf(old(Matrix(board.states)), board.proximity, board.rows, board.cols,
                                          CenterTargets(Adjacents(board.CellPos(coords), (board.rows, board.cols))))
      ensures board.blitRef == (0, 0) && board.Collides(coords) && board.Fires(old(Matrix(board.states)), board.CellPos(coords))
              ==> Matrix(board.states) == Selects(old(Matrix(board.states)), board.proximity, board.rows, board.cols,
                                                  Adjacents(board.CellPos(coords), (board.rows, board.cols)))
    {
      if !board.Collides(coords) {
        return;
      }
      var pos := board.CellPos(coords);
      if board.states[pos.0, pos.1] != Open {
        return;
      }
      var adj := Adjacents(pos, (board.rows, board.cols));
      var n := board.KnownAmong(adj);
      if n == board.proximity[pos.0][pos.1] {
        ChordAround(pos);
      }
    }

    /** The selecting branch of `chord`, once the cell `pos` passed its test: the
        centers of its neighbours are selected in turn, with the outcome `Chord`
        states. */
    method ChordAround(pos: Pos)
      requires Valid() && InBounds(pos, board.rows, board.cols) && board.Fires(Matrix(board.states), pos)
      modifies board.states
      ensures Grows(old(Matrix(board.states)), Matrix(board.states), board.rows, board.cols)
      ensures board.blitRef == (0, 0)
              ==> AllShown(Adjacents(pos, (board.rows, board.cols)), Matrix(board.states), board.rows, board.cols)
      ensures board.blitRef == (0, 0) && FlagsOnMines(Layout(old(Matrix(board.states)), board.rows, board.cols, Flagged), board.mines, board.rows, board.cols)
              ==> NoMineOpened(old(Matrix(board.states)), Matrix(board.states), board.mines, board.rows, board.cols)
      ensures Matrix(board.states) == Selects(old(Matrix(board.states)), board.proximity, board.rows, board.cols,
                                              CenterTargets(Adjacents(pos, (board.rows, board.cols))))
      ensures forall i, j :: 0 <= i < board.rows && 0 <= j < board.cols && board.states[i, j] != old(board.states[i, j])
                ==> (i, j) in RegionsOf(old(Matrix(board.states)), board.proximity, board.rows, board.cols,
                                        CenterTargets(Adjacents(pos, (board.rows, board.cols))))
      ensures board.blitRef == (0, 0)
              ==> Matrix(board.states) == Selects(old(Matrix(board.states)), board.proximity, board.rows, board.cols,
                                                  Adjacents(pos, (board.rows, board.cols)))
    {
      var adj := Adjacents(pos, (board.rows, board.cols));
      ghost var s0 := Matrix(board.states);
      if FlagsOnMines(Layout(s0, board.rows, board.cols, Flagged), board.mines, board.rows, board.cols) {
        ChordFindsEveryMine(Layout(s0, board.rows, board.cols, Open), Layout(s0, board.rows, board.cols, Flagged),
                            board.mines, board.rows, board.cols, pos);
        assert MinesCovered(adj, s0, board.mines, board.rows, board.cols);
      }
      SelectCenters(adj);
    }

    /** The selecting loop of `chord`: `select(center)` for the center of each cell of
        `ps` in turn, the center taken with the corner (0, 0) every cell is built with.
        The cells become the reference `Selects` over the cells hit, only cells of
        their flood regions change, and cells only open. When the grid is drawn from
        (0, 0) the cells hit are `ps`: every target ends up flagged or open, and when
        every mine among the targets was flagged or open beforehand no mine opens. */
    method SelectCenters(ps: seq<Pos>)
      requires Valid() && forall p :: p in ps ==> InBounds(p, board.rows, board.cols)
      modifies board.states
      ensures Matrix(board.states) == Selects(old(Matrix(board.states)), board.proximity, board.rows, board.cols, CenterTargets(ps))
      ensures forall i, j :: 0 <= i < board.rows && 0 <= j < board.cols && board.states[i, j] != old(board.states[i, j])
                ==> (i, j) in RegionsOf(old(Matrix(board.states)), board.proximity, board.rows, board.cols, CenterTargets(ps))
      ensures board.blitRef == (0, 0) ==> CenterTargets(ps) == ps
      ensures Grows(old(Matrix(board.states)), Matrix(board.states), board.rows, board.cols)
      ensures board.blitRef == (0, 0) ==> AllShown(ps, Matrix(board.states), board.rows, board.cols)
      ensures board.blitRef == (0, 0) && MinesCovered(ps, old(Matrix(board.states)), board.mines, board.rows, board.cols)
              ==> NoMineOpened(old(Matrix(board.states)), Matrix(board.states), board.mines, board.rows, board.cols)
    {
      ghost var s0 := Matrix(board.states);
      var k := 0;
      assert ps[..0] == [];
      while k < |ps|
        invariant 0 <= k <= |ps|
        invariant Matrix(board.states) == Selects(s0, board.proximity, board.rows, board.cols, CenterTargets(ps[..k]))
      {
        CenterTurn(ps, k, s0);
        k := k + 1;
      }
      assert ps[..|ps|] == ps;
      SelectsWithin(s0, board.proximity, board.rows, board.cols, CenterTargets(ps));
      if board.blitRef == (0, 0) {
        CenterTargetsAtOrigin(ps);
        SelectsShown(s0, board.proximity, board.rows, board.cols, ps);
        if MinesCovered(ps, s0, board.mines, board.rows, board.cols) {
          SelectsSafe(s0, board.mines, board.rows, board.cols, ps);
        }
      }
    }

    /** One turn of the loop of `SelectCenters`: `select` at the center of `ps[k]`. */
    method CenterTurn(ps: seq<Pos>, k: nat, ghost s0: seq<seq<State>>)
      requires Valid() && k < |ps| && forall p :: p in ps ==> InBounds(p, board.rows, board.cols)
      requires IsMatrix(s0, board.rows, board.cols)
      requires Matrix(board.states) == Selects(s0, board.proximity, board.rows, board.cols, CenterTargets(ps[..k]))
      modifies board.states
      ensures Matrix(board.states) == Selects(s0, board.proximity, board.rows, board.cols, CenterTargets(ps[..k + 1]))
    {
      var p := ps[k];
      var c := Center(p, (0, 0), board.cellSize);
      CenterTargetsStep(ps, k);
      Select(c, true);
      if board.Collides(c) {
        SelectsSnoc(s0, board.proximity, board.rows, board.cols, CenterTargets(ps[..k]), board.CellPos(c));
      } else {
        assert CenterTargets(ps[..k]) + [] == CenterTargets(ps[..k]);
      }
    }

    /** The cells hit for the first `k + 1` cells of `ps` are those hit for the first
        `k`, then the one the center of `ps[k]` hits, if any. */
    lemma CenterTargetsStep(ps: seq<Pos>, k: nat)
      requires Valid() && k < |ps|
      ensures var c := Center(ps[k], (0, 0), board.cellSize);
              CenterTargets(ps[..k + 1]) == CenterTargets(ps[..k]) + if board.Collides(c) then [board.CellPos(c)] else []
    {
      assert ps[..k + 1][..k] == ps[..k];
    }

    /** `superchord`: does nothing. */
    method Superchord()
      ensures Matrix(board.states) == old(Matrix(board.states))
    {
    }
  }
}

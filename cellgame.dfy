/** The cell-object game of `minesweeper/game.py`: every cell carries its own state
    (hidden, flagged or open) and its proximity, and the grid holds the mine layout,
    its proximity matrix and the matrix of cells. Selecting a cell of proximity 0
    floods through a queue that may hold a cell many times; a cell is expanded only
    while it is hidden, and expanding it opens it, which bounds the fill. */
module CellGame {
  import opened Errors
  import opened Matrices
  import opened Board
  import opened Flood
  import opened Moves
  import Seeders

  /** `Cell.State`. */
  datatype State = Hidden | Flagged | Open

  /** `Cell.select` on the state: a hidden cell opens; a flagged or open cell keeps its
      state, so a flag protects its cell. */
  function Selected(s: State): (t: State)
    ensures t != Hidden
    ensures t == Flagged <==> s == Flagged
    ensures s != Hidden ==> t == s
  {
    if s == Hidden then Open else s
  }

  /** `Cell.toggle_flag` on the state: hidden and flagged swap, an open cell stays open. */
  function Toggled(s: State): (t: State)
    ensures (t == Open) == (s == Open)
    ensures s != Open ==> t != s
  {
    match s
    case Hidden => Flagged
    case Flagged => Hidden
    case Open => Open
  }

  /** Toggling a flag twice restores the state; selecting twice is selecting once. */
  lemma ToggleAndSelectRepeat(s: State)
    ensures Toggled(Toggled(s)) == s
    ensures Selected(Selected(s)) == Selected(s)
  {
  }

  /** `Cell.reference`: the pixel corner of the cell at `pos` when the cells are
      drawn from `blitRef`, each `size` pixels wide. */
  function Reference(pos: Pos, blitRef: Pos, size: Pos): Pos
  {
    (blitRef.0 + pos.0 * size.0, blitRef.1 + pos.1 * size.1)
  }

  /** The pixel `c` lies in the `size` rectangle whose corner is `corner`. */
  predicate Inside(c: Pos, corner: Pos, size: Pos)
  {
    corner.0 <= c.0 < corner.0 + size.0 && corner.1 <= c.1 < corner.1 + size.1
  }

  /** `Cell.center`: the reference plus half the size, rounded down; it lies inside
      the cell's own rectangle. */
  function Center(pos: Pos, blitRef: Pos, size: Pos): (c: Pos)
    requires size.0 > 0 && size.1 > 0
    ensures Inside(c, Reference(pos, blitRef, size), size)
  {
    var r := Reference(pos, blitRef, size);
    (r.0 + size.0 / 2, r.1 + size.1 / 2)
  }

  /** A single cell of the game. */
  class Cell {
    const pos: Pos
    const blitRef: Pos
    const neighbors: int
    var state: State

    /** `Cell(pos, neighbors, blit_ref, hidden)`: hidden by default, open otherwise. */
    constructor (pos: Pos, neighbors: int, blitRef: Pos, hidden: bool)
      ensures this.pos == pos && this.neighbors == neighbors && this.blitRef == blitRef
      ensures state == if hidden then Hidden else Open
    {
      this.pos := pos;
      this.neighbors := neighbors;
      this.blitRef := blitRef;
      state := if hidden then Hidden else Open;
    }

    /** `select`: a hidden cell opens; the answer says whether the cell (by its
        proximity) is a mine, whatever its state. */
    method Select() returns (mine: bool)
      modifies this
      ensures state == Selected(old(state))
      ensures mine <==> neighbors == -1
    {
      if state == Hidden {
        state := Open;
      }
      mine := neighbors == -1;
    }

    /** `toggle_flag`. */
    method ToggleFlag()
      modifies this
      ensures state == Toggled(old(state))
    {
      if state == Hidden {
        state := Flagged;
      } else if state == Flagged {
        state := Hidden;
      }
    }

    /** `center`, for a cell of the given image size. */
    function CenterPixel(size: Pos): (c: Pos)
      requires size.0 > 0 && size.1 > 0
      ensures Inside(c, Reference(pos, blitRef, size), size)
    {
      Center(pos, blitRef, size)
    }
  }

  /** The mask of the cells in state `x` (`flag_layout`, `hidden_layout`, `open_layout`);
      it has as many ones as there are such cells. */
  function Layout(s: seq<seq<State>>, rows: nat, cols: nat, x: State): (m: seq<seq<bool>>)
    requires IsMatrix(s, rows, cols)
    ensures IsMatrix(m, rows, cols)
    ensures forall i, j :: 0 <= i < rows && 0 <= j < cols ==> m[i][j] == (s[i][j] == x)
    ensures Ones(m) == Count(s, x)
  {
    var m := seq(rows, i requires 0 <= i < rows => RowLayout(s[i], x));
    LayoutCount(s, m, rows, cols, x);
    m
  }

  /** One row of a layout. */
  function RowLayout(r: seq<State>, x: State): (m: seq<bool>)
    ensures |m| == |r| && forall k :: 0 <= k < |r| ==> m[k] == (r[k] == x)
    ensures RowCount(m, true) == RowCount(r, x)
  {
    var m := seq(|r|, k requires 0 <= k < |r| => r[k] == x);
    RowLayoutCount(r, m, x);
    m
  }

  lemma {:induction false} RowLayoutCount(r: seq<State>, m: seq<bool>, x: State)
    requires |m| == |r| && forall k :: 0 <= k < |r| ==> m[k] == (r[k] == x)
    ensures RowCount(m, true) == RowCount(r, x)
  {
    if |r| > 0 {
      RowLayoutCount(r[1..], m[1..], x);
    }
  }

  lemma {:induction false} LayoutCount(s: seq<seq<State>>, m: seq<seq<bool>>, rows: nat, cols: nat, x: State)
    requires IsMatrix(s, rows, cols) && |m| == rows
    requires forall i :: 0 <= i < rows ==> |m[i]| == |s[i]| && RowCount(m[i], true) == RowCount(s[i], x)
    ensures Ones(m) == Count(s, x)
  {
    if rows > 0 {
      LayoutCount(s[1..], m[1..], rows - 1, cols, x);
    }
  }

  /** The three layouts split the grid: their counts add up to the number of cells. */
  lemma LayoutsPartition(s: seq<seq<State>>, rows: nat, cols: nat)
    requires IsMatrix(s, rows, cols)
    ensures Ones(Layout(s, rows, cols, Hidden)) + Ones(Layout(s, rows, cols, Flagged)) + Ones(Layout(s, rows, cols, Open)) == rows * cols
  {
    forall i, j | 0 <= i < rows && 0 <= j < cols
      ensures s[i][j] == Hidden || s[i][j] == Flagged || s[i][j] == Open
    {
      match s[i][j]
      case Hidden =>
      case Flagged =>
      case Open =>
    }
    CountPartition3(s, rows, cols, Hidden, Flagged, Open);
  }

  /** From `s0` to `s1` every cell keeps its state or goes from hidden to open: what any
      sequence of selects does. Flags in particular never change. */
  ghost predicate Grows(s0: seq<seq<State>>, s1: seq<seq<State>>, rows: nat, cols: nat)
    requires IsMatrix(s0, rows, cols) && IsMatrix(s1, rows, cols)
  {
    forall i, j :: 0 <= i < rows && 0 <= j < cols ==> s1[i][j] == s0[i][j] || (s0[i][j] == Hidden && s1[i][j] == Open)
  }

  lemma GrowsTransitive(s0: seq<seq<State>>, s1: seq<seq<State>>, s2: seq<seq<State>>, rows: nat, cols: nat)
    requires IsMatrix(s0, rows, cols) && IsMatrix(s1, rows, cols) && IsMatrix(s2, rows, cols)
    requires Grows(s0, s1, rows, cols) && Grows(s1, s2, rows, cols)
    ensures Grows(s0, s2, rows, cols)
  {
  }

  /** Every cell of proximity 0 opened between `s0` and `s1` has no hidden neighbour
      left: the flood fill went all the way around it. */
  ghost predicate ZeroClosed(s0: seq<seq<State>>, s1: seq<seq<State>>, prox: seq<seq<int>>, rows: nat, cols: nat)
    requires IsMatrix(s0, rows, cols) && IsMatrix(s1, rows, cols) && IsMatrix(prox, rows, cols)
  {
    forall i, j, a ::
      0 <= i < rows && 0 <= j < cols && s1[i][j] != s0[i][j] && prox[i][j] == 0 && a in Adjacents((i, j), (rows, cols))
      ==> s1[a.0][a.1] != Hidden
  }

  /** No cell opened between `s0` and `s1` holds a mine. */
  ghost predicate NoMineOpened(s0: seq<seq<State>>, s1: seq<seq<State>>, mines: seq<seq<bool>>, rows: nat, cols: nat)
    requires IsMatrix(s0, rows, cols) && IsMatrix(s1, rows, cols) && IsMatrix(mines, rows, cols)
  {
    forall i, j :: 0 <= i < rows && 0 <= j < cols && s1[i][j] == Open && s0[i][j] != Open ==> !mines[i][j]
  }

  /** No cell opened between `s0` and `s1`, other than `pos`, holds a mine. */
  ghost predicate NoMineOpenedBut(s0: seq<seq<State>>, s1: seq<seq<State>>, mines: seq<seq<bool>>, rows: nat, cols: nat, pos: Pos)
    requires IsMatrix(s0, rows, cols) && IsMatrix(s1, rows, cols) && IsMatrix(mines, rows, cols)
  {
    forall i, j :: 0 <= i < rows && 0 <= j < cols && s1[i][j] == Open && s0[i][j] != Open && (i, j) != pos ==> !mines[i][j]
  }

  /** None of the cells `ps` is hidden in `s`. */
  ghost predicate AllShown(ps: seq<Pos>, s: seq<seq<State>>, rows: nat, cols: nat)
    requires IsMatrix(s, rows, cols)
  {
    forall p :: p in ps && InBounds(p, rows, cols) ==> s[p.0][p.1] != Hidden
  }

  /** Selecting the single cell `p` only opens it, opens no other mine, and, when `p`
      does not have proximity 0, leaves nothing for the flood fill to do. */
  lemma SelectOne(s: seq<seq<State>>, s': seq<seq<State>>, p: Pos, mines: seq<seq<bool>>, prox: seq<seq<int>>, rows: nat, cols: nat)
    requires IsMatrix(s, rows, cols) && IsMatrix(mines, rows, cols) && IsMatrix(prox, rows, cols) && InBounds(p, rows, cols)
    requires s' == SetEntry(s, rows, cols, p, Selected(s[p.0][p.1]))
    ensures Grows(s, s', rows, cols) && NoMineOpenedBut(s, s', mines, rows, cols, p)
    ensures prox[p.0][p.1] != 0 ==> ZeroClosed(s, s', prox, rows, cols)
  {
  }

  /** Every mine among the cells `ps` is flagged or open in `s`. */
  ghost predicate MinesCovered(ps: seq<Pos>, s: seq<seq<State>>, mines: seq<seq<bool>>, rows: nat, cols: nat)
    requires IsMatrix(s, rows, cols) && IsMatrix(mines, rows, cols)
  {
    forall p :: p in ps && InBounds(p, rows, cols) && mines[p.0][p.1] ==> s[p.0][p.1] != Hidden
  }

  /** The hidden cells of proximity 0: each turn of the flood fill that expands a cell
      opens one of them. */
  function HiddenZero(s: seq<seq<State>>, prox: seq<seq<int>>, rows: nat, cols: nat): (m: seq<seq<bool>>)
    requires IsMatrix(s, rows, cols) && IsMatrix(prox, rows, cols)
    ensures IsMatrix(m, rows, cols)
    ensures forall i, j :: 0 <= i < rows && 0 <= j < cols ==> m[i][j] == (s[i][j] == Hidden && prox[i][j] == 0)
  {
    seq(rows, i requires 0 <= i < rows => seq(cols, j requires 0 <= j < cols => s[i][j] == Hidden && prox[i][j] == 0))
  }

  /** The cells that are not hidden. The flood fill of `select` expands a popped cell of
      proximity 0 only while it is hidden, so this mask, taken before the select, is the
      open mask of its flood region. */
  function Uncovered(s: seq<seq<State>>, rows: nat, cols: nat): (m: seq<seq<bool>>)
    requires IsMatrix(s, rows, cols)
    ensures IsMatrix(m, rows, cols)
    ensures forall i, j :: 0 <= i < rows && 0 <= j < cols ==> m[i][j] == (s[i][j] != Hidden)
  {
    seq(rows, i requires 0 <= i < rows => seq(cols, j requires 0 <= j < cols => s[i][j] != Hidden))
  }

  /** The cells `s0` with `Cell.select` applied to every cell of `r` and to no other. */
  function SelectedAll(s0: seq<seq<State>>, r: set<Pos>, rows: nat, cols: nat): (s: seq<seq<State>>)
    requires IsMatrix(s0, rows, cols)
    ensures IsMatrix(s, rows, cols)
    ensures forall i, j :: 0 <= i < rows && 0 <= j < cols ==> s[i][j] == if (i, j) in r then Selected(s0[i][j]) else s0[i][j]
  {
    seq(rows, i requires 0 <= i < rows => seq(cols, j requires 0 <= j < cols => if (i, j) in r then Selected(s0[i][j]) else s0[i][j]))
  }

  /** The reference definition of `Grid.select(pos, propagate)` on the cells `s0`: every
      cell of the flood region of `pos` is selected and no other cell changes. The region
      is the least set holding `pos` and every neighbour of each of its hidden cells of
      proximity 0 (with propagation on). */
  ghost function AfterSelect(s0: seq<seq<State>>, prox: seq<seq<int>>, rows: nat, cols: nat, pos: Pos, propagate: bool): (s: seq<seq<State>>)
    requires IsMatrix(s0, rows, cols) && IsMatrix(prox, rows, cols) && InBounds(pos, rows, cols)
    ensures IsMatrix(s, rows, cols)
  {
    SelectedAll(s0, Reach(pos, Uncovered(s0, rows, cols), prox, rows, cols, propagate), rows, cols)
  }

  /** Selecting a flood region: cells only go from hidden to open, `pos` is selected,
      and every changed cell lies in every closed region of `pos`, so in its flood
      region and nowhere else. */
  lemma AfterSelectGrows(s0: seq<seq<State>>, prox: seq<seq<int>>, rows: nat, cols: nat, pos: Pos, propagate: bool)
    requires IsMatrix(s0, rows, cols) && IsMatrix(prox, rows, cols) && InBounds(pos, rows, cols)
    ensures var s := AfterSelect(s0, prox, rows, cols, pos, propagate);
            Grows(s0, s, rows, cols) && s[pos.0][pos.1] == Selected(s0[pos.0][pos.1])
            && forall t, i, j ::
                 (ClosedRegion(t, pos, Uncovered(s0, rows, cols), prox, rows, cols, propagate)
                  && 0 <= i < rows && 0 <= j < cols && s[i][j] != s0[i][j]) ==> (i, j) in t
  {
    ReachIsClosed(pos, Uncovered(s0, rows, cols), prox, rows, cols, propagate);
  }

  /** No cell the flood opens, other than `pos`, holds a mine: each is a neighbour of a
      cell of proximity 0. */
  lemma AfterSelectSafe(s0: seq<seq<State>>, mines: seq<seq<bool>>, rows: nat, cols: nat, pos: Pos, propagate: bool)
    requires IsMatrix(s0, rows, cols) && IsMatrix(mines, rows, cols) && InBounds(pos, rows, cols)
    ensures NoMineOpenedBut(s0, AfterSelect(s0, Neighbors(mines, rows, cols), rows, cols, pos, propagate), mines, rows, cols, pos)
  {
    var prox := Neighbors(mines, rows, cols);
    var u := Uncovered(s0, rows, cols);
    var s := AfterSelect(s0, prox, rows, cols, pos, propagate);
    forall i, j | 0 <= i < rows && 0 <= j < cols && s[i][j] == Open && s0[i][j] != Open && (i, j) != pos
      ensures !mines[i][j]
    {
      var e := ReachHasParent((i, j), pos, u, prox, rows, cols, propagate);
      ZeroProximityIsSafe(mines, rows, cols, e, (i, j));
    }
  }

  /** With propagation on, no cell of proximity 0 that the select opens keeps a hidden
      neighbour: the flood region holds its neighbours. */
  lemma AfterSelectZeroClosed(s0: seq<seq<State>>, prox: seq<seq<int>>, rows: nat, cols: nat, pos: Pos)
    requires IsMatrix(s0, rows, cols) && IsMatrix(prox, rows, cols) && InBounds(pos, rows, cols)
    ensures ZeroClosed(s0, AfterSelect(s0, prox, rows, cols, pos, true), prox, rows, cols)
  {
    var u := Uncovered(s0, rows, cols);
    ReachIsClosed(pos, u, prox, rows, cols, true);
    var r := Reach(pos, u, prox, rows, cols, true);
    var s := AfterSelect(s0, prox, rows, cols, pos, true);
    forall i, j, a | 0 <= i < rows && 0 <= j < cols && s[i][j] != s0[i][j] && prox[i][j] == 0 && a in Adjacents((i, j), (rows, cols))
      ensures s[a.0][a.1] != Hidden
    {
      assert Expands(u, prox, rows, cols, true, (i, j));
      assert a in r;
    }
  }

  /** A cell that starts no flood (no propagation, or a proximity other than 0) is its
      own flood region: `select` changes that cell alone. */
  lemma AfterSelectPlain(s0: seq<seq<State>>, prox: seq<seq<int>>, rows: nat, cols: nat, pos: Pos, propagate: bool)
    requires IsMatrix(s0, rows, cols) && IsMatrix(prox, rows, cols) && InBounds(pos, rows, cols)
    requires !(propagate && prox[pos.0][pos.1] == 0)
    ensures AfterSelect(s0, prox, rows, cols, pos, propagate) == SetEntry(s0, rows, cols, pos, Selected(s0[pos.0][pos.1]))
  {
    var u := Uncovered(s0, rows, cols);
    SingleRegion(pos, u, prox, rows, cols, propagate);
    ParentTreeIsLeast({pos}, pos, map[], map[pos := 0], u, prox, rows, cols, propagate);
    FloodRegionIsReach({pos}, pos, u, prox, rows, cols, propagate);
    MatrixExt(AfterSelect(s0, prox, rows, cols, pos, propagate), SetEntry(s0, rows, cols, pos, Selected(s0[pos.0][pos.1])), rows, cols);
  }

  /** The invariant of the flood fill of `Grid.select` from `pos`, started on the cells
      `s0`: `enq` holds every cell ever put in the queue `cand` and `done` every cell
      popped. The cells are `s0` with exactly the popped ones selected, every enqueued
      cell lies in the grid, the neighbours of each popped expanding cell were enqueued,
      and the enqueued cells form a tree of first visits from `pos`. */
  ghost predicate FillState(s0: seq<seq<State>>, s: seq<seq<State>>, cand: seq<Pos>, enq: set<Pos>, done: set<Pos>,
                            parent: map<Pos, Pos>, rank: map<Pos, nat>, prox: seq<seq<int>>, rows: nat, cols: nat, pos: Pos)
    requires IsMatrix(s0, rows, cols) && IsMatrix(s, rows, cols) && IsMatrix(prox, rows, cols)
  {
    (forall i, j :: 0 <= i < rows && 0 <= j < cols ==> s[i][j] == if (i, j) in done then Selected(s0[i][j]) else s0[i][j])
    && pos in enq && (forall q :: q in enq ==> InBounds(q, rows, cols))
    && QueueInv(cand, enq, done)
    && ClosureInv(done, enq, Uncovered(s0, rows, cols), prox, rows, cols)
    && ParentTree(enq, pos, parent, rank, Uncovered(s0, rows, cols), prox, rows, cols, true)
  }

  /** The queue `deque([pos])` starts the invariant. */
  lemma FillStart(s0: seq<seq<State>>, prox: seq<seq<int>>, rows: nat, cols: nat, pos: Pos)
    requires IsMatrix(s0, rows, cols) && IsMatrix(prox, rows, cols) && InBounds(pos, rows, cols)
    ensures FillState(s0, s0, [pos], {pos}, {}, map[], map[pos := 0], prox, rows, cols, pos)
  {
  }

  /** One turn of the flood fill keeps the invariant and decreases its measure: pop
      `next`; if it has proximity 0 and is hidden (`expand`), queue its neighbours;
      select it. The hidden zero cells lose one, or stay and the queue shortens. */
  lemma FillStep(s0: seq<seq<State>>, s: seq<seq<State>>, s': seq<seq<State>>, cand: seq<Pos>, enq: set<Pos>, done: set<Pos>,
                 parent: map<Pos, Pos>, rank: map<Pos, nat>, expand: bool, prox: seq<seq<int>>, rows: nat, cols: nat, pos: Pos)
      returns (parent': map<Pos, Pos>, rank': map<Pos, nat>)
    requires IsMatrix(s0, rows, cols) && IsMatrix(s, rows, cols) && IsMatrix(prox, rows, cols) && |cand| > 0
    requires FillState(s0, s, cand, enq, done, parent, rank, prox, rows, cols, pos)
    requires InBounds(cand[0], rows, cols)
    requires expand == (prox[cand[0].0][cand[0].1] == 0 && s[cand[0].0][cand[0].1] == Hidden)
    requires s' == SetEntry(s, rows, cols, cand[0], Selected(s[cand[0].0][cand[0].1]))
    ensures var added := if expand then Adjacents(cand[0], (rows, cols)) else [];
            FillState(s0, s', cand[1..] + added, enq + (set a | a in added), done + {cand[0]}, parent', rank', prox, rows, cols, pos)
    ensures var added := if expand then Adjacents(cand[0], (rows, cols)) else [];
            Ones(HiddenZero(s', prox, rows, cols)) < Ones(HiddenZero(s, prox, rows, cols))
            || (Ones(HiddenZero(s', prox, rows, cols)) == Ones(HiddenZero(s, prox, rows, cols)) && |cand[1..] + added| < |cand|)
  {
    var next := cand[0];
    var u := Uncovered(s0, rows, cols);
    var added := if expand then Adjacents(next, (rows, cols)) else [];
    assert next in cand;
    FillCells(s0, s, s', done, next, rows, cols);
    parent', rank' := FillTree(s0, s, enq, done, parent, rank, next, expand, prox, rows, cols, pos);
    QueueStep(cand, enq, done, added);
    ClosureStep(done, enq, next, added, u, prox, rows, cols);
    FillMeasure(s, s', next, prox, rows, cols);
  }

  /** Selecting the popped cell `next` keeps the cells equal to `s0` with exactly the
      popped ones selected (selecting twice is selecting once). */
  lemma FillCells(s0: seq<seq<State>>, s: seq<seq<State>>, s': seq<seq<State>>, done: set<Pos>, next: Pos, rows: nat, cols: nat)
    requires IsMatrix(s0, rows, cols) && IsMatrix(s, rows, cols) && InBounds(next, rows, cols)
    requires forall i, j :: 0 <= i < rows && 0 <= j < cols ==> s[i][j] == if (i, j) in done then Selected(s0[i][j]) else s0[i][j]
    requires s' == SetEntry(s, rows, cols, next, Selected(s[next.0][next.1]))
    ensures forall i, j :: 0 <= i < rows && 0 <= j < cols ==> s'[i][j] == if (i, j) in done + {next} then Selected(s0[i][j]) else s0[i][j]
  {
  }

  /** A popped cell that expands is hidden, so it was not popped before and was hidden
      at the start: it expands in the flood region, and its neighbours extend the tree
      of first visits. */
  lemma FillTree(s0: seq<seq<State>>, s: seq<seq<State>>, enq: set<Pos>, done: set<Pos>, parent: map<Pos, Pos>, rank: map<Pos, nat>,
                 next: Pos, expand: bool, prox: seq<seq<int>>, rows: nat, cols: nat, pos: Pos)
      returns (parent': map<Pos, Pos>, rank': map<Pos, nat>)
    requires IsMatrix(s0, rows, cols) && IsMatrix(s, rows, cols) && IsMatrix(prox, rows, cols) && InBounds(next, rows, cols)
    requires forall i, j :: 0 <= i < rows && 0 <= j < cols ==> s[i][j] == if (i, j) in done then Selected(s0[i][j]) else s0[i][j]
    requires pos in enq && next in enq
    requires ParentTree(enq, pos, parent, rank, Uncovered(s0, rows, cols), prox, rows, cols, true)
    requires expand == (prox[next.0][next.1] == 0 && s[next.0][next.1] == Hidden)
    ensures Expands(Uncovered(s0, rows, cols), prox, rows, cols, true, next) && next !in done ==> expand
    ensures var added := if expand then Adjacents(next, (rows, cols)) else [];
            ParentTree(enq + (set a | a in added), pos, parent', rank', Uncovered(s0, rows, cols), prox, rows, cols, true)
  {
    var u := Uncovered(s0, rows, cols);
    parent', rank' := parent, rank;
    if expand {
      assert Expands(u, prox, rows, cols, true, next);
      parent', rank' := ParentTreeExtend(enq, pos, parent, rank, u, prox, rows, cols, next);
    } else {
      assert enq + (set a | a in []) == enq;
    }
  }


  /** An empty queue ends the fill: the popped cells are the enqueued ones, a closed
      region with a tree of first visits, hence the flood region, and the cells are the
      reference `AfterSelect`. */
  lemma FillDone(s0: seq<seq<State>>, s: seq<seq<State>>, enq: set<Pos>, done: set<Pos>,
                 parent: map<Pos, Pos>, rank: map<Pos, nat>, prox: seq<seq<int>>, rows: nat, cols: nat, pos: Pos)
    requires IsMatrix(s0, rows, cols) && IsMatrix(s, rows, cols) && IsMatrix(prox, rows, cols) && InBounds(pos, rows, cols)
    requires FillState(s0, s, [], enq, done, parent, rank, prox, rows, cols, pos)
    ensures s == AfterSelect(s0, prox, rows, cols, pos, true)
  {
    var u := Uncovered(s0, rows, cols);
    assert enq == done;
    assert ClosedRegion(enq, pos, u, prox, rows, cols, true);
    ParentTreeIsLeast(enq, pos, parent, rank, u, prox, rows, cols, true);
    FloodRegionIsReach(enq, pos, u, prox, rows, cols, true);
    MatrixExt(s, AfterSelect(s0, prox, rows, cols, pos, true), rows, cols);
  }

  /** The measure of the flood fill: the hidden zero cells lose one when `next`
      expands, and stay as they were otherwise. */
  lemma FillMeasure(s: seq<seq<State>>, s': seq<seq<State>>, next: Pos, prox: seq<seq<int>>, rows: nat, cols: nat)
    requires IsMatrix(s, rows, cols) && IsMatrix(prox, rows, cols) && InBounds(next, rows, cols)
    requires s' == SetEntry(s, rows, cols, next, Selected(s[next.0][next.1]))
    ensures Ones(HiddenZero(s', prox, rows, cols)) + (if prox[next.0][next.1] == 0 && s[next.0][next.1] == Hidden then 1 else 0)
            == Ones(HiddenZero(s, prox, rows, cols))
  {
    var hz, hz' := HiddenZero(s, prox, rows, cols), HiddenZero(s', prox, rows, cols);
    MatrixExt(hz', SetEntry(hz, rows, cols, next, false), rows, cols);
    CountUpdate(hz, next.0, next.1, false, true);
  }

  /** One `select` among several: when the cells only grew before it, every mine among
      the targets was flagged or open at the start, and the select opened no mine
      besides its own cell `p`, a target, then no mine was opened at all. */
  lemma SelectStep(s0: seq<seq<State>>, s: seq<seq<State>>, s': seq<seq<State>>, ps: seq<Pos>, p: Pos,
                   mines: seq<seq<bool>>, rows: nat, cols: nat)
    requires IsMatrix(s0, rows, cols) && IsMatrix(s, rows, cols) && IsMatrix(s', rows, cols) && IsMatrix(mines, rows, cols)
    requires Grows(s0, s, rows, cols) && Grows(s, s', rows, cols) && p in ps && InBounds(p, rows, cols)
    requires s'[p.0][p.1] == Selected(s[p.0][p.1])
    requires NoMineOpenedBut(s, s', mines, rows, cols, p)
    requires MinesCovered(ps, s0, mines, rows, cols) && NoMineOpened(s0, s, mines, rows, cols)
    ensures Grows(s0, s', rows, cols)
    ensures NoMineOpened(s0, s', mines, rows, cols)
  {
  }

  /** How a select from later cells relates to one from earlier cells: once the cells
      only grew, the flood region of `pos` can only shrink, since every cell that
      still expands expanded before. */
  lemma ReachShrinks(s0: seq<seq<State>>, s1: seq<seq<State>>, prox: seq<seq<int>>, rows: nat, cols: nat, pos: Pos)
    requires IsMatrix(s0, rows, cols) && IsMatrix(s1, rows, cols) && IsMatrix(prox, rows, cols) && InBounds(pos, rows, cols)
    requires Grows(s0, s1, rows, cols)
    ensures Reach(pos, Uncovered(s1, rows, cols), prox, rows, cols, true) <= Reach(pos, Uncovered(s0, rows, cols), prox, rows, cols, true)
  {
    var u0, u1 := Uncovered(s0, rows, cols), Uncovered(s1, rows, cols);
    var r0 := Reach(pos, u0, prox, rows, cols, true);
    ReachIsClosed(pos, u0, prox, rows, cols, true);
    forall e | Expands(u1, prox, rows, cols, true, e)
      ensures Expands(u0, prox, rows, cols, true, e)
    {
    }
    assert ClosedRegion(r0, pos, u1, prox, rows, cols, true);
  }

  /** The reference definition of selecting, with propagation, each cell of `ps` in
      turn from the cells `s0`. */
  ghost function Selects(s0: seq<seq<State>>, prox: seq<seq<int>>, rows: nat, cols: nat, ps: seq<Pos>): (s: seq<seq<State>>)
    requires IsMatrix(s0, rows, cols) && IsMatrix(prox, rows, cols) && forall p :: p in ps ==> InBounds(p, rows, cols)
    ensures IsMatrix(s, rows, cols)
    decreases |ps|
  {
    if |ps| == 0 then s0
    else
      assert forall p :: p in ps[..|ps| - 1] ==> p in ps;
      AfterSelect(Selects(s0, prox, rows, cols, ps[..|ps| - 1]), prox, rows, cols, ps[|ps| - 1], true)
  }

  /** Selecting the first `k + 1` cells of `ps` is selecting the first `k`, then `ps[k]`. */
  lemma SelectsStep(s0: seq<seq<State>>, prox: seq<seq<int>>, rows: nat, cols: nat, ps: seq<Pos>, k: nat)
    requires IsMatrix(s0, rows, cols) && IsMatrix(prox, rows, cols) && forall p :: p in ps ==> InBounds(p, rows, cols)
    requires k < |ps|
    ensures forall p :: p in ps[..k] ==> InBounds(p, rows, cols)
    ensures Selects(s0, prox, rows, cols, ps[..k + 1]) == AfterSelect(Selects(s0, prox, rows, cols, ps[..k]), prox, rows, cols, ps[k], true)
  {
    assert ps[..k + 1][..k] == ps[..k];
    assert ps[..k + 1][k] == ps[k];
  }

  /** Selecting the cells `ts` and then `t` is selecting `ts + [t]`. */
  lemma SelectsSnoc(s0: seq<seq<State>>, prox: seq<seq<int>>, rows: nat, cols: nat, ts: seq<Pos>, t: Pos)
    requires IsMatrix(s0, rows, cols) && IsMatrix(prox, rows, cols)
    requires (forall p :: p in ts ==> InBounds(p, rows, cols)) && InBounds(t, rows, cols)
    ensures Selects(s0, prox, rows, cols, ts + [t]) == AfterSelect(Selects(s0, prox, rows, cols, ts), prox, rows, cols, t, true)
  {
    assert (ts + [t])[..|ts|] == ts;
  }

  /** The flood regions, on the cells `s0`, of the cells `ps`. */
  ghost function RegionsOf(s0: seq<seq<State>>, prox: seq<seq<int>>, rows: nat, cols: nat, ps: seq<Pos>): set<Pos>
    requires IsMatrix(s0, rows, cols) && IsMatrix(prox, rows, cols)
    decreases |ps|
  {
    if |ps| == 0 then {}
    else RegionsOf(s0, prox, rows, cols, ps[..|ps| - 1]) + Reach(ps[|ps| - 1], Uncovered(s0, rows, cols), prox, rows, cols, true)
  }

  /** Selecting several cells in turn only opens cells, and only cells of the flood
      region, in the starting cells, of one of them. */
  lemma {:induction false} SelectsWithin(s0: seq<seq<State>>, prox: seq<seq<int>>, rows: nat, cols: nat, ps: seq<Pos>)
    requires IsMatrix(s0, rows, cols) && IsMatrix(prox, rows, cols) && forall p :: p in ps ==> InBounds(p, rows, cols)
    ensures var s := Selects(s0, prox, rows, cols, ps);
            Grows(s0, s, rows, cols)
            && forall i, j :: 0 <= i < rows && 0 <= j < cols && s[i][j] != s0[i][j] ==> (i, j) in RegionsOf(s0, prox, rows, cols, ps)
  {
    if |ps| > 0 {
      var front, p := ps[..|ps| - 1], ps[|ps| - 1];
      assert forall q :: q in front ==> q in ps;
      SelectsWithin(s0, prox, rows, cols, front);
      var s1 := Selects(s0, prox, rows, cols, front);
      AfterSelectGrows(s1, prox, rows, cols, p, true);
      ReachShrinks(s0, s1, prox, rows, cols, p);
    }
  }
  /** Selecting several cells in turn leaves none of them hidden. */
  lemma {:induction false} SelectsShown(s0: seq<seq<State>>, prox: seq<seq<int>>, rows: nat, cols: nat, ps: seq<Pos>)
    requires IsMatrix(s0, rows, cols) && IsMatrix(prox, rows, cols) && forall p :: p in ps ==> InBounds(p, rows, cols)
    ensures AllShown(ps, Selects(s0, prox, rows, cols, ps), rows, cols)
  {
    if |ps| > 0 {
      var front, p := ps[..|ps| - 1], ps[|ps| - 1];
      assert forall q :: q in front ==> q in ps;
      assert forall q :: q in ps ==> q in front || q == p;
      SelectsShown(s0, prox, rows, cols, front);
      AfterSelectGrows(Selects(s0, prox, rows, cols, front), prox, rows, cols, p, true);
    }
  }

  /** Selecting several cells in turn opens no mine when every mine among them was
      flagged or open at the start. */
  lemma {:induction false} SelectsSafe(s0: seq<seq<State>>, mines: seq<seq<bool>>, rows: nat, cols: nat, ps: seq<Pos>)
    requires IsMatrix(s0, rows, cols) && IsMatrix(mines, rows, cols) && forall p :: p in ps ==> InBounds(p, rows, cols)
    requires MinesCovered(ps, s0, mines, rows, cols)
    ensures NoMineOpened(s0, Selects(s0, Neighbors(mines, rows, cols), rows, cols, ps), mines, rows, cols)
  {
    if |ps| > 0 {
      var prox := Neighbors(mines, rows, cols);
      var front, p := ps[..|ps| - 1], ps[|ps| - 1];
      assert forall q :: q in front ==> q in ps;
      SelectsSafe(s0, mines, rows, cols, front);
      SelectsWithin(s0, prox, rows, cols, front);
      var s1 := Selects(s0, prox, rows, cols, front);
      AfterSelectGrows(s1, prox, rows, cols, p, true);
      AfterSelectSafe(s1, mines, rows, cols, p, true);
      SelectStep(s0, s1, AfterSelect(s1, prox, rows, cols, p, true), ps, p, mines, rows, cols);
    }
  }



  /** The pixel `c` lies in the rectangle `[corner, corner + n * size)`, row by row and
      column by column exactly when its cell falls inside an `n.0` by `n.1` grid. */
  lemma FloorDivRange(a: int, s: int, n: int)
    requires s > 0
    ensures 0 <= a < n * s <==> 0 <= a / s < n
  {
    var q := a / s;
    assert q * s <= a < q * s + s;
    if 0 <= a < n * s {
      if q < 0 {
        MulMonotone(q + 1, 0, s);
      }
      if q >= n {
        MulMonotone(s, n, q);
      }
    }
    if 0 <= q < n {
      MulMonotone(s, 0, q);
      MulMonotone(s, q + 1, n);
    }
  }

  lemma MulMonotone(x: int, a: int, b: int)
    requires x >= 0 && a <= b
    ensures x * a <= x * b
  {
    assert x * b - x * a == x * (b - a);
  }

  /** Dividing `q * s + r` by `s` gives back `q` when `r` is a remainder. */
  lemma DivOfCell(q: int, s: int, r: int)
    requires s > 0 && 0 <= r < s
    ensures (q * s + r) / s == q
  {
    var a := q * s + r;
    var d := a / s;
    assert d * s <= a < d * s + s;
    if d < q {
      MulMonotone(s, d + 1, q);
    }
    if d > q {
      MulMonotone(s, q + 1, d);
    }
  }

  /** The grid of cells: the mine layout, its proximity matrix, the pixel corner the
      grid is drawn from, the image size of a cell and the state of every cell. */
  class Grid {
    const rows: nat
    const cols: nat
    const mines: seq<seq<bool>>
    const proximity: seq<seq<int>>
    const blitRef: Pos
    const cellSize: Pos
    const states: array2<State>

    /** The layout and the cells have the grid's shape, the proximity is that of the
        layout (`add_neighbors`), and the cell images are not empty. */
    ghost predicate Valid()
    {
      IsMatrix(mines, rows, cols) && proximity == Neighbors(mines, rows, cols)
      && states.Length0 == rows && states.Length1 == cols && cellSize.0 > 0 && cellSize.1 > 0
    }

    /** `Grid(mine_layout, blit_ref)`: every cell hidden, with its proximity. */
    constructor (mineLayout: seq<seq<bool>>, rows: nat, cols: nat, blitRef: Pos, cellSize: Pos)
      requires IsMatrix(mineLayout, rows, cols) && cellSize.0 > 0 && cellSize.1 > 0
      ensures Valid() && this.rows == rows && this.cols == cols && mines == mineLayout
      ensures this.blitRef == blitRef && this.cellSize == cellSize
      ensures fresh(states) && Matrix(states) == Filled(rows, cols, Hidden)
    {
      this.rows := rows;
      this.cols := cols;
      mines := mineLayout;
      proximity := Neighbors(mineLayout, rows, cols);
      this.blitRef := blitRef;
      this.cellSize := cellSize;
      states := new State[rows, cols]((i, j) => Hidden);
      new;
      MatrixExt(Matrix(states), Filled(rows, cols, Hidden), rows, cols);
    }

    /** `select`: with propagation on and a cell of proximity 0, the queue flood fill;
        then the cell itself. The cells become the reference `AfterSelect`: the flood
        region of `pos` selected and nothing else. Hence cells only go from hidden to
        open, `pos` is selected, no cell opened besides `pos` holds a mine, with
        propagation on no opened cell of proximity 0 keeps a hidden neighbour, and
        without a flood only `pos` changes. */
    method Select(pos: Pos, propagate: bool)
      requires Valid() && InBounds(pos, rows, cols)
      modifies states
      ensures Grows(old(Matrix(states)), Matrix(states), rows, cols)
      ensures states[pos.0, pos.1] == Selected(old(states[pos.0, pos.1]))
      ensures NoMineOpenedBut(old(Matrix(states)), Matrix(states), mines, rows, cols, pos)
      ensures propagate ==> ZeroClosed(old(Matrix(states)), Matrix(states), proximity, rows, cols)
      ensures !(propagate && proximity[pos.0][pos.1] == 0)
              ==> Matrix(states) == SetEntry(old(Matrix(states)), rows, cols, pos, Selected(old(states[pos.0, pos.1])))
      ensures Matrix(states) == AfterSelect(old(Matrix(states)), proximity, rows, cols, pos, propagate)
    {
      ghost var s0 := Matrix(states);
      AfterSelectGrows(s0, proximity, rows, cols, pos, propagate);
      if propagate && proximity[pos.0][pos.1] == 0 {
        FloodFill(pos);
        ghost var before := Matrix(states);
        assert Selected(before[pos.0][pos.1]) == before[pos.0][pos.1];
        SelectCell(pos);
        SetEntrySame(before, rows, cols, pos);
        AfterSelectZeroClosed(s0, proximity, rows, cols, pos);
      } else {
        SelectCell(pos);
        AfterSelectPlain(s0, proximity, rows, cols, pos, propagate);
        SelectOne(s0, Matrix(states), pos, mines, proximity, rows, cols);
      }
      AfterSelectSafe(s0, mines, rows, cols, pos, propagate);
    }

    /** The `while len(candidates) != 0` loop of `select`, from a cell of proximity 0:
        the cells become the reference `AfterSelect` with propagation. It ends: each
        turn either opens a hidden zero cell or shortens the queue. */
    method FloodFill(pos: Pos)
      requires Valid() && InBounds(pos, rows, cols) && proximity[pos.0][pos.1] == 0
      modifies states
      ensures Matrix(states) == AfterSelect(old(Matrix(states)), proximity, rows, cols, pos, true)
    {
      ghost var s0 := Matrix(states);
      ghost var s := s0;
      var candidates := [pos];
      ghost var enq: set<Pos>, done: set<Pos> := {pos}, {};
      ghost var parent: map<Pos, Pos>, rank: map<Pos, nat> := map[], map[pos := 0];
      FillStart(s0, proximity, rows, cols, pos);
      while |candidates| != 0
        invariant IsMatrix(s, rows, cols) && Matrix(states) == s
        invariant FillState(s0, s, candidates, enq, done, parent, rank, proximity, rows, cols, pos)
        decreases Ones(HiddenZero(s, proximity, rows, cols)), |candidates|
      {
        candidates, enq, done, parent, rank, s := FloodTurn(candidates, enq, done, parent, rank, s0, s, pos);
      }
      FillDone(s0, s, enq, done, parent, rank, proximity, rows, cols, pos);
    }

    /** One turn of the flood fill: pop the head; if it has proximity 0 and is hidden,
        append its neighbours; select it. */
    method FloodTurn(candidates: seq<Pos>, ghost enq: set<Pos>, ghost done: set<Pos>, ghost parent: map<Pos, Pos>,
                     ghost rank: map<Pos, nat>, ghost s0: seq<seq<State>>, ghost s: seq<seq<State>>, ghost pos: Pos)
      returns (candidates': seq<Pos>, ghost enq': set<Pos>, ghost done': set<Pos>, ghost parent': map<Pos, Pos>,
               ghost rank': map<Pos, nat>, ghost s': seq<seq<State>>)
      requires Valid() && |candidates| > 0 && IsMatrix(s0, rows, cols) && IsMatrix(s, rows, cols) && Matrix(states) == s
      requires FillState(s0, s, candidates, enq, done, parent, rank, proximity, rows, cols, pos)
      modifies states
      ensures IsMatrix(s', rows, cols) && Matrix(states) == s'
      ensures FillState(s0, s', candidates', enq', done', parent', rank', proximity, rows, cols, pos)
      ensures Ones(HiddenZero(s', proximity, rows, cols)) < Ones(HiddenZero(s, proximity, rows, cols))
              || (Ones(HiddenZero(s', proximity, rows, cols)) == Ones(HiddenZero(s, proximity, rows, cols))
                  && |candidates'| < |candidates|)
    {
      var next := candidates[0];
      assert next in candidates;
      assert states[next.0, next.1] == s[next.0][next.1];
      var expand := proximity[next.0][next.1] == 0 && states[next.0, next.1] == Hidden;
      var adj := Adjacents(next, (rows, cols));
      ghost var added := if expand then adj else [];
      if expand {
        candidates' := Enqueue(candidates[1..], adj);
      } else {
        candidates' := candidates[1..];
        assert candidates' == candidates[1..] + [];
      }
      enq', done' := enq + (set a | a in added), done + {next};
      s' := SetEntry(s, rows, cols, next, Selected(s[next.0][next.1]));
      parent', rank' := FillStep(s0, s, s', candidates, enq, done, parent, rank, expand, proximity, rows, cols, pos);
      SelectCell(next);
    }

    /** `self.grid[p].select()`: the cell's state becomes `Selected` of it; no other
        cell changes. */
    method SelectCell(p: Pos)
      requires Valid() && InBounds(p, rows, cols)
      modifies states
      ensures Matrix(states) == SetEntry(old(Matrix(states)), rows, cols, p, Selected(old(states[p.0, p.1])))
    {
      ghost var before := Matrix(states);
      states[p.0, p.1] := Selected(states[p.0, p.1]);
      MatrixExt(Matrix(states), SetEntry(before, rows, cols, p, Selected(before[p.0][p.1])), rows, cols);
    }

    /** The `for adj_cell in ...: candidates.append(adj_cell)` loop. */
    static method Enqueue(queue: seq<Pos>, cells: seq<Pos>) returns (r: seq<Pos>)
      ensures r == queue + cells
    {
      r := queue;
      for t := 0 to |cells|
        invariant r == queue + cells[..t]
      {
        assert cells[..t + 1] == cells[..t] + [cells[t]];
        r := r + [cells[t]];
      }
      assert cells[..|cells|] == cells;
    }

    /** `toggle_flag`: the cell's flag is toggled; no other cell changes. */
    method ToggleFlag(pos: Pos)
      requires Valid() && InBounds(pos, rows, cols)
      modifies states
      ensures Matrix(states) == SetEntry(old(Matrix(states)), rows, cols, pos, Toggled(old(states[pos.0, pos.1])))
    {
      ghost var before := Matrix(states);
      states[pos.0, pos.1] := Toggled(states[pos.0, pos.1]);
      MatrixExt(Matrix(states), SetEntry(before, rows, cols, pos, Toggled(before[pos.0][pos.1])), rows, cols);
    }

    /** The counting loop of `chord` over the cells `ps`: those flagged, or open with
        proximity -1, which is the count of known mines among them. */
    method KnownAmong(ps: seq<Pos>) returns (n: nat)
      requires Valid() && forall q :: q in ps ==> InBounds(q, rows, cols)
      ensures n == CountAt(KnownMines(Layout(Matrix(states), rows, cols, Open), Layout(Matrix(states), rows, cols, Flagged), mines, rows, cols),
                           rows, cols, ps)
    {
      ghost var known := KnownMines(Layout(Matrix(states), rows, cols, Open), Layout(Matrix(states), rows, cols, Flagged), mines, rows, cols);
      n := 0;
      var k := 0;
      while k < |ps|
        invariant 0 <= k <= |ps|
        invariant n + CountAt(known, rows, cols, ps[k..]) == CountAt(known, rows, cols, ps)
      {
        var q := ps[k];
        CountAtSuffix(known, rows, cols, ps, k);
        assert known[q.0][q.1] == (states[q.0, q.1] == Flagged || (states[q.0, q.1] == Open && mines[q.0][q.1]));
        if states[q.0, q.1] == Flagged || (states[q.0, q.1] == Open && proximity[q.0][q.1] == -1) {
          n := n + 1;
        }
        k := k + 1;
      }
    }

    /** `select(p)` with propagation for each `p` of `ps` in turn: the cells become the
        reference `Selects`, and only cells of the flood region of some target change.
        Cells only open, every target ends up flagged or open, and when every mine
        among the targets was flagged or open beforehand no mine opens. */
    method SelectEach(ps: seq<Pos>)
      requires Valid() && forall p :: p in ps ==> InBounds(p, rows, cols)
      modifies states
      ensures Grows(old(Matrix(states)), Matrix(states), rows, cols)
      ensures AllShown(ps, Matrix(states), rows, cols)
      ensures MinesCovered(ps, old(Matrix(states)), mines, rows, cols) ==> NoMineOpened(old(Matrix(states)), Matrix(states), mines, rows, cols)
      ensures Matrix(states) == Selects(old(Matrix(states)), proximity, rows, cols, ps)
      ensures forall i, j :: 0 <= i < rows && 0 <= j < cols && states[i, j] != old(states[i, j])
                ==> (i, j) in RegionsOf(old(Matrix(states)), proximity, rows, cols, ps)
    {
      ghost var s0 := Matrix(states);
      var k := 0;
      assert ps[..0] == [];
      while k < |ps|
        invariant 0 <= k <= |ps|
        invariant Matrix(states) == Selects(s0, proximity, rows, cols, ps[..k])
      {
        SelectTurn(ps, k, s0);
        k := k + 1;
      }
      assert ps[..|ps|] == ps;
      SelectsWithin(s0, proximity, rows, cols, ps);
      SelectsShown(s0, proximity, rows, cols, ps);
      if MinesCovered(ps, s0, mines, rows, cols) {
        SelectsSafe(s0, mines, rows, cols, ps);
      }
    }

    /** One turn of the loop of `SelectEach`: `select(ps[k])`. */
    method SelectTurn(ps: seq<Pos>, k: nat, ghost s0: seq<seq<State>>)
      requires Valid() && k < |ps| && forall p :: p in ps ==> InBounds(p, rows, cols)
      requires IsMatrix(s0, rows, cols) && Matrix(states) == Selects(s0, proximity, rows, cols, ps[..k])
      modifies states
      ensures Matrix(states) == Selects(s0, proximity, rows, cols, ps[..k + 1])
    {
      var p := ps[k];
      assert p in ps;
      Select(p, true);
      SelectsStep(s0, proximity, rows, cols, ps, k);
    }

    /** `chord`: on an open cell whose known mines around it match its proximity, select
        every neighbour in turn (the reference `Selects`), which leaves none of them
        hidden; otherwise nothing changes. Only cells of the flood regions of the
        neighbours change, cells only open, and when every flag marks a mine no mine
        opens. */
    method Chord(pos: Pos)
      requires Valid() && InBounds(pos, rows, cols)
      modifies states
      ensures !Fires(old(Matrix(states)), pos) ==> Matrix(states) == old(Matrix(states))
      ensures Grows(old(Matrix(states)), Matrix(states), rows, cols)
      ensures Fires(old(Matrix(states)), pos) ==> AllShown(Adjacents(pos, (rows, cols)), Matrix(states), rows, cols)
      ensures FlagsOnMines(Layout(old(Matrix(states)), rows, cols, Flagged), mines, rows, cols)
              ==> NoMineOpened(old(Matrix(states)), Matrix(states), mines, rows, cols)
      ensures Fires(old(Matrix(states)), pos) ==> Matrix(states) == Selects(old(Matrix(states)), proximity, rows, cols, Adjacents(pos, (rows, cols)))
      ensures forall i, j :: 0 <= i < rows && 0 <= j < cols && states[i, j] != old(states[i, j])
                ==> (i, j) in RegionsOf(old(Matrix(states)), proximity, rows, cols, Adjacents(pos, (rows, cols)))
    {
      if states[pos.0, pos.1] != Open {
        return;
      }
      var adj := Adjacents(pos, (rows, cols));
      var n := KnownAmong(adj);
      if n == proximity[pos.0][pos.1] {
        ghost var s0 := Matrix(states);
        SelectEach(adj);
        if FlagsOnMines(Layout(s0, rows, cols, Flagged), mines, rows, cols) {
          ChordFindsEveryMine(Layout(s0, rows, cols, Open), Layout(s0, rows, cols, Flagged), mines, rows, cols, pos);
          assert MinesCovered(adj, s0, mines, rows, cols);
        }
      }
    }

    /** The test of `chord` on the cells `s`, in terms of the masks. */
    ghost predicate Fires(s: seq<seq<State>>, pos: Pos)
      requires Valid() && IsMatrix(s, rows, cols) && InBounds(pos, rows, cols)
    {
      ChordFires(Layout(s, rows, cols, Open), Layout(s, rows, cols, Flagged), mines, proximity, rows, cols, pos)
    }

    /** `superchord`: does nothing on this grid. */
    method Superchord()
      ensures Matrix(states) == old(Matrix(states))
    {
    }

    /** `get_cell_pos`: floor division of the offset from the grid's corner by the cell
        size; the pixel lies in the rectangle of the cell it names. */
    function CellPos(coords: Pos): (p: Pos)
      requires Valid()
      ensures Inside(coords, Reference(p, blitRef, cellSize), cellSize)
    {
      var p := ((coords.0 - blitRef.0) / cellSize.0, (coords.1 - blitRef.1) / cellSize.1);
      assert p.0 * cellSize.0 <= coords.0 - blitRef.0 < p.0 * cellSize.0 + cellSize.0;
      assert p.1 * cellSize.1 <= coords.1 - blitRef.1 < p.1 * cellSize.1 + cellSize.1;
      p
    }

    /** `rect.collidepoint(coords)`, with `rect` the grid's `blit_ref` and `size`
        (`grid_size * cell_size`): the pixel hits the grid exactly when the cell it
        names lies inside it. */
    function Collides(coords: Pos): (b: bool)
      requires Valid()
      ensures b <==> InBounds(CellPos(coords), rows, cols)
    {
      FloorDivRange(coords.0 - blitRef.0, cellSize.0, rows);
      FloorDivRange(coords.1 - blitRef.1, cellSize.1, cols);
      Inside(coords, blitRef, (rows * cellSize.0, cols * cellSize.1))
    }

    /** The center of a cell, as `chord` of the pixel grid computes it (a cell is
        made with the default `blit_ref` (0, 0)), names that cell again when the grid
        is drawn from (0, 0). */
    lemma CenterRoundTrip(p: Pos)
      requires Valid() && blitRef == (0, 0) && InBounds(p, rows, cols)
      ensures Collides(Center(p, (0, 0), cellSize)) && CellPos(Center(p, (0, 0), cellSize)) == p
    {
      DivOfCell(p.0, cellSize.0, cellSize.0 / 2);
      DivOfCell(p.1, cellSize.1, cellSize.1 / 2);
    }

    /** `proximity_matrix`: for every cell, -1 on a mine and the number of adjacent
        mines elsewhere. */
    function ProximityMatrix(): (prox: seq<seq<int>>)
      requires Valid()
      ensures IsMatrix(prox, rows, cols)
      ensures forall i, j :: 0 <= i < rows && 0 <= j < cols ==>
                prox[i][j] == if mines[i][j] then -1 else AdjacentMines(mines, rows, cols, (i, j))
    {
      forall i, j | 0 <= i < rows && 0 <= j < cols
        ensures proximity[i][j] == if mines[i][j] then -1 else AdjacentMines(mines, rows, cols, (i, j))
      {
        NeighborsCountAdjacentMines(mines, rows, cols, (i, j));
      }
      proximity
    }

    /** `flag_layout`: the flagged cells. */
    function FlagLayout(): (m: seq<seq<bool>>)
      requires Valid()
      reads states
      ensures IsMatrix(m, rows, cols)
      ensures forall i, j :: 0 <= i < rows && 0 <= j < cols ==> m[i][j] == (states[i, j] == Flagged)
    {
      Layout(Matrix(states), rows, cols, Flagged)
    }

    /** `hidden_layout`: the hidden cells (flagged cells are not among them). */
    function HiddenLayout(): (m: seq<seq<bool>>)
      requires Valid()
      reads states
      ensures IsMatrix(m, rows, cols)
      ensures forall i, j :: 0 <= i < rows && 0 <= j < cols ==> m[i][j] == (states[i, j] == Hidden)
    {
      Layout(Matrix(states), rows, cols, Hidden)
    }

    /** `open_layout`: the open cells. */
    function OpenLayout(): (m: seq<seq<bool>>)
      requires Valid()
      reads states
      ensures IsMatrix(m, rows, cols)
      ensures forall i, j :: 0 <= i < rows && 0 <= j < cols ==> m[i][j] == (states[i, j] == Open)
    {
      Layout(Matrix(states), rows, cols, Open)
    }

    /** `flags`: the number of flagged cells. */
    function FlagCount(): (n: nat)
      requires Valid()
      reads states
      ensures n == Count(Matrix(states), Flagged)
    {
      Ones(FlagLayout())
    }

    /** `open_cells`: the number of open cells; with the flags and the hidden cells
        they make up the grid. */
    function OpenCells(): (n: nat)
      requires Valid()
      reads states
      ensures n == Count(Matrix(states), Open)
      ensures n + FlagCount() + Ones(HiddenLayout()) == rows * cols
    {
      LayoutsPartition(Matrix(states), rows, cols);
      Ones(OpenLayout())
    }

    /** `mines`: the number of mines, at most the number of cells and 0 only when
        there is none. */
    function MineCount(): (n: nat)
      requires Valid()
      ensures n <= rows * cols
      ensures n == 0 <==> forall i, j :: 0 <= i < rows && 0 <= j < cols ==> !mines[i][j]
    {
      CountBound(mines, rows, cols, true);
      Ones(mines)
    }

    /** `open_mines`: the number of open mines, at most the mines and at most the open
        cells, and 0 exactly when no mine is open. */
    function OpenMines(): (n: nat)
      requires Valid()
      reads states
      ensures n <= MineCount() && n <= OpenCells()
      ensures n == 0 <==> NoOpenMine(OpenLayout(), mines, rows, cols)
    {
      OpenMineCount(OpenLayout(), mines, rows, cols)
    }

    /** `completed`: every cell that is not a mine is open, or the flags mark exactly
        the mines. */
    function Completed(): (b: bool)
      requires Valid()
      reads states
      ensures b <==> (forall i, j :: 0 <= i < rows && 0 <= j < cols ==> mines[i][j] || states[i, j] == Open)
                     || (forall i, j :: 0 <= i < rows && 0 <= j < cols ==> mines[i][j] == (states[i, j] == Flagged))
    {
      All(Or(mines, OpenLayout(), rows, cols), rows, cols) || All(Same(mines, FlagLayout(), rows, cols), rows, cols)
    }

    /** `Grid.number_mines`: a grid on the layout of the `number_mines` seeder, drawn
        from (0, 0); the error of a negative count is the reshape's. */
    static method NumberMines(rows: nat, cols: nat, n: int, cellSize: Pos, picks: seq<int>) returns (r: Result<Grid>)
      requires cellSize.0 > 0 && cellSize.1 > 0
      requires |picks| == |Seeders.Indices(n, rows * cols)|
      ensures r.Ok? <==> n >= 0
      ensures r.Ok? ==> fresh(r.value) && fresh(r.value.states) && r.value.Valid()
      ensures r.Ok? ==> r.value.rows == rows && r.value.cols == cols && r.value.blitRef == (0, 0)
      ensures r.Ok? ==> Ones(r.value.mines) == Seeders.Min(n, rows * cols)
      ensures r.Ok? ==> Matrix(r.value.states) == Filled(rows, cols, Hidden)
    {
      var layout := Seeders.NumberMines(n, rows, cols, picks);
      if layout.Err? {
        return Err(layout.message);
      }
      var g := new Grid(layout.value, rows, cols, (0, 0), cellSize);
      r := Ok(g);
    }

    /** `Grid.percent_mines`: a `ValueError` outside `[0, 1]`, otherwise the grid of
        `number_mines(int(p * p))`. */
    static method PercentMines(rows: nat, cols: nat, p: real, cellSize: Pos, picks: seq<int>) returns (r: Result<Grid>)
      requires cellSize.0 > 0 && cellSize.1 > 0
      requires 0.0 <= p <= 1.0 ==> |picks| == rows * cols
      ensures r.Ok? <==> 0.0 <= p <= 1.0
      ensures r.Ok? ==> fresh(r.value) && fresh(r.value.states) && r.value.Valid()
      ensures r.Ok? ==> Ones(r.value.mines) == if p == 1.0 then Seeders.Min(1, rows * cols) else 0
    {
      var count := Seeders.PercentMines(p);
      if count.Err? {
        return Err(count.message);
      }
      r := NumberMines(rows, cols, count.value, cellSize, picks);
    }
  }
}

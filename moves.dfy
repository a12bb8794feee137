/** The meaning, on matrix values, of the moves `chord` and `superchord` of
    `minesweeper/boards.py`: the masks they compute, the order `np.argwhere` visits
    cells in, the open mask after a sequence of `select` calls, and the fixed point
    `superchord` stops at. */
module Moves {
  import opened Matrices
  import opened Board
  import opened Flood

  /** `a | b`, entrywise. */
  function Or(a: seq<seq<bool>>, b: seq<seq<bool>>, rows: nat, cols: nat): (m: seq<seq<bool>>)
    requires IsMatrix(a, rows, cols) && IsMatrix(b, rows, cols)
    ensures IsMatrix(m, rows, cols)
    ensures forall i, j :: 0 <= i < rows && 0 <= j < cols ==> m[i][j] == (a[i][j] || b[i][j])
  {
    seq(rows, i requires 0 <= i < rows => seq(cols, j requires 0 <= j < cols => a[i][j] || b[i][j]))
  }

  /** `a & b`, entrywise. */
  function And(a: seq<seq<bool>>, b: seq<seq<bool>>, rows: nat, cols: nat): (m: seq<seq<bool>>)
    requires IsMatrix(a, rows, cols) && IsMatrix(b, rows, cols)
    ensures IsMatrix(m, rows, cols)
    ensures forall i, j :: 0 <= i < rows && 0 <= j < cols ==> m[i][j] == (a[i][j] && b[i][j])
  {
    seq(rows, i requires 0 <= i < rows => seq(cols, j requires 0 <= j < cols => a[i][j] && b[i][j]))
  }

  /** `a == b`, entrywise. */
  function Same(a: seq<seq<bool>>, b: seq<seq<bool>>, rows: nat, cols: nat): (m: seq<seq<bool>>)
    requires IsMatrix(a, rows, cols) && IsMatrix(b, rows, cols)
    ensures IsMatrix(m, rows, cols)
    ensures forall i, j :: 0 <= i < rows && 0 <= j < cols ==> m[i][j] == (a[i][j] == b[i][j])
  {
    seq(rows, i requires 0 <= i < rows => seq(cols, j requires 0 <= j < cols => a[i][j] == b[i][j]))
  }

  /** The test of `completed` on matrix values: every safe cell open, or the flags
      exactly on the mines. */
  function Finished(mines: seq<seq<bool>>, open: seq<seq<bool>>, flags: seq<seq<bool>>, rows: nat, cols: nat): (b: bool)
    requires IsMatrix(mines, rows, cols) && IsMatrix(open, rows, cols) && IsMatrix(flags, rows, cols)
    ensures b <==> (forall i, j :: 0 <= i < rows && 0 <= j < cols ==> mines[i][j] || open[i][j])
                   || (forall i, j :: 0 <= i < rows && 0 <= j < cols ==> mines[i][j] == flags[i][j])
  {
    All(Or(mines, open, rows, cols), rows, cols) || All(Same(mines, flags, rows, cols), rows, cols)
  }

  /** The cells known to hold a mine: flagged, or opened mines
      (`flag_layout | (mine_layout & open_layout)`). */
  function KnownMines(open: seq<seq<bool>>, flags: seq<seq<bool>>, mines: seq<seq<bool>>, rows: nat, cols: nat): (k: seq<seq<bool>>)
    requires IsMatrix(open, rows, cols) && IsMatrix(flags, rows, cols) && IsMatrix(mines, rows, cols)
    ensures IsMatrix(k, rows, cols)
  {
    Or(flags, And(mines, open, rows, cols), rows, cols)
  }

  /** Every flag marks a mine. */
  predicate FlagsOnMines(flags: seq<seq<bool>>, mines: seq<seq<bool>>, rows: nat, cols: nat)
    requires IsMatrix(flags, rows, cols) && IsMatrix(mines, rows, cols)
  {
    forall i, j :: 0 <= i < rows && 0 <= j < cols && flags[i][j] ==> mines[i][j]
  }

  /** No mine is open. */
  predicate NoOpenMine(open: seq<seq<bool>>, mines: seq<seq<bool>>, rows: nat, cols: nat)
    requires IsMatrix(open, rows, cols) && IsMatrix(mines, rows, cols)
  {
    forall i, j :: 0 <= i < rows && 0 <= j < cols && open[i][j] ==> !mines[i][j]
  }

  /** The number of open cells holding a mine (`(mines & open).sum()`): at most the
      mines and at most the open cells, and 0 exactly when no open cell holds a mine. */
  function OpenMineCount(open: seq<seq<bool>>, mines: seq<seq<bool>>, rows: nat, cols: nat): (n: nat)
    requires IsMatrix(open, rows, cols) && IsMatrix(mines, rows, cols)
    ensures n <= Ones(mines) && n <= Ones(open)
    ensures n == 0 <==> NoOpenMine(open, mines, rows, cols)
  {
    var both := And(mines, open, rows, cols);
    OnesMonotone(both, mines, rows, cols);
    OnesMonotone(both, open, rows, cols);
    CountBound(both, rows, cols, true);
    Ones(both)
  }

  /** No cell open in `open1` but closed in `open0` holds a mine. */
  predicate NoNewMine(open0: seq<seq<bool>>, open1: seq<seq<bool>>, mines: seq<seq<bool>>, rows: nat, cols: nat)
    requires IsMatrix(open0, rows, cols) && IsMatrix(open1, rows, cols) && IsMatrix(mines, rows, cols)
  {
    forall i, j :: 0 <= i < rows && 0 <= j < cols && open1[i][j] && !open0[i][j] ==> !mines[i][j]
  }

  /** Every mine among the cells `ps` is flagged or already open. */
  predicate SafeTargets(ps: seq<Pos>, open: seq<seq<bool>>, flags: seq<seq<bool>>, mines: seq<seq<bool>>, rows: nat, cols: nat)
    requires IsMatrix(open, rows, cols) && IsMatrix(flags, rows, cols) && IsMatrix(mines, rows, cols)
  {
    forall p :: p in ps && InBounds(p, rows, cols) && mines[p.0][p.1] ==> flags[p.0][p.1] || open[p.0][p.1]
  }

  /** The test of `chord`: `pos` is open and the number of its neighbours known to
      hold a mine equals its proximity. */
  predicate ChordFires(open: seq<seq<bool>>, flags: seq<seq<bool>>, mines: seq<seq<bool>>, prox: seq<seq<int>>,
                       rows: nat, cols: nat, pos: Pos)
    requires IsMatrix(open, rows, cols) && IsMatrix(flags, rows, cols) && IsMatrix(mines, rows, cols)
    requires IsMatrix(prox, rows, cols) && InBounds(pos, rows, cols)
    ensures ChordFires(open, flags, mines, prox, rows, cols, pos) ==> 0 <= prox[pos.0][pos.1] <= |Adjacents(pos, (rows, cols))|
  {
    open[pos.0][pos.1]
    && CountAt(KnownMines(open, flags, mines, rows, cols), rows, cols, Adjacents(pos, (rows, cols))) == prox[pos.0][pos.1]
  }

  /** `chord` never fires on an opened mine: its proximity is -1 and no count is negative. */
  lemma OpenMineNeverChords(open: seq<seq<bool>>, flags: seq<seq<bool>>, mines: seq<seq<bool>>, rows: nat, cols: nat, pos: Pos)
    requires IsMatrix(open, rows, cols) && IsMatrix(flags, rows, cols) && IsMatrix(mines, rows, cols)
    requires InBounds(pos, rows, cols) && mines[pos.0][pos.1]
    ensures !ChordFires(open, flags, mines, Neighbors(mines, rows, cols), rows, cols, pos)
  {
    assert Neighbors(mines, rows, cols)[pos.0][pos.1] == -1;
  }

  /** When every flag marks a mine and `chord` fires, every mine around `pos` is flagged
      or open, so the cells it selects that can open hold no mine. */
  lemma ChordFindsEveryMine(open: seq<seq<bool>>, flags: seq<seq<bool>>, mines: seq<seq<bool>>, rows: nat, cols: nat, pos: Pos)
    requires IsMatrix(open, rows, cols) && IsMatrix(flags, rows, cols) && IsMatrix(mines, rows, cols)
    requires InBounds(pos, rows, cols) && FlagsOnMines(flags, mines, rows, cols)
    requires ChordFires(open, flags, mines, Neighbors(mines, rows, cols), rows, cols, pos)
    ensures !mines[pos.0][pos.1]
    ensures SafeTargets(Adjacents(pos, (rows, cols)), open, flags, mines, rows, cols)
  {
    var known := KnownMines(open, flags, mines, rows, cols);
    var adj := Adjacents(pos, (rows, cols));
    assert Neighbors(mines, rows, cols)[pos.0][pos.1] >= 0;
    NeighborsCountAdjacentMines(mines, rows, cols, pos);
    assert CountAt(known, rows, cols, adj) == CountAt(mines, rows, cols, adj);
    assert forall q :: q in adj && InBounds(q, rows, cols) ==> known[q.0][q.1] ==> mines[q.0][q.1];
    CountAtMonotone(known, mines, rows, cols, adj);
    forall p | p in adj && InBounds(p, rows, cols) && mines[p.0][p.1]
      ensures flags[p.0][p.1] || open[p.0][p.1]
    {
      assert known[p.0][p.1];
    }
  }

  /** The open cells whose known-mine count equals their proximity (that count, at a
      known mine, is -1): `(known_neighbors == proximity) & open_layout`. */
  function Complete(open: seq<seq<bool>>, flags: seq<seq<bool>>, mines: seq<seq<bool>>, prox: seq<seq<int>>,
                    rows: nat, cols: nat): (c: seq<seq<bool>>)
    requires IsMatrix(open, rows, cols) && IsMatrix(flags, rows, cols) && IsMatrix(mines, rows, cols)
    requires IsMatrix(prox, rows, cols)
    ensures IsMatrix(c, rows, cols)
  {
    var knownNeighbors := Neighbors(KnownMines(open, flags, mines, rows, cols), rows, cols);
    seq(rows, i requires 0 <= i < rows => seq(cols, j requires 0 <= j < cols => knownNeighbors[i][j] == prox[i][j] && open[i][j]))
  }

  /** The cells `superchord` selects: `add_neighbors(openable_adjacent_cells) > 0`. */
  function Openable(open: seq<seq<bool>>, flags: seq<seq<bool>>, mines: seq<seq<bool>>, prox: seq<seq<int>>,
                    rows: nat, cols: nat): (o: seq<seq<bool>>)
    requires IsMatrix(open, rows, cols) && IsMatrix(flags, rows, cols) && IsMatrix(mines, rows, cols)
    requires IsMatrix(prox, rows, cols)
    ensures IsMatrix(o, rows, cols)
  {
    var n := Neighbors(Complete(open, flags, mines, prox, rows, cols), rows, cols);
    seq(rows, i requires 0 <= i < rows => seq(cols, j requires 0 <= j < cols => n[i][j] > 0))
  }

  /** A cell is openable exactly when it is not complete itself and touches a complete cell. */
  lemma OpenableTouchesComplete(open: seq<seq<bool>>, flags: seq<seq<bool>>, mines: seq<seq<bool>>, prox: seq<seq<int>>,
                                rows: nat, cols: nat, c: Pos)
    requires IsMatrix(open, rows, cols) && IsMatrix(flags, rows, cols) && IsMatrix(mines, rows, cols)
    requires IsMatrix(prox, rows, cols) && InBounds(c, rows, cols)
    ensures var complete := Complete(open, flags, mines, prox, rows, cols);
            Openable(open, flags, mines, prox, rows, cols)[c.0][c.1]
            <==> !complete[c.0][c.1] && exists a :: a in Adjacents(c, (rows, cols)) && InBounds(a, rows, cols) && complete[a.0][a.1]
  {
    var complete := Complete(open, flags, mines, prox, rows, cols);
    NeighborsCountAdjacentMines(complete, rows, cols, c);
    CountAtZero(complete, rows, cols, Adjacents(c, (rows, cols)));
  }

  /** The quirk of `superchord`: an opened mine is complete (its known count and its
      proximity are both -1), so every neighbour of it that is not complete itself is
      openable. */
  lemma OpenMineExposesNeighbours(open: seq<seq<bool>>, flags: seq<seq<bool>>, mines: seq<seq<bool>>,
                                  rows: nat, cols: nat, m: Pos, a: Pos)
    requires IsMatrix(open, rows, cols) && IsMatrix(flags, rows, cols) && IsMatrix(mines, rows, cols)
    requires InBounds(m, rows, cols) && open[m.0][m.1] && mines[m.0][m.1]
    requires a in Adjacents(m, (rows, cols))
    ensures var prox := Neighbors(mines, rows, cols);
            Complete(open, flags, mines, prox, rows, cols)[m.0][m.1]
            && (!Complete(open, flags, mines, prox, rows, cols)[a.0][a.1] ==> Openable(open, flags, mines, prox, rows, cols)[a.0][a.1])
  {
    var prox := Neighbors(mines, rows, cols);
    var known := KnownMines(open, flags, mines, rows, cols);
    assert known[m.0][m.1];
    assert Neighbors(known, rows, cols)[m.0][m.1] == -1 == prox[m.0][m.1];
    AdjacencySymmetric(m, a, (rows, cols));
    OpenableTouchesComplete(open, flags, mines, prox, rows, cols, a);
  }

  /** With every flag on a mine and no mine open, an openable cell that holds a mine is
      flagged: the complete cell it touches is an open non-mine whose mines are all
      flagged. */
  lemma OpenableIsSafe(open: seq<seq<bool>>, flags: seq<seq<bool>>, mines: seq<seq<bool>>, rows: nat, cols: nat, c: Pos)
    requires IsMatrix(open, rows, cols) && IsMatrix(flags, rows, cols) && IsMatrix(mines, rows, cols)
    requires FlagsOnMines(flags, mines, rows, cols) && NoOpenMine(open, mines, rows, cols)
    requires InBounds(c, rows, cols) && Openable(open, flags, mines, Neighbors(mines, rows, cols), rows, cols)[c.0][c.1]
    ensures mines[c.0][c.1] ==> flags[c.0][c.1]
  {
    var prox := Neighbors(mines, rows, cols);
    var known := KnownMines(open, flags, mines, rows, cols);
    var complete := Complete(open, flags, mines, prox, rows, cols);
    OpenableTouchesComplete(open, flags, mines, prox, rows, cols, c);
    var a :| a in Adjacents(c, (rows, cols)) && InBounds(a, rows, cols) && complete[a.0][a.1];
    AdjacencySymmetric(c, a, (rows, cols));
    var adj := Adjacents(a, (rows, cols));
    assert !mines[a.0][a.1] && !known[a.0][a.1];
    NeighborsCountAdjacentMines(known, rows, cols, a);
    NeighborsCountAdjacentMines(mines, rows, cols, a);
    CountAtMonotone(known, mines, rows, cols, adj);
  }

  /** The cells of an openable mask are safe targets. */
  lemma OpenableAreSafeTargets(ps: seq<Pos>, open: seq<seq<bool>>, flags: seq<seq<bool>>, mines: seq<seq<bool>>, rows: nat, cols: nat)
    requires IsMatrix(open, rows, cols) && IsMatrix(flags, rows, cols) && IsMatrix(mines, rows, cols)
    requires FlagsOnMines(flags, mines, rows, cols) && NoOpenMine(open, mines, rows, cols)
    requires forall p :: p in ps ==> InBounds(p, rows, cols) && Openable(open, flags, mines, Neighbors(mines, rows, cols), rows, cols)[p.0][p.1]
    ensures SafeTargets(ps, open, flags, mines, rows, cols)
  {
    forall p | p in ps && InBounds(p, rows, cols) && mines[p.0][p.1]
      ensures flags[p.0][p.1] || open[p.0][p.1]
    {
      OpenableIsSafe(open, flags, mines, rows, cols, p);
    }
  }

  /** `p` comes before `q` in row-major order. */
  predicate RowMajorBefore(p: Pos, q: Pos)
  {
    p.0 < q.0 || (p.0 == q.0 && p.1 < q.1)
  }

  /** The true cells among the first `n` entries of row `i`, left to right. */
  function RowWhere(r: seq<bool>, i: int, n: nat): (ps: seq<Pos>)
    requires n <= |r|
    ensures forall p :: p in ps <==> p.0 == i && 0 <= p.1 < n && r[p.1]
    ensures forall a, b :: 0 <= a < b < |ps| ==> RowMajorBefore(ps[a], ps[b])
  {
    if n == 0 then [] else RowWhere(r, i, n - 1) + (if r[n - 1] then [(i, n - 1)] else [])
  }

  /** The true cells among the first `k` rows, in row-major order. */
  function ArgWhereRows(m: seq<seq<bool>>, rows: nat, cols: nat, k: nat): (ps: seq<Pos>)
    requires IsMatrix(m, rows, cols) && k <= rows
    ensures forall p :: p in ps <==> 0 <= p.0 < k && 0 <= p.1 < cols && m[p.0][p.1]
    ensures forall a, b :: 0 <= a < b < |ps| ==> RowMajorBefore(ps[a], ps[b])
  {
    if k == 0 then []
    else
      var front, last := ArgWhereRows(m, rows, cols, k - 1), RowWhere(m[k - 1], k - 1, cols);
      assert forall a :: 0 <= a < |front| ==> front[a] in front;
      assert forall b :: 0 <= b < |last| ==> last[b] in last;
      front + last
  }

  /** `np.argwhere(m)`: the true cells of a mask, each once, in row-major order. */
  function ArgWhere(m: seq<seq<bool>>, rows: nat, cols: nat): (ps: seq<Pos>)
    requires IsMatrix(m, rows, cols)
    ensures forall p :: p in ps <==> InBounds(p, rows, cols) && m[p.0][p.1]
    ensures forall a, b :: 0 <= a < b < |ps| ==> RowMajorBefore(ps[a], ps[b])
  {
    ArgWhereRows(m, rows, cols, rows)
  }

  /** Cells in row-major order are distinct. */
  lemma RowMajorDistinct(ps: seq<Pos>)
    requires forall a, b :: 0 <= a < b < |ps| ==> RowMajorBefore(ps[a], ps[b])
    ensures forall a, b :: 0 <= a < |ps| && 0 <= b < |ps| && a != b ==> ps[a] != ps[b]
  {
  }

  /** The open mask after `select(p, propagate=True)` for each of the first `k` cells
      `p` of `ps` in turn. */
  ghost function SelectSeq(open0: seq<seq<bool>>, flags: seq<seq<bool>>, prox: seq<seq<int>>, rows: nat, cols: nat,
                           ps: seq<Pos>, k: nat): (m: seq<seq<bool>>)
    requires IsMatrix(open0, rows, cols) && IsMatrix(flags, rows, cols) && IsMatrix(prox, rows, cols)
    requires k <= |ps|
    ensures IsMatrix(m, rows, cols)
    ensures forall i, j :: 0 <= i < rows && 0 <= j < cols && open0[i][j] ==> m[i][j]
    ensures forall i, j :: 0 <= i < rows && 0 <= j < cols && flags[i][j] && !open0[i][j] ==> !m[i][j]
  {
    if k == 0 then open0
    else SelectOpen(SelectSeq(open0, flags, prox, rows, cols, ps, k - 1), flags, prox, rows, cols, ps[k - 1], true)
  }

  /** A `select` of a cell whose mine, if any, was flagged or open in `open0` keeps every
      cell opened since `open0` free of mines. */
  lemma SelectStepSafe(open0: seq<seq<bool>>, before: seq<seq<bool>>, flags: seq<seq<bool>>, mines: seq<seq<bool>>,
                       rows: nat, cols: nat, p: Pos)
    requires IsMatrix(open0, rows, cols) && IsMatrix(before, rows, cols) && IsMatrix(flags, rows, cols)
    requires IsMatrix(mines, rows, cols) && InBounds(p, rows, cols)
    requires forall i, j :: 0 <= i < rows && 0 <= j < cols && open0[i][j] ==> before[i][j]
    requires NoNewMine(open0, before, mines, rows, cols)
    requires mines[p.0][p.1] ==> flags[p.0][p.1] || open0[p.0][p.1]
    ensures NoNewMine(open0, SelectOpen(before, flags, Neighbors(mines, rows, cols), rows, cols, p, true), mines, rows, cols)
  {
    var after := SelectOpen(before, flags, Neighbors(mines, rows, cols), rows, cols, p, true);
    SelectOpenSafe(p, before, flags, mines, rows, cols, true);
    NoNewMineStep(open0, before, after, flags, mines, rows, cols, p);
  }

  /** When every mine among the cells `ps` is flagged or already open, selecting the
      first `k` of them opens no mine. */
  lemma {:induction false} SelectSeqSafe(open0: seq<seq<bool>>, flags: seq<seq<bool>>, mines: seq<seq<bool>>,
                                         prox: seq<seq<int>>, rows: nat, cols: nat, ps: seq<Pos>, k: nat)
    requires IsMatrix(open0, rows, cols) && IsMatrix(flags, rows, cols) && IsMatrix(mines, rows, cols)
    requires prox == Neighbors(mines, rows, cols)
    requires k <= |ps| && forall p :: p in ps ==> InBounds(p, rows, cols)
    requires SafeTargets(ps, open0, flags, mines, rows, cols)
    ensures NoNewMine(open0, SelectSeq(open0, flags, prox, rows, cols, ps, k), mines, rows, cols)
  {
    if k > 0 {
      var k' := k - 1;
      SelectSeqSafe(open0, flags, mines, prox, rows, cols, ps, k');
      var p := ps[k'];
      assert p in ps && InBounds(p, rows, cols);
      var before := SelectSeq(open0, flags, prox, rows, cols, ps, k');
      assert SelectSeq(open0, flags, prox, rows, cols, ps, k) == SelectOpen(before, flags, prox, rows, cols, p, true);
      SelectStepSafe(open0, before, flags, mines, rows, cols, p);
    }
  }

  /** One pass of the `superchord` loop: select every openable cell in row-major order. */
  ghost function Pass(open: seq<seq<bool>>, flags: seq<seq<bool>>, mines: seq<seq<bool>>, prox: seq<seq<int>>,
                      rows: nat, cols: nat): (m: seq<seq<bool>>)
    requires IsMatrix(open, rows, cols) && IsMatrix(flags, rows, cols) && IsMatrix(mines, rows, cols)
    requires IsMatrix(prox, rows, cols)
    ensures IsMatrix(m, rows, cols)
  {
    var targets := ArgWhere(Openable(open, flags, mines, prox, rows, cols), rows, cols);
    SelectSeq(open, flags, prox, rows, cols, targets, |targets|)
  }

  /** The open mask `superchord` ends with: passes repeat until one changes nothing.
      It only opens cells, never a flagged closed one, and a further pass changes
      nothing. */
  ghost function Superchorded(open: seq<seq<bool>>, flags: seq<seq<bool>>, mines: seq<seq<bool>>, prox: seq<seq<int>>,
                              rows: nat, cols: nat): (r: seq<seq<bool>>)
    requires IsMatrix(open, rows, cols) && IsMatrix(flags, rows, cols) && IsMatrix(mines, rows, cols)
    requires IsMatrix(prox, rows, cols)
    ensures IsMatrix(r, rows, cols)
    ensures forall i, j :: 0 <= i < rows && 0 <= j < cols && open[i][j] ==> r[i][j]
    ensures forall i, j :: 0 <= i < rows && 0 <= j < cols && flags[i][j] && !open[i][j] ==> !r[i][j]
    ensures Pass(r, flags, mines, prox, rows, cols) == r
    decreases rows * cols - Ones(open)
  {
    var next := Pass(open, flags, mines, prox, rows, cols);
    if next == open then open
    else
      OnesMonotone(open, next, rows, cols);
      CountBound(next, rows, cols, true);
      Superchorded(next, flags, mines, prox, rows, cols)
  }

  /** A pass that changes nothing ends `superchord` at once. */
  lemma SuperchordAtFixedPoint(open: seq<seq<bool>>, flags: seq<seq<bool>>, mines: seq<seq<bool>>, prox: seq<seq<int>>,
                               rows: nat, cols: nat)
    requires IsMatrix(open, rows, cols) && IsMatrix(flags, rows, cols) && IsMatrix(mines, rows, cols)
    requires IsMatrix(prox, rows, cols)
    requires Pass(open, flags, mines, prox, rows, cols) == open
    ensures Superchorded(open, flags, mines, prox, rows, cols) == open
  {
  }

  /** A second `superchord` straight after the first changes nothing. */
  lemma SuperchordIdempotent(open: seq<seq<bool>>, flags: seq<seq<bool>>, mines: seq<seq<bool>>, prox: seq<seq<int>>,
                             rows: nat, cols: nat)
    requires IsMatrix(open, rows, cols) && IsMatrix(flags, rows, cols) && IsMatrix(mines, rows, cols)
    requires IsMatrix(prox, rows, cols)
    ensures var once := Superchorded(open, flags, mines, prox, rows, cols);
            Superchorded(once, flags, mines, prox, rows, cols) == once
  {
    var once := Superchorded(open, flags, mines, prox, rows, cols);
    SuperchordAtFixedPoint(once, flags, mines, prox, rows, cols);
  }

  /** One more `select` of a safe target keeps every newly opened cell free of mines. */
  lemma NoNewMineStep(open0: seq<seq<bool>>, openK: seq<seq<bool>>, openK1: seq<seq<bool>>, flags: seq<seq<bool>>,
                      mines: seq<seq<bool>>, rows: nat, cols: nat, p: Pos)
    requires IsMatrix(open0, rows, cols) && IsMatrix(openK, rows, cols) && IsMatrix(openK1, rows, cols)
    requires IsMatrix(flags, rows, cols) && IsMatrix(mines, rows, cols) && InBounds(p, rows, cols)
    requires forall i, j :: 0 <= i < rows && 0 <= j < cols && open0[i][j] ==> openK[i][j]
    requires forall i, j :: 0 <= i < rows && 0 <= j < cols && openK1[i][j] && !openK[i][j] ==> !flags[i][j]
    requires NoNewMine(open0, openK, mines, rows, cols)
    requires OpensNoMineBut(openK, openK1, mines, rows, cols, p)
    requires mines[p.0][p.1] ==> flags[p.0][p.1] || open0[p.0][p.1]
    ensures NoNewMine(open0, openK1, mines, rows, cols)
  {
  }

  /** The mine layout `first_select` leaves: `pos` and its neighbours hold no mine and
      every other cell keeps its own, so the number of mines never rises. */
  function ClearedAround(m: seq<seq<bool>>, rows: nat, cols: nat, pos: Pos): (r: seq<seq<bool>>)
    requires IsMatrix(m, rows, cols)
    ensures IsMatrix(r, rows, cols)
    ensures forall i, j :: 0 <= i < rows && 0 <= j < cols ==>
              (r[i][j] <==> m[i][j] && (i, j) != pos && !Touching(pos, (i, j)))
    ensures Ones(r) <= Ones(m)
  {
    var adj := Adjacents(pos, (rows, cols));
    var r := seq(rows, i requires 0 <= i < rows => seq(cols, j requires 0 <= j < cols => m[i][j] && (i, j) != pos && (i, j) !in adj));
    OnesMonotone(r, m, rows, cols);
    r
  }

  /** After the clearing the first cell has proximity 0. */
  lemma ClearedStartIsZero(m: seq<seq<bool>>, rows: nat, cols: nat, pos: Pos)
    requires IsMatrix(m, rows, cols) && InBounds(pos, rows, cols)
    ensures Neighbors(ClearedAround(m, rows, cols, pos), rows, cols)[pos.0][pos.1] == 0
  {
    var c := ClearedAround(m, rows, cols, pos);
    NeighborsCountAdjacentMines(c, rows, cols, pos);
    CountAtZero(c, rows, cols, Adjacents(pos, (rows, cols)));
  }

  /** `open` opens the cell `pos` and all its neighbours, and no mine. */
  predicate SafeStart(open: seq<seq<bool>>, mines: seq<seq<bool>>, rows: nat, cols: nat, pos: Pos)
    requires IsMatrix(open, rows, cols) && IsMatrix(mines, rows, cols) && InBounds(pos, rows, cols)
  {
    open[pos.0][pos.1]
    && (forall q :: q in Adjacents(pos, (rows, cols)) ==> open[q.0][q.1])
    && NoOpenMine(open, mines, rows, cols)
  }

  /** The select that ends `first_select`, on a board with nothing open or flagged and the
      cleared layout, opens the first cell and all its neighbours and no mine. */
  lemma FirstSelectOpens(m: seq<seq<bool>>, rows: nat, cols: nat, pos: Pos)
    requires IsMatrix(m, rows, cols) && InBounds(pos, rows, cols)
    ensures var c := ClearedAround(m, rows, cols, pos);
            var none := Filled(rows, cols, false);
            SafeStart(SelectOpen(none, none, Neighbors(c, rows, cols), rows, cols, pos, true), c, rows, cols, pos)
  {
    var c := ClearedAround(m, rows, cols, pos);
    var none := Filled(rows, cols, false);
    var prox := Neighbors(c, rows, cols);
    ClearedStartIsZero(m, rows, cols, pos);
    ReachIsClosed(pos, none, prox, rows, cols, true);
    assert Expands(none, prox, rows, cols, true, pos);
    SelectOpenSafe(pos, none, none, c, rows, cols, true);
  }
}

/** The board vocabulary of `minesweeper/board.py`: the eight-neighbourhood of a
    cell (`adjacents`), the proximity matrix (`neighbors`) and the per-turn
    snapshot handed to agents (`HiddenBoardState`). */
module Board {
  import opened Matrices

  /** The eight candidate neighbours of `p`, in the order the source lists them:
      E, SE, S, SW, W, NW, N, NE (the first coordinate grows to the "east"). */
  function Offsets(p: Pos): seq<Pos>
  {
    var x, y := p.0, p.1;
    [(x + 1, y), (x + 1, y + 1), (x, y + 1), (x - 1, y + 1),
     (x - 1, y), (x - 1, y - 1), (x, y - 1), (x + 1, y - 1)]
  }

  /** `q` is one of the eight cells around `p` (not `p` itself). */
  predicate Touching(p: Pos, q: Pos)
  {
    p != q && -1 <= p.0 - q.0 <= 1 && -1 <= p.1 - q.1 <= 1
  }

  /** The `filter` of the source: the entries of `ps` inside a `rows` by `cols` grid, in order. */
  function KeepInBounds(ps: seq<Pos>, rows: int, cols: int): (r: seq<Pos>)
    ensures |r| <= |ps|
    ensures forall q :: q in r <==> q in ps && InBounds(q, rows, cols)
    ensures (forall a, b :: 0 <= a < b < |ps| ==> ps[a] != ps[b]) ==> forall a, b :: 0 <= a < b < |r| ==> r[a] != r[b]
  {
    if |ps| == 0 then []
    else
      var rest := KeepInBounds(ps[1..], rows, cols);
      assert forall q :: q in ps[1..] ==> q in ps;
      if InBounds(ps[0], rows, cols) then
        assert (forall a, b :: 0 <= a < b < |ps| ==> ps[a] != ps[b]) ==> ps[0] !in ps[1..];
        [ps[0]] + rest
      else rest
  }

  /** The offsets are exactly the cells touching `p`. */
  lemma OffsetsTouching(p: Pos)
    ensures forall q :: q in Offsets(p) <==> Touching(p, q)
  {
    var offsets := Offsets(p);
    forall q | Touching(p, q) ensures q in offsets {
      var dx, dy := q.0 - p.0, q.1 - p.1;
      if dx == 1 && dy == 0 { assert q == offsets[0]; }
      else if dx == 1 && dy == 1 { assert q == offsets[1]; }
      else if dx == 0 && dy == 1 { assert q == offsets[2]; }
      else if dx == -1 && dy == 1 { assert q == offsets[3]; }
      else if dx == -1 && dy == 0 { assert q == offsets[4]; }
      else if dx == -1 && dy == -1 { assert q == offsets[5]; }
      else if dx == 0 && dy == -1 { assert q == offsets[6]; }
      else { assert q == offsets[7]; }
    }
  }

  /** The eight offsets are pairwise different. */
  lemma OffsetsDistinct(p: Pos)
    ensures forall a, b :: 0 <= a < b < |Offsets(p)| ==> Offsets(p)[a] != Offsets(p)[b]
  {
  }

  /** `adjacents(pos, size)`: the in-bounds neighbours of `p` on a grid of shape `size`. */
  function Adjacents(p: Pos, size: (int, int)): (r: seq<Pos>)
    ensures forall q :: q in r <==> InBounds(q, size.0, size.1) && Touching(p, q)
    ensures p !in r
    ensures |r| <= 8
    ensures forall a, b :: 0 <= a < b < |r| ==> r[a] != r[b]
  {
    var offsets := Offsets(p);
    OffsetsTouching(p);
    OffsetsDistinct(p);
    KeepInBounds(offsets, size.0, size.1)
  }

  /** Away from the border nothing is filtered out: all eight offsets, in the source's order. */
  lemma AdjacentsInterior(p: Pos, size: (int, int))
    requires 1 <= p.0 < size.0 - 1 && 1 <= p.1 < size.1 - 1
    ensures Adjacents(p, size) == Offsets(p)
  {
    KeepAllInBounds(Offsets(p), size.0, size.1);
  }

  lemma {:induction false} KeepAllInBounds(ps: seq<Pos>, rows: int, cols: int)
    requires forall q :: q in ps ==> InBounds(q, rows, cols)
    ensures KeepInBounds(ps, rows, cols) == ps
  {
    if |ps| > 0 {
      KeepAllInBounds(ps[1..], rows, cols);
      assert ps == [ps[0]] + ps[1..];
    }
  }

  /** Adjacency is symmetric on the grid. */
  lemma AdjacencySymmetric(p: Pos, q: Pos, size: (int, int))
    requires InBounds(p, size.0, size.1) && InBounds(q, size.0, size.1)
    ensures q in Adjacents(p, size) <==> p in Adjacents(q, size)
  {
  }

  /** Number of positions of `ps` that hold `true` in `m`. */
  function CountAt(m: seq<seq<bool>>, rows: nat, cols: nat, ps: seq<Pos>): (n: nat)
    requires IsMatrix(m, rows, cols)
    requires forall q :: q in ps ==> InBounds(q, rows, cols)
    ensures n <= |ps|
  {
    if |ps| == 0 then 0
    else
      var q := ps[0];
      assert InBounds(q, rows, cols);
      (if m[q.0][q.1] then 1 else 0) + CountAt(m, rows, cols, ps[1..])
  }

  /** Counting the suffix of `ps` from `k` takes its first cell and the suffix after it. */
  lemma CountAtSuffix(m: seq<seq<bool>>, rows: nat, cols: nat, ps: seq<Pos>, k: nat)
    requires IsMatrix(m, rows, cols)
    requires forall q :: q in ps ==> InBounds(q, rows, cols)
    requires k < |ps|
    ensures InBounds(ps[k], rows, cols)
    ensures CountAt(m, rows, cols, ps[k..]) == (if m[ps[k].0][ps[k].1] then 1 else 0) + CountAt(m, rows, cols, ps[k + 1..])
  {
    assert ps[k] in ps;
    assert ps[k..][0] == ps[k] && ps[k..][1..] == ps[k + 1..];
  }

  lemma {:induction false} CountAtConcat(m: seq<seq<bool>>, rows: nat, cols: nat, a: seq<Pos>, b: seq<Pos>)
    requires IsMatrix(m, rows, cols)
    requires forall q :: q in a + b ==> InBounds(q, rows, cols)
    ensures forall q :: q in a ==> InBounds(q, rows, cols)
    ensures forall q :: q in b ==> InBounds(q, rows, cols)
    ensures CountAt(m, rows, cols, a + b) == CountAt(m, rows, cols, a) + CountAt(m, rows, cols, b)
  {
    assert forall q :: q in a ==> q in a + b;
    assert forall q :: q in b ==> q in a + b;
    if |a| > 0 {
      assert (a + b)[1..] == a[1..] + b;
      assert forall q :: q in a[1..] + b ==> q in a + b;
      CountAtConcat(m, rows, cols, a[1..], b);
    } else {
      assert a + b == b;
    }
  }

  /** A count of zero means no listed position holds `true`; a positive count has a witness. */
  lemma {:induction false} CountAtZero(m: seq<seq<bool>>, rows: nat, cols: nat, ps: seq<Pos>)
    requires IsMatrix(m, rows, cols)
    requires forall q :: q in ps ==> InBounds(q, rows, cols)
    ensures CountAt(m, rows, cols, ps) == 0 <==> forall q :: q in ps && InBounds(q, rows, cols) ==> !m[q.0][q.1]
  {
    if |ps| > 0 {
      assert forall q :: q in ps[1..] ==> q in ps;
      CountAtZero(m, rows, cols, ps[1..]);
      assert forall q :: q in ps ==> q == ps[0] || q in ps[1..];
    }
  }

  /** Pointwise implication on the listed positions bounds the counts; with equal counts
      the two masks agree on every listed position. */
  lemma {:induction false} CountAtMonotone(a: seq<seq<bool>>, b: seq<seq<bool>>, rows: nat, cols: nat, ps: seq<Pos>)
    requires IsMatrix(a, rows, cols) && IsMatrix(b, rows, cols)
    requires forall q :: q in ps ==> InBounds(q, rows, cols)
    requires forall q :: q in ps && InBounds(q, rows, cols) ==> a[q.0][q.1] ==> b[q.0][q.1]
    ensures CountAt(a, rows, cols, ps) <= CountAt(b, rows, cols, ps)
    ensures CountAt(a, rows, cols, ps) == CountAt(b, rows, cols, ps) ==> forall q :: q in ps && InBounds(q, rows, cols) ==> a[q.0][q.1] == b[q.0][q.1]
  {
    if |ps| > 0 {
      assert forall q :: q in ps[1..] ==> q in ps;
      CountAtMonotone(a, b, rows, cols, ps[1..]);
      assert forall q :: q in ps ==> q == ps[0] || q in ps[1..];
    }
  }

  lemma CountAtSame(a: seq<seq<bool>>, b: seq<seq<bool>>, rows: nat, cols: nat, ps: seq<Pos>)
    requires IsMatrix(a, rows, cols) && IsMatrix(b, rows, cols)
    requires forall q :: q in ps ==> InBounds(q, rows, cols)
    requires forall q :: q in ps && InBounds(q, rows, cols) ==> a[q.0][q.1] == b[q.0][q.1]
    ensures CountAt(a, rows, cols, ps) == CountAt(b, rows, cols, ps)
  {
    CountAtMonotone(a, b, rows, cols, ps);
    CountAtMonotone(b, a, rows, cols, ps);
  }

  /** Number of mines in the in-bounds neighbourhood of `p`. */
  function AdjacentMines(mines: seq<seq<bool>>, rows: nat, cols: nat, p: Pos): nat
    requires IsMatrix(mines, rows, cols)
  {
    CountAt(mines, rows, cols, Adjacents(p, (rows, cols)))
  }

  /** One entry of the zero-padded mask: 1 for a mine inside the grid, 0 elsewhere. */
  function Padded(mines: seq<seq<bool>>, rows: nat, cols: nat, i: int, j: int): int
    requires IsMatrix(mines, rows, cols)
  {
    if 0 <= i < rows && 0 <= j < cols && mines[i][j] then 1 else 0
  }

  /** `convolve2d(mines, [[1,1,1],[1,0,1],[1,1,1]], mode='same', boundary='fill')` at (i, j). */
  function Convolved(mines: seq<seq<bool>>, rows: nat, cols: nat, i: int, j: int): int
    requires IsMatrix(mines, rows, cols)
  {
    Padded(mines, rows, cols, i - 1, j - 1) + Padded(mines, rows, cols, i - 1, j) + Padded(mines, rows, cols, i - 1, j + 1)
    + Padded(mines, rows, cols, i, j - 1) + Padded(mines, rows, cols, i, j + 1)
    + Padded(mines, rows, cols, i + 1, j - 1) + Padded(mines, rows, cols, i + 1, j) + Padded(mines, rows, cols, i + 1, j + 1)
  }

  /** `neighbors(mines)`: `convolved * (1 - mines) - mines`, so -1 on a mine and the
      neighbouring mine count elsewhere. */
  function Neighbors(mines: seq<seq<bool>>, rows: nat, cols: nat): (prox: seq<seq<int>>)
    requires IsMatrix(mines, rows, cols)
    ensures IsMatrix(prox, rows, cols)
    ensures forall i, j :: 0 <= i < rows && 0 <= j < cols && mines[i][j] ==> prox[i][j] == -1
    ensures forall i, j :: 0 <= i < rows && 0 <= j < cols && !mines[i][j] ==> 0 <= prox[i][j] <= 8
  {
    seq(rows, i requires 0 <= i < rows =>
      seq(cols, j requires 0 <= j < cols =>
        var m := if mines[i][j] then 1 else 0;
        Convolved(mines, rows, cols, i, j) * (1 - m) - m))
  }

  /** Sum of the padded mask over a list of positions (in or out of the grid). */
  function PaddedSum(mines: seq<seq<bool>>, rows: nat, cols: nat, ps: seq<Pos>): int
    requires IsMatrix(mines, rows, cols)
  {
    if |ps| == 0 then 0 else Padded(mines, rows, cols, ps[0].0, ps[0].1) + PaddedSum(mines, rows, cols, ps[1..])
  }

  lemma {:induction false} KeepInBoundsSum(mines: seq<seq<bool>>, rows: nat, cols: nat, ps: seq<Pos>)
    requires IsMatrix(mines, rows, cols)
    ensures CountAt(mines, rows, cols, KeepInBounds(ps, rows, cols)) == PaddedSum(mines, rows, cols, ps)
  {
    if |ps| > 0 {
      KeepInBoundsSum(mines, rows, cols, ps[1..]);
      if InBounds(ps[0], rows, cols) {
        var kept := KeepInBounds(ps, rows, cols);
        assert kept[1..] == KeepInBounds(ps[1..], rows, cols);
      }
    }
  }

  /** Zero padding drops exactly the out-of-grid neighbours: the convolution at a cell
      is the number of mines among its `adjacents`. */
  lemma ConvolvedCountsAdjacentMines(mines: seq<seq<bool>>, rows: nat, cols: nat, p: Pos)
    requires IsMatrix(mines, rows, cols)
    ensures Convolved(mines, rows, cols, p.0, p.1) == AdjacentMines(mines, rows, cols, p)
  {
    KeepInBoundsSum(mines, rows, cols, Offsets(p));
    PaddedSumOffsets(mines, rows, cols, p);
  }

  /** The padded sum over the eight offsets is the convolution. */
  lemma PaddedSumOffsets(mines: seq<seq<bool>>, rows: nat, cols: nat, p: Pos)
    requires IsMatrix(mines, rows, cols)
    ensures PaddedSum(mines, rows, cols, Offsets(p)) == Convolved(mines, rows, cols, p.0, p.1)
  {
    var o := Offsets(p);
    assert PaddedSum(mines, rows, cols, o[7..]) == Padded(mines, rows, cols, o[7].0, o[7].1);
    assert PaddedSum(mines, rows, cols, o[6..]) == Padded(mines, rows, cols, o[6].0, o[6].1) + PaddedSum(mines, rows, cols, o[7..]);
    assert PaddedSum(mines, rows, cols, o[5..]) == Padded(mines, rows, cols, o[5].0, o[5].1) + PaddedSum(mines, rows, cols, o[6..]);
    assert PaddedSum(mines, rows, cols, o[4..]) == Padded(mines, rows, cols, o[4].0, o[4].1) + PaddedSum(mines, rows, cols, o[5..]);
    assert PaddedSum(mines, rows, cols, o[3..]) == Padded(mines, rows, cols, o[3].0, o[3].1) + PaddedSum(mines, rows, cols, o[4..]);
    assert PaddedSum(mines, rows, cols, o[2..]) == Padded(mines, rows, cols, o[2].0, o[2].1) + PaddedSum(mines, rows, cols, o[3..]);
    assert PaddedSum(mines, rows, cols, o[1..]) == Padded(mines, rows, cols, o[1].0, o[1].1) + PaddedSum(mines, rows, cols, o[2..]);
  }

  /** The proximity matrix holds, for every non-mine cell, the number of mines among
      its in-bounds neighbours (no wrap-around), and -1 on every mine. */
  lemma NeighborsCountAdjacentMines(mines: seq<seq<bool>>, rows: nat, cols: nat, p: Pos)
    requires IsMatrix(mines, rows, cols) && InBounds(p, rows, cols)
    ensures Neighbors(mines, rows, cols)[p.0][p.1]
            == if mines[p.0][p.1] then -1 else AdjacentMines(mines, rows, cols, p)
  {
    ConvolvedCountsAdjacentMines(mines, rows, cols, p);
  }

  /** A cell of proximity 0 has no mine around it (and is no mine itself). */
  lemma ZeroProximityIsSafe(mines: seq<seq<bool>>, rows: nat, cols: nat, p: Pos, q: Pos)
    requires IsMatrix(mines, rows, cols) && InBounds(p, rows, cols)
    requires Neighbors(mines, rows, cols)[p.0][p.1] == 0
    requires q in Adjacents(p, (rows, cols))
    ensures !mines[p.0][p.1] && !mines[q.0][q.1]
  {
    NeighborsCountAdjacentMines(mines, rows, cols, p);
    CountAtZero(mines, rows, cols, Adjacents(p, (rows, cols)));
  }

  /** The per-turn snapshot an agent sees: which cells can be opened, which are
      flagged, and the proximity matrix. */
  datatype HiddenBoardState = HiddenBoardState(openable: seq<seq<bool>>, flagged: seq<seq<bool>>, proximity: seq<seq<int>>)
  {
    ghost predicate WellShaped()
    {
      IsMatrix(openable, |proximity|, Size().1) && IsMatrix(flagged, |proximity|, Size().1)
      && IsMatrix(proximity, |proximity|, Size().1)
    }

    /** `size`: the shape of the proximity matrix. */
    function Size(): (s: (nat, nat))
      ensures s.0 == |proximity|
      ensures |proximity| > 0 ==> s.1 == |proximity[0]|
    {
      (|proximity|, if |proximity| == 0 then 0 else |proximity[0]|)
    }

    /** `open`: `~openable & ~flagged`. */
    function Open(): (o: seq<seq<bool>>)
      requires WellShaped()
      ensures IsMatrix(o, Size().0, Size().1)
      ensures forall i, j :: 0 <= i < Size().0 && 0 <= j < Size().1 ==> o[i][j] == (!openable[i][j] && !flagged[i][j])
    {
      seq(Size().0, i requires 0 <= i < Size().0 =>
        seq(Size().1, j requires 0 <= j < Size().1 => !openable[i][j] && !flagged[i][j]))
    }
  }

  /** The openable mask of a board: neither open nor flagged. */
  function OpenableMask(open: seq<seq<bool>>, flags: seq<seq<bool>>, rows: nat, cols: nat): (m: seq<seq<bool>>)
    requires IsMatrix(open, rows, cols) && IsMatrix(flags, rows, cols)
    ensures IsMatrix(m, rows, cols)
    ensures forall i, j :: 0 <= i < rows && 0 <= j < cols ==> m[i][j] == (!open[i][j] && !flags[i][j])
  {
    seq(rows, i requires 0 <= i < rows => seq(cols, j requires 0 <= j < cols => !open[i][j] && !flags[i][j]))
  }

  /** A snapshot taken from a board that never has a cell both open and flagged gives
      back that board's open mask. */
  lemma SnapshotOpenRecoversBoard(open: seq<seq<bool>>, flags: seq<seq<bool>>, prox: seq<seq<int>>, rows: nat, cols: nat)
    requires rows > 0
    requires IsMatrix(open, rows, cols) && IsMatrix(flags, rows, cols) && IsMatrix(prox, rows, cols)
    requires forall i, j :: 0 <= i < rows && 0 <= j < cols ==> !(open[i][j] && flags[i][j])
    ensures HiddenBoardState(OpenableMask(open, flags, rows, cols), flags, prox).WellShaped()
    ensures HiddenBoardState(OpenableMask(open, flags, rows, cols), flags, prox).Open() == open
  {
    var s := HiddenBoardState(OpenableMask(open, flags, rows, cols), flags, prox);
    assert s.Size() == (rows, cols);
    var o := s.Open();
    assert forall i :: 0 <= i < rows ==> o[i] == open[i];
  }
}

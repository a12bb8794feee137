/** The mine seeders of `minesweeper/seeders.py`: a seeder maps a grid size to a mine
    layout. `number_mines` places an exact number of mines (clamped to the number of
    cells) by shuffling a list; `percent_mines` validates a fraction and then asks for
    the integer part of its square. The shuffle is CPython's Fisher-Yates loop, with
    the random draws given as an oracle sequence. */
module Seeders {
  import opened Errors
  import opened Matrices

  function Min(a: int, b: int): int
  {
    if a <= b then a else b
  }

  function Max(a: int, b: int): int
  {
    if a >= b then a else b
  }

  /** `[x] * n`: `n` copies of `x`, none when `n` is not positive. */
  function Repeat<T>(x: T, n: int): (r: seq<T>)
    ensures |r| == Max(0, n)
    ensures forall k :: 0 <= k < |r| ==> r[k] == x
    decreases n
  {
    if n <= 0 then [] else [x] + Repeat(x, n - 1)
  }

  /** A run of copies of `x` holds `x` exactly its length times and nothing else. */
  lemma {:induction false} RepeatCount<T>(x: T, n: int, y: T)
    ensures RowCount(Repeat(x, n), y) == if x == y then Max(0, n) else 0
    decreases n
  {
    if n > 0 {
      assert Repeat(x, n)[1..] == Repeat(x, n - 1);
      RepeatCount(x, n - 1, y);
    }
  }

  /** The list `number_mines` shuffles: `min(n, sites)` mines, then `max(0, sites - n)`
      free cells. For `n >= 0` it has one entry per cell and `min(n, sites)` mines; for
      a negative `n` it is longer than the grid. */
  function Indices(n: int, sites: nat): (r: seq<bool>)
    ensures n >= 0 ==> |r| == sites && RowCount(r, true) == Min(n, sites)
    ensures n < 0 ==> |r| == sites - n > sites
  {
    var r := Repeat(true, Min(n, sites)) + Repeat(false, Max(0, sites - n));
    RowCountConcat(Repeat(true, Min(n, sites)), Repeat(false, Max(0, sites - n)), true);
    RepeatCount(true, Min(n, sites), true);
    RepeatCount(false, Max(0, sites - n), true);
    r
  }

  /** `random.shuffle`: for `i` from the last index down to 1, swap entry `i` with an
      entry `j` drawn from `0..i`; the draw is `picks[i]` reduced into that range. The
      entries are permuted. */
  method Shuffle<T>(a: array<T>, picks: seq<int>)
    requires |picks| == a.Length
    modifies a
    ensures multiset(a[..]) == multiset(old(a[..]))
  {
    var i := a.Length;
    while i > 1
      invariant 0 <= i <= a.Length
      invariant multiset(a[..]) == multiset(old(a[..]))
    {
      i := i - 1;
      var j := picks[i] % (i + 1);
      a[i], a[j] := a[j], a[i];
    }
  }

  /** The rows of a flat list read `cols` entries at a time. */
  function Rows<T>(s: seq<T>, rows: nat, cols: nat): (m: seq<seq<T>>)
    requires |s| == rows * cols
    ensures IsMatrix(m, rows, cols)
    decreases rows
  {
    if rows == 0 then []
    else
      assert |s| == cols + (rows - 1) * cols;
      [s[..cols]] + Rows(s[cols..], rows - 1, cols)
  }

  /** Splitting into rows keeps every count. */
  lemma {:induction false} RowsCount<T>(s: seq<T>, rows: nat, cols: nat, x: T)
    requires |s| == rows * cols
    ensures Count(Rows(s, rows, cols), x) == RowCount(s, x)
    decreases rows
  {
    if rows > 0 {
      assert |s| == cols + (rows - 1) * cols;
      var m := Rows(s, rows, cols);
      assert m[0] == s[..cols] && m[1..] == Rows(s[cols..], rows - 1, cols);
      RowsCount(s[cols..], rows - 1, cols, x);
      assert s == s[..cols] + s[cols..];
      RowCountConcat(s[..cols], s[cols..], x);
    }
  }

  /** `np.array(s).reshape(rows, cols)`: the row-major matrix of the list, a
      `ValueError` when the list does not have one entry per cell. The matrix holds
      every value as often as the list does. */
  function Reshape(s: seq<bool>, rows: nat, cols: nat): (r: Result<seq<seq<bool>>>)
    ensures r.Ok? <==> |s| == rows * cols
    ensures r.Ok? ==> IsMatrix(r.value, rows, cols) && forall x :: Count(r.value, x) == multiset(s)[x]
  {
    if |s| != rows * cols then Err("ValueError")
    else
      var m := Rows(s, rows, cols);
      assert forall x :: Count(m, x) == multiset(s)[x] by {
        forall x
          ensures Count(m, x) == multiset(s)[x]
        {
          RowsCount(s, rows, cols, x);
          RowCountMultiset(s, x);
        }
      }
      Ok(m)
  }

  /** The seeder of `number_mines(n)` applied to a grid size: with `n >= 0` a layout of
      that size with exactly `min(n, sites)` mines, never an error when `n` exceeds
      the number of cells; with a negative `n` the list is too long and the reshape
      fails. */
  method NumberMines(n: int, rows: nat, cols: nat, picks: seq<int>) returns (r: Result<seq<seq<bool>>>)
    requires |picks| == |Indices(n, rows * cols)|
    ensures r.Ok? <==> n >= 0
    ensures r.Ok? ==> IsMatrix(r.value, rows, cols) && Ones(r.value) == Min(n, rows * cols)
  {
    var sites := rows * cols;
    var indices := Indices(n, sites);
    var a := new bool[|indices|](k requires 0 <= k < |indices| => indices[k]);
    assert a[..] == indices;
    Shuffle(a, picks);
    r := Reshape(a[..], rows, cols);
    if r.Ok? {
      RowCountMultiset(indices, true);
    }
  }

  /** `percent_mines`: a fraction outside `[0, 1]` is refused when the seeder is made,
      before any seeding; otherwise the seeder asks for `int(p * p)` mines, the square
      of the fraction and not a share of the cells: none below 1, one at 1. */
  function PercentMines(p: real): (r: Result<int>)
    ensures r.Ok? <==> 0.0 <= p <= 1.0
    ensures r.Ok? ==> r.value == if p == 1.0 then 1 else 0
  {
    if !(0.0 <= p <= 1.0) then Err("ValueError")
    else
      SquareBelowOne(p);
      Ok((p * p).Floor)
  }

  /** Squaring a fraction of `[0, 1)` stays below 1. */
  lemma SquareBelowOne(p: real)
    requires 0.0 <= p <= 1.0
    ensures p < 1.0 ==> p * p < 1.0
  {
    if p < 1.0 {
      assert p * p <= p * 1.0 by {
        MulMonotone(p, p, 1.0);
      }
    }
  }

  lemma MulMonotone(x: real, a: real, b: real)
    requires x >= 0.0 && a <= b
    ensures x * a <= x * b
  {
    assert x * b - x * a == x * (b - a);
  }

  /** The seeder of `percent_mines(p)` applied to a grid size: no mine for a fraction
      below 1, `min(1, sites)` mines for 1, an error outside `[0, 1]`. */
  method PercentSeed(p: real, rows: nat, cols: nat, picks: seq<int>) returns (r: Result<seq<seq<bool>>>)
    requires 0.0 <= p <= 1.0 ==> |picks| == rows * cols
    ensures r.Ok? <==> 0.0 <= p <= 1.0
    ensures r.Ok? ==> IsMatrix(r.value, rows, cols) && Ones(r.value) == if p == 1.0 then Min(1, rows * cols) else 0
  {
    var count := PercentMines(p);
    if count.Err? {
      return Err(count.message);
    }
    r := NumberMines(count.value, rows, cols, picks);
  }
}

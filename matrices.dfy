/** Grid positions, rectangular matrices held as sequences of rows, and
    counting over them (the model's `np.sum` of a mask). */
module Matrices {

  /** A grid position (row index, column index), as the boards index cells. */
  type Pos = (int, int)

  predicate InBounds(p: Pos, rows: int, cols: int)
  {
    0 <= p.0 < rows && 0 <= p.1 < cols
  }

  /** `m` has `rows` rows of `cols` entries each. */
  predicate IsMatrix<T>(m: seq<seq<T>>, rows: nat, cols: nat)
  {
    |m| == rows && forall i :: 0 <= i < rows ==> |m[i]| == cols
  }

  /** The first `n` entries of row `i` of a two-dimensional array. */
  function RowOf<T>(a: array2<T>, i: nat, n: nat): (r: seq<T>)
    reads a
    requires i < a.Length0 && n <= a.Length1
    ensures |r| == n && forall j :: 0 <= j < n ==> r[j] == a[i, j]
  {
    if n == 0 then [] else RowOf(a, i, n - 1) + [a[i, n - 1]]
  }

  /** The first `k` rows of a two-dimensional array. */
  function RowsOf<T>(a: array2<T>, k: nat): (m: seq<seq<T>>)
    reads a
    requires k <= a.Length0
    ensures |m| == k && forall i :: 0 <= i < k ==> m[i] == RowOf(a, i, a.Length1)
  {
    if k == 0 then [] else RowsOf(a, k - 1) + [RowOf(a, k - 1, a.Length1)]
  }

  /** The contents of a two-dimensional array as a matrix value. */
  function Matrix<T>(a: array2<T>): (m: seq<seq<T>>)
    reads a
    ensures IsMatrix(m, a.Length0, a.Length1)
    ensures forall i, j :: 0 <= i < a.Length0 && 0 <= j < a.Length1 ==> m[i][j] == a[i, j]
  {
    RowsOf(a, a.Length0)
  }

  /** Two matrices of one shape with the same entries are equal. */
  lemma MatrixExt<T>(a: seq<seq<T>>, b: seq<seq<T>>, rows: nat, cols: nat)
    requires IsMatrix(a, rows, cols) && IsMatrix(b, rows, cols)
    requires forall i, j :: 0 <= i < rows && 0 <= j < cols ==> a[i][j] == b[i][j]
    ensures a == b
  {
    forall i | 0 <= i < rows
      ensures a[i] == b[i]
    {
      assert forall j :: 0 <= j < cols ==> a[i][j] == b[i][j];
    }
  }

  /** `m` with the entry at `p` replaced by `v` (`m[p] = v`). */
  function SetEntry<T>(m: seq<seq<T>>, rows: nat, cols: nat, p: Pos, v: T): (m': seq<seq<T>>)
    requires IsMatrix(m, rows, cols) && InBounds(p, rows, cols)
    ensures IsMatrix(m', rows, cols)
    ensures forall i, j :: 0 <= i < rows && 0 <= j < cols ==> m'[i][j] == if (i, j) == p then v else m[i][j]
  {
    m[p.0 := m[p.0][p.1 := v]]
  }

  /** Writing back the value an entry already has changes nothing. */
  lemma SetEntrySame<T>(m: seq<seq<T>>, rows: nat, cols: nat, p: Pos)
    requires IsMatrix(m, rows, cols) && InBounds(p, rows, cols)
    ensures SetEntry(m, rows, cols, p, m[p.0][p.1]) == m
  {
    MatrixExt(SetEntry(m, rows, cols, p, m[p.0][p.1]), m, rows, cols);
  }

  /** A `rows` by `cols` matrix holding `x` everywhere. */
  function Filled<T>(rows: nat, cols: nat, x: T): (m: seq<seq<T>>)
    ensures IsMatrix(m, rows, cols)
    ensures forall i, j :: 0 <= i < rows && 0 <= j < cols ==> m[i][j] == x
  {
    seq(rows, i => seq(cols, j => x))
  }

  /** Number of entries of a row equal to `x`. */
  function RowCount<T(==)>(r: seq<T>, x: T): nat
  {
    if |r| == 0 then 0 else (if r[0] == x then 1 else 0) + RowCount(r[1..], x)
  }

  /** Number of entries of a matrix equal to `x`. */
  function Count<T(==)>(m: seq<seq<T>>, x: T): nat
  {
    if |m| == 0 then 0 else RowCount(m[0], x) + Count(m[1..], x)
  }

  /** Number of true entries of a mask (`np.sum(mask)`). */
  function Ones(m: seq<seq<bool>>): nat
  {
    Count(m, true)
  }

  lemma {:induction false} RowCountBound<T>(r: seq<T>, x: T)
    ensures RowCount(r, x) <= |r|
    ensures RowCount(r, x) == |r| <==> forall k :: 0 <= k < |r| ==> r[k] == x
    ensures RowCount(r, x) == 0 <==> forall k :: 0 <= k < |r| ==> r[k] != x
  {
    if |r| > 0 {
      RowCountBound(r[1..], x);
      assert forall k :: 1 <= k < |r| ==> r[k] == r[1..][k - 1];
    }
  }

  lemma {:induction false} RowCountUpdate<T>(r: seq<T>, j: int, v: T, x: T)
    requires 0 <= j < |r|
    ensures RowCount(r[j := v], x) == RowCount(r, x) - (if r[j] == x then 1 else 0) + (if v == x then 1 else 0)
  {
    if j > 0 {
      assert r[j := v][1..] == r[1..][j - 1 := v];
      RowCountUpdate(r[1..], j - 1, v, x);
    } else {
      assert r[j := v][1..] == r[1..];
    }
  }

  lemma {:induction false} RowCountConcat<T>(a: seq<T>, b: seq<T>, x: T)
    ensures RowCount(a + b, x) == RowCount(a, x) + RowCount(b, x)
  {
    if |a| > 0 {
      assert (a + b)[1..] == a[1..] + b;
      RowCountConcat(a[1..], b, x);
    } else {
      assert a + b == b;
    }
  }

  /** Counting is the multiset multiplicity of the row. */
  lemma {:induction false} RowCountMultiset<T>(r: seq<T>, x: T)
    ensures RowCount(r, x) == multiset(r)[x]
  {
    if |r| > 0 {
      RowCountMultiset(r[1..], x);
      assert r == [r[0]] + r[1..];
      assert multiset(r) == multiset{r[0]} + multiset(r[1..]);
    }
  }

  /** Pointwise implication between two masks of one length bounds their counts;
      with equal counts the masks are equal. */
  lemma {:induction false} RowCountMonotone(a: seq<bool>, b: seq<bool>)
    requires |a| == |b|
    requires forall k :: 0 <= k < |a| ==> a[k] ==> b[k]
    ensures RowCount(a, true) <= RowCount(b, true)
    ensures RowCount(a, true) == RowCount(b, true) ==> a == b
  {
    if |a| > 0 {
      RowCountMonotone(a[1..], b[1..]);
      if RowCount(a, true) == RowCount(b, true) {
        assert a[0] == b[0];
        assert a == [a[0]] + a[1..] && b == [b[0]] + b[1..];
      }
    }
  }

  lemma {:induction false} CountBound<T>(m: seq<seq<T>>, rows: nat, cols: nat, x: T)
    requires IsMatrix(m, rows, cols)
    ensures Count(m, x) <= rows * cols
    ensures Count(m, x) == rows * cols <==> forall i, j :: 0 <= i < rows && 0 <= j < cols ==> m[i][j] == x
    ensures Count(m, x) == 0 <==> forall i, j :: 0 <= i < rows && 0 <= j < cols ==> m[i][j] != x
  {
    if rows > 0 {
      var tail := m[1..];
      assert IsMatrix(tail, rows - 1, cols);
      RowCountBound(m[0], x);
      CountBound(tail, rows - 1, cols, x);
      assert Count(m, x) == RowCount(m[0], x) + Count(tail, x);
      assert forall i, j :: 1 <= i < rows && 0 <= j < cols ==> m[i][j] == tail[i - 1][j];
      CountBoundStep(m, tail, rows, cols, x);
    }
  }

  lemma CountBoundStep<T>(m: seq<seq<T>>, tail: seq<seq<T>>, rows: nat, cols: nat, x: T)
    requires rows > 0 && IsMatrix(m, rows, cols) && tail == m[1..]
    requires Count(m, x) == RowCount(m[0], x) + Count(tail, x)
    requires RowCount(m[0], x) <= cols && Count(tail, x) <= (rows - 1) * cols
    requires RowCount(m[0], x) == cols <==> forall k :: 0 <= k < cols ==> m[0][k] == x
    requires RowCount(m[0], x) == 0 <==> forall k :: 0 <= k < cols ==> m[0][k] != x
    requires Count(tail, x) == (rows - 1) * cols <==> forall i, j :: 0 <= i < rows - 1 && 0 <= j < cols ==> tail[i][j] == x
    requires Count(tail, x) == 0 <==> forall i, j :: 0 <= i < rows - 1 && 0 <= j < cols ==> tail[i][j] != x
    ensures Count(m, x) <= rows * cols
    ensures Count(m, x) == rows * cols <==> forall i, j :: 0 <= i < rows && 0 <= j < cols ==> m[i][j] == x
    ensures Count(m, x) == 0 <==> forall i, j :: 0 <= i < rows && 0 <= j < cols ==> m[i][j] != x
  {
    assert rows * cols == cols + (rows - 1) * cols;
    assert forall i, j :: 1 <= i < rows && 0 <= j < cols ==> m[i][j] == tail[i - 1][j];
  }

  /** A positive count has a witness. */
  lemma CountWitness<T>(m: seq<seq<T>>, rows: nat, cols: nat, x: T) returns (p: Pos)
    requires IsMatrix(m, rows, cols)
    requires Count(m, x) > 0
    ensures InBounds(p, rows, cols) && m[p.0][p.1] == x
  {
    CountBound(m, rows, cols, x);
    var i, j :| 0 <= i < rows && 0 <= j < cols && m[i][j] == x;
    p := (i, j);
  }

  lemma {:induction false} CountUpdate<T>(m: seq<seq<T>>, i: int, j: int, v: T, x: T)
    requires 0 <= i < |m| && 0 <= j < |m[i]|
    ensures Count(m[i := m[i][j := v]], x) == Count(m, x) - (if m[i][j] == x then 1 else 0) + (if v == x then 1 else 0)
  {
    if i > 0 {
      assert m[i := m[i][j := v]][1..] == m[1..][i - 1 := m[1..][i - 1][j := v]];
      CountUpdate(m[1..], i - 1, j, v, x);
    } else {
      assert m[i := m[i][j := v]][1..] == m[1..];
      RowCountUpdate(m[0], j, v, x);
    }
  }

  /** A mask that implies another pointwise has no more ones; with as many
      ones the two masks are equal. */
  lemma {:induction false} OnesMonotone(a: seq<seq<bool>>, b: seq<seq<bool>>, rows: nat, cols: nat)
    requires IsMatrix(a, rows, cols) && IsMatrix(b, rows, cols)
    requires forall i, j :: 0 <= i < rows && 0 <= j < cols ==> a[i][j] ==> b[i][j]
    ensures Ones(a) <= Ones(b)
    ensures Ones(a) == Ones(b) ==> a == b
  {
    if rows > 0 {
      RowCountMonotone(a[0], b[0]);
      assert forall i, j :: 0 <= i < rows - 1 && 0 <= j < cols ==> a[1..][i][j] == a[i + 1][j] && b[1..][i][j] == b[i + 1][j];
      OnesMonotone(a[1..], b[1..], rows - 1, cols);
      if Ones(a) == Ones(b) {
        assert a[0] == b[0] && a[1..] == b[1..];
        assert a == [a[0]] + a[1..] && b == [b[0]] + b[1..];
      }
    }
  }

  /** When each entry is one of three distinct values, their counts add up to the number of entries. */
  lemma {:induction false} CountPartition3<T>(m: seq<seq<T>>, rows: nat, cols: nat, a: T, b: T, c: T)
    requires IsMatrix(m, rows, cols)
    requires a != b && b != c && a != c
    requires forall i, j :: 0 <= i < rows && 0 <= j < cols ==> m[i][j] == a || m[i][j] == b || m[i][j] == c
    ensures Count(m, a) + Count(m, b) + Count(m, c) == rows * cols
  {
    if rows > 0 {
      RowPartition3(m[0], a, b, c);
      assert forall i, j :: 0 <= i < rows - 1 && 0 <= j < cols ==> m[1..][i][j] == m[i + 1][j];
      CountPartition3(m[1..], rows - 1, cols, a, b, c);
    }
  }

  lemma {:induction false} RowPartition3<T>(r: seq<T>, a: T, b: T, c: T)
    requires a != b && b != c && a != c
    requires forall k :: 0 <= k < |r| ==> r[k] == a || r[k] == b || r[k] == c
    ensures RowCount(r, a) + RowCount(r, b) + RowCount(r, c) == |r|
  {
    if |r| > 0 {
      RowPartition3(r[1..], a, b, c);
    }
  }

  /** Two masks with no common true entry have at most as many ones together as the
      matrix has entries. */
  lemma {:induction false} OnesDisjoint(a: seq<seq<bool>>, b: seq<seq<bool>>, rows: nat, cols: nat)
    requires IsMatrix(a, rows, cols) && IsMatrix(b, rows, cols)
    requires forall i, j :: 0 <= i < rows && 0 <= j < cols ==> !(a[i][j] && b[i][j])
    ensures Ones(a) + Ones(b) <= rows * cols
  {
    if rows > 0 {
      RowOnesDisjoint(a[0], b[0]);
      assert forall i, j :: 0 <= i < rows - 1 && 0 <= j < cols ==> a[1..][i][j] == a[i + 1][j] && b[1..][i][j] == b[i + 1][j];
      OnesDisjoint(a[1..], b[1..], rows - 1, cols);
      assert (rows - 1) * cols + cols == rows * cols;
    }
  }

  lemma {:induction false} RowOnesDisjoint(a: seq<bool>, b: seq<bool>)
    requires |a| == |b| && forall k :: 0 <= k < |a| ==> !(a[k] && b[k])
    ensures RowCount(a, true) + RowCount(b, true) <= |a|
  {
    if |a| > 0 {
      RowOnesDisjoint(a[1..], b[1..]);
    }
  }

  /** `np.all(mask)`: the number of true entries is the number of entries, which is
      the case exactly when every entry is true. */
  function All(m: seq<seq<bool>>, rows: nat, cols: nat): (b: bool)
    requires IsMatrix(m, rows, cols)
    ensures b <==> forall i, j :: 0 <= i < rows && 0 <= j < cols ==> m[i][j]
  {
    CountBound(m, rows, cols, true);
    Ones(m) == rows * cols
  }
}

/** The dense kernels the solve hands each supernode's diagonal block and panel to:
    a unit-lower-triangular solve (sludlsolve), an upper-triangular solve with
    explicit diagonal (sludusolve) and a matrix-vector multiply-accumulate
    (sludmatvec). Their C bodies are not part of this model; each is given here
    by a straightforward column-oriented loop, proved against a row-oriented
    reference definition of what it computes. */
module DenseKernels {
  import opened ColumnMajor

  /** A dense rows x |columns| block, held as its columns. */
  datatype Block = Block(rows: int, columns: seq<seq<real>>)
  {
    function Cols(): int { |columns| }
  }

  predicate ValidBlock(m: Block)
  {
    0 <= m.rows && forall c :: 0 <= c < |m.columns| ==> |m.columns[c]| == m.rows
  }

  /** Entry (i, c) of the block. */
  function At(m: Block, i: int, c: int): real
    requires ValidBlock(m) && 0 <= i < m.rows && 0 <= c < m.Cols()
  {
    m.columns[c][i]
  }

  /** One elimination update: the entry t loses the multiple m of the factor f.
      Kept as a function of its own so that equal updates compare as equal
      terms without unfolding the product. */
  function Eliminate(t: real, m: real, f: real): real
  {
    t - m * f
  }

  /** The rows x cols block stored column-major in vals from off on with leading
      dimension ld: entry (i, c) is vals[off + i + c*ld]. */
  function BlockAt(vals: seq<real>, off: int, ld: int, rows: int, cols: int): (m: Block)
    requires 0 <= off && 0 <= rows <= ld && 0 <= cols
    requires cols == 0 || off + (cols - 1) * ld + rows <= |vals|
    ensures ValidBlock(m) && m.rows == rows && m.Cols() == cols
  {
    Block(rows, seq(cols, c requires 0 <= c < cols => ColumnSlice(vals, off, ld, rows, cols, c)))
  }

  function ColumnSlice(vals: seq<real>, off: int, ld: int, rows: int, cols: int, c: int): (col: seq<real>)
    requires 0 <= off && 0 <= rows <= ld && 0 <= c < cols
    requires off + (cols - 1) * ld + rows <= |vals|
    ensures |col| == rows
  {
    MulMonotone(c, cols - 1, ld);
    vals[off + c * ld .. off + c * ld + rows]
  }

  /** BlockAt reads the flat buffer the column-major way. */
  lemma BlockAtEntry(vals: seq<real>, off: int, ld: int, rows: int, cols: int, i: int, c: int)
    requires 0 <= off && 0 <= rows <= ld && 0 <= cols
    requires cols == 0 || off + (cols - 1) * ld + rows <= |vals|
    requires 0 <= i < rows && 0 <= c < cols
    ensures 0 <= off + i + c * ld < |vals|
    ensures At(BlockAt(vals, off, ld, rows, cols), i, c) == vals[off + i + c * ld]
  {
    MulMonotone(c, cols - 1, ld);
  }

  /** Sum over lo <= c < hi of M(i, c) * v[c]. */
  function RowDot(m: Block, i: int, v: seq<real>, lo: int, hi: int): real
    requires ValidBlock(m) && 0 <= i < m.rows
    requires 0 <= lo <= hi <= m.Cols() && hi <= |v|
    decreases hi - lo
  {
    if lo == hi then 0.0 else At(m, i, lo) * v[lo] + RowDot(m, i, v, lo + 1, hi)
  }

  /** Extending the summation range by one column at the top adds that column's term. */
  lemma {:induction false} RowDotSnoc(m: Block, i: int, v: seq<real>, lo: int, hi: int)
    requires ValidBlock(m) && 0 <= i < m.rows
    requires 0 <= lo <= hi < m.Cols() && hi < |v|
    ensures RowDot(m, i, v, lo, hi + 1) == RowDot(m, i, v, lo, hi) + At(m, i, hi) * v[hi]
    decreases hi - lo
  {
    if lo < hi {
      RowDotSnoc(m, i, v, lo + 1, hi);
    }
  }

  /** RowDot reads v only on [lo, hi). */
  lemma {:induction false} RowDotFrame(m: Block, i: int, v: seq<real>, w: seq<real>, lo: int, hi: int)
    requires ValidBlock(m) && 0 <= i < m.rows
    requires 0 <= lo <= hi <= m.Cols() && hi <= |v| && hi <= |w|
    requires forall c :: lo <= c < hi ==> v[c] == w[c]
    ensures RowDot(m, i, v, lo, hi) == RowDot(m, i, w, lo, hi)
    decreases hi - lo
  {
    if lo < hi {
      RowDotFrame(m, i, v, w, lo + 1, hi);
    }
  }

  // ---------------------------------------------------------------------------
  // Unit lower triangular solve

  /** A square block, the shape both triangular solves take. */
  predicate Square(m: Block)
  {
    ValidBlock(m) && m.rows == m.Cols()
  }

  /** Forward substitution by rows: entries 0..k-1 hold the solution of the unit
      lower triangular system M y = b, entries k.. still hold b. */
  function LowerUpTo(m: Block, b: seq<real>, k: int): (y: seq<real>)
    requires Square(m) && |b| == m.Cols() && 0 <= k <= m.Cols()
    ensures |y| == |b|
    decreases k
  {
    if k == 0 then b
    else
      var z := LowerUpTo(m, b, k - 1);
      z[k - 1 := b[k - 1] - RowDot(m, k - 1, z, 0, k - 1)]
  }

  /** The solution y of M y = b with M unit lower triangular (only the strictly
      lower part of the block is read). */
  function LowerUnitSolution(m: Block, b: seq<real>): (y: seq<real>)
    requires Square(m) && |b| == m.Cols()
  {
    LowerUpTo(m, b, m.Cols())
  }

  /** Later steps of the row substitution do not revisit settled entries. */
  lemma {:induction false} LowerUpToStable(m: Block, b: seq<real>, k: int, k2: int)
    requires Square(m) && |b| == m.Cols() && 0 <= k <= k2 <= m.Cols()
    ensures LowerUpTo(m, b, k2)[..k] == LowerUpTo(m, b, k)[..k]
    decreases k2 - k
  {
    if k < k2 {
      LowerUpToStable(m, b, k, k2 - 1);
    }
  }

  /** The reference solution does solve the system: row i of M y equals b[i]. */
  lemma LowerUnitSolves(m: Block, b: seq<real>, i: int)
    requires Square(m) && |b| == m.Cols() && 0 <= i < m.Cols()
    ensures var y := LowerUnitSolution(m, b); y[i] + RowDot(m, i, y, 0, i) == b[i]
  {
    var y := LowerUnitSolution(m, b);
    var z := LowerUpTo(m, b, i);
    LowerUpToStable(m, b, i + 1, m.Cols());
    LowerUpToStable(m, b, i, i + 1);
    RowDotFrame(m, i, y, z, 0, i);
  }

  /** ... and it is the only solution. */
  lemma {:induction false} LowerUnitUnique(m: Block, b: seq<real>, z: seq<real>)
    requires Square(m) && |b| == m.Cols() && |z| == m.Cols()
    requires forall i :: 0 <= i < m.Cols() ==> z[i] + RowDot(m, i, z, 0, i) == b[i]
    ensures z == LowerUnitSolution(m, b)
  {
    var y := LowerUnitSolution(m, b);
    var k := 0;
    while k < m.Cols()
      invariant 0 <= k <= m.Cols()
      invariant forall c :: 0 <= c < k ==> z[c] == y[c]
    {
      LowerUnitSolves(m, b, k);
      RowDotFrame(m, k, z, y, 0, k);
      k := k + 1;
    }
  }

  /** One column step of the column-oriented substitution: every entry below
      the pivot row j loses rhs[j] times its entry in column j of M. */
  method EliminateBelow(m: Block, rhs: array<real>, roff: int, j: int)
    requires Square(m) && 0 <= roff && roff + m.Cols() <= rhs.Length && 0 <= j < m.Cols()
    modifies rhs
    ensures forall r :: j < r < m.Cols() ==> rhs[roff + r] == old(rhs[roff + r]) - At(m, r, j) * old(rhs[roff + j])
    ensures SameOutside(rhs[..], old(rhs[..]), roff + j + 1, m.Cols() - j - 1)
  {
    var xj := rhs[roff + j];
    var i := j + 1;
    while i < m.Cols()
      invariant j + 1 <= i <= m.Cols()
      invariant forall r :: j < r < i ==> rhs[roff + r] == old(rhs[roff + r]) - At(m, r, j) * xj
      invariant SameOutside(rhs[..], old(rhs[..]), roff + j + 1, i - j - 1)
    {
      rhs[roff + i] := rhs[roff + i] - At(m, i, j) * xj;
      i := i + 1;
    }
  }

  /** Taking column j of the solution off row r moves its partial sum on by one column. */
  lemma EliminatedRow(m: Block, b: seq<real>, y: seq<real>, r: int, j: int, before: real, yj: real, after: real)
    requires Square(m) && |y| == m.Cols() && |b| == m.Cols() && 0 <= j < r < m.Cols()
    requires before == b[r] - RowDot(m, r, y, 0, j) && yj == y[j]
    requires after == before - At(m, r, j) * yj
    ensures after == b[r] - RowDot(m, r, y, 0, j + 1)
  {
    RowDotSnoc(m, r, y, 0, j);
  }

  /** sludlsolve(ldm, ncol, M, rhs): rhs[roff .. roff+ncol) is overwritten with the
      solution of the unit lower triangular system; nothing else changes. */
  method LowerUnitSolve(m: Block, rhs: array<real>, roff: int)
    requires Square(m) && 0 <= roff && roff + m.Cols() <= rhs.Length
    modifies rhs
    ensures rhs[roff .. roff + m.Cols()] == LowerUnitSolution(m, old(rhs[roff .. roff + m.Cols()]))
    ensures SameOutside(rhs[..], old(rhs[..]), roff, m.Cols())
  {
    ghost var b := rhs[roff .. roff + m.Cols()];
    ghost var y := LowerUnitSolution(m, b);
    var j := 0;
    while j < m.Cols()
      invariant 0 <= j <= m.Cols()
      invariant forall c :: 0 <= c < j ==> rhs[roff + c] == y[c]
      invariant forall r :: j <= r < m.Cols() ==> rhs[roff + r] == b[r] - RowDot(m, r, y, 0, j)
      invariant SameOutside(rhs[..], old(rhs[..]), roff, m.Cols())
    {
      LowerUnitSolves(m, b, j);
      assert rhs[roff + j] == y[j];
      ghost var pre := rhs[..];
      EliminateBelow(m, rhs, roff, j);
      forall r | j < r < m.Cols()
        ensures rhs[roff + r] == b[r] - RowDot(m, r, y, 0, j + 1)
      {
        EliminatedRow(m, b, y, r, j, pre[roff + r], pre[roff + j], rhs[roff + r]);
      }
      j := j + 1;
    }
    assert forall c :: 0 <= c < m.Cols() ==> rhs[roff .. roff + m.Cols()][c] == y[c];
  }

  // ---------------------------------------------------------------------------
  // Upper triangular solve with explicit diagonal

  predicate NonzeroDiagonal(m: Block)
    requires Square(m)
  {
    forall d :: 0 <= d < m.Cols() ==> At(m, d, d) != 0.0
  }

  /** Back substitution by rows: entries k.. hold the solution of the upper
      triangular system M x = b, entries below k still hold b. */
  function UpperFrom(m: Block, b: seq<real>, k: int): (x: seq<real>)
    requires Square(m) && NonzeroDiagonal(m) && |b| == m.Cols() && 0 <= k <= m.Cols()
    ensures |x| == |b|
    decreases m.Cols() - k
  {
    if k == m.Cols() then b
    else
      var z := UpperFrom(m, b, k + 1);
      z[k := (b[k] - RowDot(m, k, z, k + 1, m.Cols())) / At(m, k, k)]
  }

  /** The solution x of M x = b with M upper triangular (the strictly lower part
      of the block is not read). */
  function UpperSolution(m: Block, b: seq<real>): (x: seq<real>)
    requires Square(m) && NonzeroDiagonal(m) && |b| == m.Cols()
  {
    UpperFrom(m, b, 0)
  }

  lemma {:induction false} UpperFromStable(m: Block, b: seq<real>, k: int, k2: int)
    requires Square(m) && NonzeroDiagonal(m) && |b| == m.Cols() && 0 <= k <= k2 <= m.Cols()
    ensures UpperFrom(m, b, k)[k2..] == UpperFrom(m, b, k2)[k2..]
    decreases k2 - k
  {
    if k < k2 {
      UpperFromStable(m, b, k + 1, k2);
    }
  }

  lemma DivideBack(a: real, d: real)
    requires d != 0.0
    ensures d * (a / d) == a
  {
  }

  lemma CancelFactor(d: real, a: real, c: real)
    requires d != 0.0 && d * a == d * c
    ensures a == c
  {
    assert a == (d * a) / d;
  }

  lemma SolveRowUnique(d: real, zk: real, xk: real, r: real, bk: real)
    requires d != 0.0 && d * zk + r == bk && xk == (bk - r) / d
    ensures zk == xk
  {
    DivideBack(bk - r, d);
    CancelFactor(d, zk, xk);
  }

  /** Row k of the back substitution: x[k] is b[k], less the settled part of the
      row, divided by the diagonal. */
  lemma UpperRow(m: Block, b: seq<real>, k: int)
    requires Square(m) && NonzeroDiagonal(m) && |b| == m.Cols() && 0 <= k < m.Cols()
    ensures var x := UpperSolution(m, b);
      x[k] == (b[k] - RowDot(m, k, x, k + 1, m.Cols())) / At(m, k, k)
  {
    var x := UpperSolution(m, b);
    var z := UpperFrom(m, b, k + 1);
    UpperFromStable(m, b, 0, k);
    UpperFromStable(m, b, k, k + 1);
    assert x[k..] == UpperFrom(m, b, k)[k..];
    assert x[k] == UpperFrom(m, b, k)[k];
    forall c | k + 1 <= c < m.Cols()
      ensures x[c] == z[c]
    {
      assert x[c] == x[k..][c - k] == UpperFrom(m, b, k)[k..][c - k];
      assert UpperFrom(m, b, k)[k + 1..][c - k - 1] == z[k + 1..][c - k - 1];
    }
    RowDotFrame(m, k, x, z, k + 1, m.Cols());
  }

  /** The reference solution does solve the system: row i of the upper
      triangle of M times x equals b[i]. */
  lemma UpperSolves(m: Block, b: seq<real>, i: int)
    requires Square(m) && NonzeroDiagonal(m) && |b| == m.Cols() && 0 <= i < m.Cols()
    ensures var x := UpperSolution(m, b); RowDot(m, i, x, i, m.Cols()) == b[i]
  {
    var x := UpperSolution(m, b);
    UpperRow(m, b, i);
    DivideBack(b[i] - RowDot(m, i, x, i + 1, m.Cols()), At(m, i, i));
  }

  /** ... and it is the only solution. */
  lemma {:induction false} UpperUnique(m: Block, b: seq<real>, z: seq<real>)
    requires Square(m) && NonzeroDiagonal(m) && |b| == m.Cols() && |z| == m.Cols()
    requires forall i :: 0 <= i < m.Cols() ==> RowDot(m, i, z, i, m.Cols()) == b[i]
    ensures z == UpperSolution(m, b)
  {
    var x := UpperSolution(m, b);
    var k := m.Cols();
    while k > 0
      invariant 0 <= k <= m.Cols()
      invariant forall c :: k <= c < m.Cols() ==> z[c] == x[c]
    {
      k := k - 1;
      UpperRow(m, b, k);
      RowDotFrame(m, k, z, x, k + 1, m.Cols());
      assert RowDot(m, k, z, k, m.Cols()) == At(m, k, k) * z[k] + RowDot(m, k, z, k + 1, m.Cols());
      SolveRowUnique(At(m, k, k), z[k], x[k], RowDot(m, k, x, k + 1, m.Cols()), b[k]);
    }
  }

  /** One column step of the backward substitution: every entry above the pivot
      row j loses rhs[j] times its entry in column j of M. */
  method EliminateAbove(m: Block, rhs: array<real>, roff: int, j: int)
    requires Square(m) && 0 <= roff && roff + m.Cols() <= rhs.Length && 0 <= j < m.Cols()
    modifies rhs
    ensures forall r :: 0 <= r < j ==> rhs[roff + r] == old(rhs[roff + r]) - At(m, r, j) * old(rhs[roff + j])
    ensures SameOutside(rhs[..], old(rhs[..]), roff, j)
  {
    var xj := rhs[roff + j];
    var irow := 0;
    while irow < j
      invariant 0 <= irow <= j
      invariant forall r :: 0 <= r < irow ==> rhs[roff + r] == old(rhs[roff + r]) - At(m, r, j) * xj
      invariant SameOutside(rhs[..], old(rhs[..]), roff, irow)
    {
      rhs[roff + irow] := rhs[roff + irow] - At(m, irow, j) * xj;
      irow := irow + 1;
    }
  }

  /** sludusolve(ldm, ncol, M, rhs): rhs[roff .. roff+ncol) is overwritten with the
      solution of the upper triangular system; nothing else changes. */
  method UpperSolve(m: Block, rhs: array<real>, roff: int)
    requires Square(m) && NonzeroDiagonal(m) && 0 <= roff && roff + m.Cols() <= rhs.Length
    modifies rhs
    ensures rhs[roff .. roff + m.Cols()] == UpperSolution(m, old(rhs[roff .. roff + m.Cols()]))
    ensures SameOutside(rhs[..], old(rhs[..]), roff, m.Cols())
  {
    ghost var b := rhs[roff .. roff + m.Cols()];
    ghost var x := UpperSolution(m, b);
    var jcol := m.Cols();
    while jcol > 0
      invariant 0 <= jcol <= m.Cols()
      invariant forall c :: jcol <= c < m.Cols() ==> rhs[roff + c] == x[c]
      invariant forall r :: 0 <= r < jcol ==> rhs[roff + r] == b[r] - RowDot(m, r, x, jcol, m.Cols())
      invariant SameOutside(rhs[..], old(rhs[..]), roff, m.Cols())
    {
      jcol := jcol - 1;
      UpperRow(m, b, jcol);
      assert rhs[roff + jcol] == b[jcol] - RowDot(m, jcol, x, jcol + 1, m.Cols());
      var xj := rhs[roff + jcol] / At(m, jcol, jcol);
      assert xj == x[jcol];
      rhs[roff + jcol] := xj;
      ghost var pre := rhs[..];
      EliminateAbove(m, rhs, roff, jcol);
      forall r | 0 <= r < jcol
        ensures rhs[roff + r] == b[r] - RowDot(m, r, x, jcol, m.Cols())
      {
        assert pre[roff + r] == b[r] - RowDot(m, r, x, jcol + 1, m.Cols());
        assert rhs[roff + r] == pre[roff + r] - At(m, r, jcol) * pre[roff + jcol];
      }
    }
    assert forall c :: 0 <= c < m.Cols() ==> rhs[roff .. roff + m.Cols()][c] == x[c];
  }

  // ---------------------------------------------------------------------------
  // Matrix-vector multiply-accumulate

  /** The product M v. */
  function MatVec(m: Block, v: seq<real>): (w: seq<real>)
    requires ValidBlock(m) && |v| == m.Cols()
    ensures |w| == m.rows && forall i :: 0 <= i < m.rows ==> w[i] == RowDot(m, i, v, 0, m.Cols())
  {
    seq(m.rows, i requires 0 <= i < m.rows => RowDot(m, i, v, 0, m.Cols()))
  }

  /** out[i] += xc * M(i, c) for every row i of the block. */
  method AddColumn(m: Block, c: int, xc: real, out: array<real>)
    requires ValidBlock(m) && 0 <= c < m.Cols() && m.rows <= out.Length
    modifies out
    ensures forall i :: 0 <= i < m.rows ==> out[i] == old(out[i]) + At(m, i, c) * xc
    ensures SameOutside(out[..], old(out[..]), 0, m.rows)
  {
    var i := 0;
    while i < m.rows
      invariant 0 <= i <= m.rows
      invariant forall r :: 0 <= r < i ==> out[r] == old(out[r]) + At(m, r, c) * xc
      invariant SameOutside(out[..], old(out[..]), 0, i)
    {
      out[i] := out[i] + At(m, i, c) * xc;
      i := i + 1;
    }
  }

  /** sludmatvec(ldm, nrow, ncol, M, vec, Mxvec): Mxvec[0..nrow) += M * vec, where
      vec is vec[voff .. voff+ncol); the rest of Mxvec is untouched. */
  method MatVecAccumulate(m: Block, vec: array<real>, voff: int, out: array<real>)
    requires ValidBlock(m) && 0 <= voff && voff + m.Cols() <= vec.Length && m.rows <= out.Length
    requires vec != out
    modifies out
    ensures forall i :: 0 <= i < m.rows ==>
      out[i] == old(out[i]) + RowDot(m, i, vec[voff .. voff + m.Cols()], 0, m.Cols())
    ensures SameOutside(out[..], old(out[..]), 0, m.rows)
  {
    ghost var v := vec[voff .. voff + m.Cols()];
    var c := 0;
    while c < m.Cols()
      invariant 0 <= c <= m.Cols()
      invariant forall i :: 0 <= i < m.rows ==> out[i] == old(out[i]) + RowDot(m, i, v, 0, c)
      invariant SameOutside(out[..], old(out[..]), 0, m.rows)
    {
      ghost var pre := out[..];
      AddColumn(m, c, vec[voff + c], out);
      forall i | 0 <= i < m.rows
        ensures out[i] == old(out[i]) + RowDot(m, i, v, 0, c + 1)
      {
        assert out[i] == pre[i] + At(m, i, c) * v[c];
        RowDotSnoc(m, i, v, 0, c);
      }
      c := c + 1;
    }
  }
}

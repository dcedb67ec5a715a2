/** The back substitution U x = y of the no-transpose solve (dgstrs.c:262-311):
    supernodes in descending order; for each, the diagonal block is solved for
    the supernode's rows and then the columns of U above it are swept into the
    rows above the supernode. */
module Backward {
  import opened ColumnMajor
  import opened DenseKernels
  import opened SuperMatrices
  import opened Supernodes

  // ---------------------------------------------------------------------------
  // The diagonal block

  /** dgstrs.c:276-298 on one column x: a single-column supernode divides its
      row by the diagonal entry; a wider one solves its upper triangular
      diagonal block for its rows. */
  function DiagSolve(L: SCFormat, s: Super, x: seq<real>): (y: seq<real>)
    requires SupernodeOk(L, |x|, s) && NonzeroDiagonal(DiagBlock(L, |x|, s))
    ensures |y| == |x|
  {
    if s.nsupc == 1 then
      FirstDiagonal(L, |x|, s);
      x[s.fsupc := x[s.fsupc] / L.nzval[s.luptr]]
    else
      Splice(x, s.fsupc, UpperSolution(DiagBlock(L, |x|, s), x[s.fsupc .. s.fsupc + s.nsupc]))
  }

  /** Both branches of the diagonal step solve the diagonal block: the
      supernode's rows come to hold the unique solution of its upper triangular
      system, and no other row changes. */
  lemma DiagSolveEffect(L: SCFormat, s: Super, x: seq<real>)
    requires SupernodeOk(L, |x|, s) && NonzeroDiagonal(DiagBlock(L, |x|, s))
    ensures var y := DiagSolve(L, s, x);
      y[s.fsupc .. s.fsupc + s.nsupc] == UpperSolution(DiagBlock(L, |x|, s), x[s.fsupc .. s.fsupc + s.nsupc]) &&
      forall r :: 0 <= r < |x| && !(s.fsupc <= r < s.fsupc + s.nsupc) ==> y[r] == x[r]
  {
    if s.nsupc == 1 {
      var m := DiagBlock(L, |x|, s);
      var b := x[s.fsupc .. s.fsupc + 1];
      FirstDiagonal(L, |x|, s);
      assert UpperFrom(m, b, 1) == b;
      assert UpperSolution(m, b) == [x[s.fsupc] / L.nzval[s.luptr]];
    }
  }

  /** dgstrs.c:280-283 and 294-297 for the column at b[off .. off+n). */
  method DiagColumn(L: SCFormat, n: int, s: Super, b: array<real>, off: int)
    requires SupernodeOk(L, n, s) && NonzeroDiagonal(DiagBlock(L, n, s)) && 0 <= off && off + n <= b.Length
    modifies b
    ensures b[off .. off + n] == DiagSolve(L, s, old(b[off .. off + n]))
    ensures SameOutside(b[..], old(b[..]), off, n)
  {
    ghost var pre := b[..];
    if s.nsupc == 1 {
      FirstDiagonal(L, n, s);
      b[off + s.fsupc] := b[off + s.fsupc] / L.nzval[s.luptr];
      DividedSlice(L, n, s, off, pre, b[..]);
    } else {
      SliceOfSlice(pre, off, n, s.fsupc, s.nsupc);
      UpperSolve(DiagBlock(L, n, s), b, off + s.fsupc);
      SolvedSlice(L, n, s, off, pre, b[..]);
    }
  }

  /** The singleton branch of DiagColumn on the whole buffer. */
  lemma DividedSlice(L: SCFormat, n: int, s: Super, off: int, pre: seq<real>, post: seq<real>)
    requires SupernodeOk(L, n, s) && NonzeroDiagonal(DiagBlock(L, n, s)) && s.nsupc == 1
    requires 0 <= off && off + n <= |pre| && 0 <= s.luptr < |L.nzval| && L.nzval[s.luptr] != 0.0
    requires post == pre[off + s.fsupc := pre[off + s.fsupc] / L.nzval[s.luptr]]
    ensures post[off .. off + n] == DiagSolve(L, s, pre[off .. off + n])
    ensures SameOutside(post, pre, off, n)
  {
    assert pre[off + s.fsupc] == pre[off .. off + n][s.fsupc];
    SliceAssign(pre, post, off, n, s.fsupc, pre[off + s.fsupc] / L.nzval[s.luptr]);
  }

  /** The block branch of DiagColumn on the whole buffer. */
  lemma SolvedSlice(L: SCFormat, n: int, s: Super, off: int, pre: seq<real>, post: seq<real>)
    requires SupernodeOk(L, n, s) && NonzeroDiagonal(DiagBlock(L, n, s)) && s.nsupc != 1
    requires 0 <= off && off + n <= |pre| == |post|
    requires post[off + s.fsupc .. off + s.fsupc + s.nsupc] ==
      UpperSolution(DiagBlock(L, n, s), pre[off + s.fsupc .. off + s.fsupc + s.nsupc])
    requires SameOutside(post, pre, off + s.fsupc, s.nsupc)
    ensures post[off .. off + n] == DiagSolve(L, s, pre[off .. off + n])
    ensures SameOutside(post, pre, off, n)
  {
    var x := pre[off .. off + n];
    SliceOfSlice(pre, off, n, s.fsupc, s.nsupc);
    SpliceSlice(pre, post, off, n, s.fsupc, UpperSolution(DiagBlock(L, n, s), x[s.fsupc .. s.fsupc + s.nsupc]));
  }

  // ---------------------------------------------------------------------------
  // The sweep of the columns of U

  /** dgstrs.c:303-306 on one column x, run for the entries of column jcol of U
      below hi: row U_SUB(i) loses x[jcol] times the entry. */
  function SweepColumn(U: NCFormat, jcol: int, x: seq<real>, hi: int): (y: seq<real>)
    requires ColumnOk(U, |x|, jcol) && U.colptr[jcol] <= hi <= U.colptr[jcol + 1]
    ensures |y| == |x|
    decreases hi
  {
    if hi == U.colptr[jcol] then x
    else
      var z := SweepColumn(U, jcol, x, hi - 1);
      var irow := U.rowind[hi - 1];
      z[irow := Eliminate(z[irow], z[jcol], U.nzval[hi - 1])]
  }

  /** Entry (r, jcol) of U as the stored entries colptr[jcol] .. hi-1 of column
      jcol add up to it (repeated subscripts add). */
  function UEntry(U: NCFormat, jcol: int, r: int, hi: int): real
    requires 0 <= jcol && jcol + 1 < |U.colptr| && 0 <= U.colptr[jcol] <= hi <= |U.rowind| && hi <= |U.nzval|
    decreases hi - U.colptr[jcol]
  {
    if hi == U.colptr[jcol] then 0.0
    else UEntry(U, jcol, r, hi - 1) + (if U.rowind[hi - 1] == r then U.nzval[hi - 1] else 0.0)
  }

  lemma SubtractTwice(a: real, c: real, e: real, v: real)
    ensures Eliminate(Eliminate(a, c, e), c, v) == Eliminate(a, c, e + v)
  {
  }

  /** The sweep of column jcol subtracts x[jcol] times column jcol of U from x:
      every row r ends as x[r] - x[jcol] * U(r, jcol), and x[jcol] itself, on
      the diagonal, is left alone. */
  lemma {:induction false} SweepColumnEffect(U: NCFormat, jcol: int, x: seq<real>, hi: int)
    requires ColumnOk(U, |x|, jcol) && U.colptr[jcol] <= hi <= U.colptr[jcol + 1]
    ensures var y := SweepColumn(U, jcol, x, hi);
      forall r :: 0 <= r < |x| ==> y[r] == Eliminate(x[r], x[jcol], UEntry(U, jcol, r, hi))
    decreases hi
  {
    var y := SweepColumn(U, jcol, x, hi);
    if hi > U.colptr[jcol] {
      SweepColumnEffect(U, jcol, x, hi - 1);
      var z := SweepColumn(U, jcol, x, hi - 1);
      var irow := U.rowind[hi - 1];
      assert z[jcol] == x[jcol] by {
        assert UEntry(U, jcol, jcol, hi - 1) == 0.0 by { UEntryBelow(U, jcol, hi - 1, jcol); }
      }
      forall r | 0 <= r < |x|
        ensures y[r] == Eliminate(x[r], x[jcol], UEntry(U, jcol, r, hi))
      {
        if r == irow {
          SubtractTwice(x[r], x[jcol], UEntry(U, jcol, r, hi - 1), U.nzval[hi - 1]);
        }
      }
    } else {
      assert forall r :: 0 <= r < |x| ==> y[r] == Eliminate(x[r], x[jcol], UEntry(U, jcol, r, hi));
    }
  }

  /** A column of U whose stored subscripts all lie above row lim has nothing
      in row lim or below (with lim = jcol: nothing on or below the diagonal). */
  lemma {:induction false} UEntryBelow(U: NCFormat, jcol: int, hi: int, lim: int)
    requires 0 <= jcol && jcol + 1 < |U.colptr| && 0 <= U.colptr[jcol] <= hi <= |U.rowind| && hi <= |U.nzval|
    requires forall p :: U.colptr[jcol] <= p < hi ==> U.rowind[p] < lim
    ensures forall r :: lim <= r ==> UEntry(U, jcol, r, hi) == 0.0
    decreases hi - U.colptr[jcol]
  {
    if hi > U.colptr[jcol] {
      UEntryBelow(U, jcol, hi - 1, lim);
    }
  }

  lemma {:induction false} SweepColumnStep(U: NCFormat, jcol: int, x: seq<real>, i: int, z: seq<real>)
    requires ColumnOk(U, |x|, jcol) && U.colptr[jcol] <= i < U.colptr[jcol + 1]
    requires z == SweepColumn(U, jcol, x, i)
    ensures 0 <= U.rowind[i] < jcol
    ensures SweepColumn(U, jcol, x, i + 1) == z[U.rowind[i] := Eliminate(z[U.rowind[i]], z[jcol], U.nzval[i])]
  {
  }

  /** dgstrs.c:303-306: the sweep of column jcol of U into the column of B at
      b[off .. off+n). */
  method SweepOneColumn(U: NCFormat, n: int, jcol: int, b: array<real>, off: int)
    requires ColumnOk(U, n, jcol) && 0 <= off && off + n <= b.Length
    modifies b
    ensures b[off .. off + n] == SweepColumn(U, jcol, old(b[off .. off + n]), U.colptr[jcol + 1])
    ensures SameOutside(b[..], old(b[..]), off, n)
  {
    ghost var x := b[off .. off + n];
    var i := U.colptr[jcol];
    while i < U.colptr[jcol + 1]
      invariant U.colptr[jcol] <= i <= U.colptr[jcol + 1]
      invariant b[off .. off + n] == SweepColumn(U, jcol, x, i)
      invariant SameOutside(b[..], old(b[..]), off, n)
    {
      var irow := U.rowind[i];
      ghost var pre := b[..];
      SweepColumnStep(U, jcol, x, i, pre[off .. off + n]);
      assert pre[off + irow] == pre[off .. off + n][irow];
      assert pre[off + jcol] == pre[off .. off + n][jcol];
      b[off + irow] := Eliminate(b[off + irow], b[off + jcol], U.nzval[i]);
      SliceAssign(pre, b[..], off, n, irow, Eliminate(pre[off + irow], pre[off + jcol], U.nzval[i]));
      i := i + 1;
    }
  }

  /** The columns of U in a supernode all satisfy ColumnOk. */
  predicate SweepOk(U: NCFormat, n: int, s: Super)
  {
    |U.colptr| == n + 1 && 0 <= s.fsupc && 1 <= s.nsupc && s.fsupc + s.nsupc <= n &&
    forall jcol :: s.fsupc <= jcol < s.fsupc + s.nsupc ==> ColumnOk(U, n, jcol)
  }

  /** dgstrs.c:302-307 on one column x: the sweeps of columns fsupc .. upto-1 in
      ascending order. */
  function SweepColumns(U: NCFormat, s: Super, x: seq<real>, upto: int): (y: seq<real>)
    requires SweepOk(U, |x|, s) && s.fsupc <= upto <= s.fsupc + s.nsupc
    ensures |y| == |x|
    decreases upto
  {
    if upto == s.fsupc then x
    else SweepColumn(U, upto - 1, SweepColumns(U, s, x, upto - 1), U.colptr[upto])
  }

  /** Operations counted by the sweep of one column of B over columns
      fsupc .. upto-1 of U (dgstrs.c:303): two per stored entry. */
  function SweepOps(U: NCFormat, s: Super, upto: int): int
    requires |U.colptr| > upto >= s.fsupc >= 0
  {
    2 * (U.colptr[upto] - U.colptr[s.fsupc])
  }

  /** dgstrs.c:302-307 for the column at b[off .. off+n), with the count. */
  method SweepSupernodeColumn(U: NCFormat, n: int, s: Super, b: array<real>, off: int, opsIn: int)
    returns (ops: int)
    requires SweepOk(U, n, s) && 0 <= off && off + n <= b.Length
    modifies b
    ensures b[off .. off + n] == SweepColumns(U, s, old(b[off .. off + n]), s.fsupc + s.nsupc)
    ensures SameOutside(b[..], old(b[..]), off, n)
    ensures ops == opsIn + SweepOps(U, s, s.fsupc + s.nsupc)
  {
    ghost var x := b[off .. off + n];
    ops := opsIn;
    var jcol := s.fsupc;
    while jcol < s.fsupc + s.nsupc
      invariant s.fsupc <= jcol <= s.fsupc + s.nsupc
      invariant b[off .. off + n] == SweepColumns(U, s, x, jcol)
      invariant SameOutside(b[..], old(b[..]), off, n)
      invariant ops == opsIn + SweepOps(U, s, jcol)
    {
      ops := ops + 2 * (U.colptr[jcol + 1] - U.colptr[jcol]);
      SweepOneColumn(U, n, jcol, b, off);
      jcol := jcol + 1;
    }
  }

  // ---------------------------------------------------------------------------
  // The whole back substitution

  /** Back substitution step of supernode k on one column. */
  function BackwardSuper(L: SCFormat, U: NCFormat, k: int, x: seq<real>): (y: seq<real>)
    requires Factors(L, U, |x|) && 0 <= k <= L.nsuper
    ensures |y| == |x|
  {
    var s := Supernode(L, |x|, k);
    SupernodeColumnsOk(U, L, |x|, k);
    SweepColumns(U, s, DiagSolve(L, s, x), s.fsupc + s.nsupc)
  }

  /** Supernodes nsuper down to k applied in descending order. */
  function BackwardFrom(L: SCFormat, U: NCFormat, k: int, x: seq<real>): (y: seq<real>)
    requires Factors(L, U, |x|) && 0 <= k <= L.nsuper + 1
    ensures |y| == |x|
    decreases L.nsuper + 1 - k
  {
    if k == L.nsuper + 1 then x else BackwardSuper(L, U, k, BackwardFrom(L, U, k + 1, x))
  }

  /** The back substitution of one column: every supernode, descending. */
  function BackwardSolve(L: SCFormat, U: NCFormat, x: seq<real>): (y: seq<real>)
    requires Factors(L, U, |x|)
    ensures |y| == |x|
  {
    BackwardFrom(L, U, 0, x)
  }

  ghost function DiagEach(L: SCFormat, n: int, s: Super, cs: seq<seq<real>>): (r: seq<seq<real>>)
    requires SupernodeOk(L, n, s) && NonzeroDiagonal(DiagBlock(L, n, s))
    requires forall c :: 0 <= c < |cs| ==> |cs[c]| == n
    ensures |r| == |cs| && forall c :: 0 <= c < |cs| ==> r[c] == DiagSolve(L, s, cs[c])
  {
    seq(|cs|, c requires 0 <= c < |cs| => DiagSolve(L, s, cs[c]))
  }

  ghost function SweepEach(U: NCFormat, n: int, s: Super, cs: seq<seq<real>>): (r: seq<seq<real>>)
    requires SweepOk(U, n, s)
    requires forall c :: 0 <= c < |cs| ==> |cs[c]| == n
    ensures |r| == |cs| && forall c :: 0 <= c < |cs| ==> r[c] == SweepColumns(U, s, cs[c], s.fsupc + s.nsupc)
  {
    seq(|cs|, c requires 0 <= c < |cs| => SweepColumns(U, s, cs[c], s.fsupc + s.nsupc))
  }

  ghost function BackwardFromEach(L: SCFormat, U: NCFormat, n: int, k: int, cs: seq<seq<real>>): (r: seq<seq<real>>)
    requires Factors(L, U, n) && 0 <= k <= L.nsuper + 1
    requires forall c :: 0 <= c < |cs| ==> |cs[c]| == n
    ensures |r| == |cs| && forall c :: 0 <= c < |cs| ==> r[c] == BackwardFrom(L, U, k, cs[c])
  {
    seq(|cs|, c requires 0 <= c < |cs| => BackwardFrom(L, U, k, cs[c]))
  }

  /** dgstrs.c:278-298: the diagonal step of supernode s on every column. */
  method DiagSupernode(L: SCFormat, n: int, s: Super, b: array<real>, ldb: int, nrhs: int)
    requires SupernodeOk(L, n, s) && NonzeroDiagonal(DiagBlock(L, n, s))
    requires Layout(b.Length, ldb, n, nrhs)
    modifies b
    ensures Updated(b[..], old(b[..]), ldb, n, nrhs, nrhs, DiagEach(L, n, s, Columns(old(b[..]), ldb, n, nrhs)))
  {
    ghost var prev := b[..];
    ghost var want := DiagEach(L, n, s, Columns(prev, ldb, n, nrhs));
    var j := 0;
    while j < nrhs
      invariant 0 <= j <= nrhs
      invariant Updated(b[..], prev, ldb, n, nrhs, j, want)
    {
      DiagColumnOf(L, n, s, b, ldb, nrhs, j, prev, want);
      j := j + 1;
    }
  }

  /** One pass of the loop of DiagSupernode: column j. */
  method DiagColumnOf(L: SCFormat, n: int, s: Super, b: array<real>, ldb: int, nrhs: int, j: int,
                      ghost prev: seq<real>, ghost want: seq<seq<real>>)
    requires SupernodeOk(L, n, s) && NonzeroDiagonal(DiagBlock(L, n, s))
    requires Layout(b.Length, ldb, n, nrhs) && 0 <= j < nrhs
    requires Updated(b[..], prev, ldb, n, nrhs, j, want)
    requires want == DiagEach(L, n, s, Columns(prev, ldb, n, nrhs))
    modifies b
    ensures Updated(b[..], prev, ldb, n, nrhs, j + 1, want)
  {
    ColumnBounds(ldb, nrhs, j);
    ghost var pre := b[..];
    assert pre[j * ldb .. j * ldb + n] == Col(prev, ldb, n, nrhs, j);
    DiagColumn(L, n, s, b, j * ldb);
    UpdatedStep(pre, b[..], prev, ldb, n, nrhs, j, want);
  }

  /** dgstrs.c:300-308: the sweep of supernode s on every column, with the
      count of nrhs sweeps. */
  method SweepSupernode(U: NCFormat, n: int, s: Super, b: array<real>, ldb: int, nrhs: int, opsIn: int)
    returns (ops: int)
    requires SweepOk(U, n, s) && Layout(b.Length, ldb, n, nrhs)
    modifies b
    ensures Updated(b[..], old(b[..]), ldb, n, nrhs, nrhs, SweepEach(U, n, s, Columns(old(b[..]), ldb, n, nrhs)))
    ensures ops == opsIn + nrhs * SweepOps(U, s, s.fsupc + s.nsupc)
  {
    ghost var want := SweepEach(U, n, s, Columns(old(b[..]), ldb, n, nrhs));
    ops := opsIn;
    var j := 0;
    while j < nrhs
      invariant 0 <= j <= nrhs
      invariant Updated(b[..], old(b[..]), ldb, n, nrhs, j, want)
      invariant ops == opsIn + j * SweepOps(U, s, s.fsupc + s.nsupc)
    {
      ops := SweepColumnOf(U, n, s, b, ldb, nrhs, j, old(b[..]), want, ops);
      MulNext(j, SweepOps(U, s, s.fsupc + s.nsupc));
      j := j + 1;
    }
  }

  /** One pass of the loop of SweepSupernode: column j. */
  method SweepColumnOf(U: NCFormat, n: int, s: Super, b: array<real>, ldb: int, nrhs: int, j: int,
                       ghost prev: seq<real>, ghost want: seq<seq<real>>, opsIn: int)
    returns (ops: int)
    requires SweepOk(U, n, s) && Layout(b.Length, ldb, n, nrhs) && 0 <= j < nrhs
    requires Updated(b[..], prev, ldb, n, nrhs, j, want)
    requires want == SweepEach(U, n, s, Columns(prev, ldb, n, nrhs))
    modifies b
    ensures Updated(b[..], prev, ldb, n, nrhs, j + 1, want)
    ensures ops == opsIn + SweepOps(U, s, s.fsupc + s.nsupc)
  {
    ColumnBounds(ldb, nrhs, j);
    ghost var pre := b[..];
    assert pre[j * ldb .. j * ldb + n] == Col(prev, ldb, n, nrhs, j);
    ops := SweepSupernodeColumn(U, n, s, b, j * ldb, opsIn);
    UpdatedStep(pre, b[..], prev, ldb, n, nrhs, j, want);
  }

  /** Operations counted for the diagonal blocks of supernodes k .. nsuper
      (dgstrs.c:274) and for their sweeps (dgstrs.c:303). */
  function BackwardOps(L: SCFormat, U: NCFormat, n: int, nrhs: int, k: int): int
    requires Factors(L, U, n) && 0 <= k <= L.nsuper + 1
    decreases L.nsuper + 1 - k
  {
    if k == L.nsuper + 1 then 0
    else
      var s := Supernode(L, n, k);
      BackwardOps(L, U, n, nrhs, k + 1) + DiagOps(s.nsupc, nrhs) + nrhs * SweepOps(U, s, s.fsupc + s.nsupc)
  }

  lemma BackwardOpsStep(L: SCFormat, U: NCFormat, n: int, nrhs: int, k: int)
    requires Factors(L, U, n) && 0 <= k <= L.nsuper
    ensures var s := Supernode(L, n, k);
      SweepOk(U, n, s) &&
      BackwardOps(L, U, n, nrhs, k) == BackwardOps(L, U, n, nrhs, k + 1) + DiagOps(s.nsupc, nrhs) + nrhs * SweepOps(U, s, s.fsupc + s.nsupc)
  {
    SupernodeColumnsOk(U, L, n, k);
  }

  /** Operations counted for the diagonal block of a supernode (dgstrs.c:274). */
  function DiagOps(nsupc: int, nrhs: int): int
  {
    nsupc * (nsupc + 1) * nrhs
  }

  /** Applying supernode k to the columns after supernodes nsuper .. k+1 gives
      the columns after supernodes nsuper .. k. */
  lemma BackwardEachStep(L: SCFormat, U: NCFormat, n: int, k: int, cs: seq<seq<real>>)
    requires Factors(L, U, n) && 0 <= k <= L.nsuper
    requires forall c :: 0 <= c < |cs| ==> |cs[c]| == n
    ensures var s := Supernode(L, n, k);
      SweepOk(U, n, s) &&
      SweepEach(U, n, s, DiagEach(L, n, s, BackwardFromEach(L, U, n, k + 1, cs))) == BackwardFromEach(L, U, n, k, cs)
  {
    SupernodeColumnsOk(U, L, n, k);
    var s := Supernode(L, n, k);
    var before := BackwardFromEach(L, U, n, k + 1, cs);
    var mid := DiagEach(L, n, s, before);
    var lhs := SweepEach(U, n, s, mid);
    forall c | 0 <= c < |cs|
      ensures lhs[c] == BackwardFrom(L, U, k, cs[c])
    {
      SuperIs(L, U, k, s, before[c], mid[c], lhs[c]);
      FromStep(L, U, k, cs[c], before[c]);
    }
  }

  lemma SuperIs(L: SCFormat, U: NCFormat, k: int, s: Super, before: seq<real>, mid: seq<real>, after: seq<real>)
    requires Factors(L, U, |before|) && 0 <= k <= L.nsuper && s == Supernode(L, |before|, k) && SweepOk(U, |before|, s)
    requires mid == DiagSolve(L, s, before) && after == SweepColumns(U, s, mid, s.fsupc + s.nsupc)
    ensures after == BackwardSuper(L, U, k, before)
  {
  }

  /** The back substitution from supernode k is the step of k applied after
      the back substitution from k+1. */
  lemma FromStep(L: SCFormat, U: NCFormat, k: int, x: seq<real>, before: seq<real>)
    requires Factors(L, U, |x|) && 0 <= k <= L.nsuper && before == BackwardFrom(L, U, k + 1, x)
    ensures BackwardFrom(L, U, k, x) == BackwardSuper(L, U, k, before)
  {
  }

  /** dgstrs.c:267-311: the back substitution of every right-hand side column,
      with its operation count added to ops. */
  method BackwardSolveAll(L: SCFormat, U: NCFormat, n: int, b: array<real>, ldb: int, nrhs: int, opsIn: int)
    returns (ops: int)
    requires Factors(L, U, n) && Layout(b.Length, ldb, n, nrhs)
    modifies b
    ensures Updated(b[..], old(b[..]), ldb, n, nrhs, nrhs, BackwardFromEach(L, U, n, 0, Columns(old(b[..]), ldb, n, nrhs)))
    ensures ops == opsIn + BackwardOps(L, U, n, nrhs, 0)
  {
    ghost var b0 := b[..];
    ghost var cs0 := Columns(b0, ldb, n, nrhs);
    ops := opsIn;
    var k := L.nsuper;
    while k >= 0
      invariant -1 <= k <= L.nsuper
      invariant Updated(b[..], b0, ldb, n, nrhs, nrhs, BackwardFromEach(L, U, n, k + 1, cs0))
      invariant ops == opsIn + BackwardOps(L, U, n, nrhs, k + 1)
    {
      ops := BackwardSupernode(L, U, n, k, b, ldb, nrhs, b0, cs0, ops);
      BackwardOpsStep(L, U, n, nrhs, k);
      k := k - 1;
    }
  }

  /** dgstrs.c:268-309: one pass of the loop over supernodes, supernode k. */
  method BackwardSupernode(L: SCFormat, U: NCFormat, n: int, k: int, b: array<real>, ldb: int, nrhs: int,
                           ghost b0: seq<real>, ghost cs0: seq<seq<real>>, opsIn: int)
    returns (ops: int)
    requires Factors(L, U, n) && Layout(b.Length, ldb, n, nrhs) && 0 <= k <= L.nsuper
    requires |b0| == b.Length && cs0 == Columns(b0, ldb, n, nrhs)
    requires Updated(b[..], b0, ldb, n, nrhs, nrhs, BackwardFromEach(L, U, n, k + 1, cs0))
    modifies b
    ensures Updated(b[..], b0, ldb, n, nrhs, nrhs, BackwardFromEach(L, U, n, k, cs0))
    ensures ops == opsIn + DiagOps(Supernode(L, n, k).nsupc, nrhs) + nrhs * SweepOps(U, Supernode(L, n, k), Supernode(L, n, k).fsupc + Supernode(L, n, k).nsupc)
  {
    var s := Supernode(L, n, k);
    ops := opsIn + DiagOps(s.nsupc, nrhs);
    ghost var mid := b[..];
    UpdatedColumns(mid, b0, ldb, n, nrhs, BackwardFromEach(L, U, n, k + 1, cs0));
    DiagSupernode(L, n, s, b, ldb, nrhs);
    ghost var mid2 := b[..];
    SupernodeColumnsOk(U, L, n, k);
    UpdatedColumns(mid2, mid, ldb, n, nrhs, DiagEach(L, n, s, Columns(mid, ldb, n, nrhs)));
    ops := SweepSupernode(U, n, s, b, ldb, nrhs, ops);
    BackwardEachStep(L, U, n, k, cs0);
    UpdatedThen(mid, mid2, b[..], ldb, n, nrhs, DiagEach(L, n, s, Columns(mid, ldb, n, nrhs)), BackwardFromEach(L, U, n, k, cs0));
    UpdatedThen(b0, mid, b[..], ldb, n, nrhs, BackwardFromEach(L, U, n, k + 1, cs0), BackwardFromEach(L, U, n, k, cs0));
  }
}

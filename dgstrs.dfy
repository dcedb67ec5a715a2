/** dgstrs: solve A*X = B or A'*X = B with the factors of Pr*A*Pc = L*U
    (dgstrs.c:66-357). B is overwritten, column by column, with X. */
module TriangularSolve {
  import opened SuperMatrices
  import opened ColumnMajor
  import opened Supernodes
  import opened Forward
  import opened Backward
  import opened Permutations
  import opened Products
  import opened UpperProducts

  /** ASCII upper case, as the case-insensitive character test compares. */
  function Upper(c: char): char
  {
    if 'a' <= c <= 'z' then (c as int - 32) as char else c
  }

  /** superlu_lsame: the option character c names the letter ca, in either
      case. ca is always an upper-case letter here. */
  predicate Lsame(c: char, ca: char)
  {
    Upper(c) == ca
  }

  predicate TransOk(trans: char)
  {
    Lsame(trans, 'N') || Lsame(trans, 'T') || Lsame(trans, 'C')
  }

  /** The option test for an upper-case letter ca accepts exactly ca and its
      lower-case form. */
  lemma LsameLetter(c: char, ca: char)
    requires 'A' <= ca <= 'Z'
    ensures Lsame(c, ca) <==> c == ca || c as int == ca as int + 32
  {
  }

  /** dgstrs.c:148-149: the accepted values of trans are exactly N, T and C in
      either case; every other character is argument error -1. */
  lemma TransAccepts(c: char)
    ensures TransOk(c) <==> c in {'N', 'n', 'T', 't', 'C', 'c'}
    ensures Lsame(c, 'N') <==> c == 'N' || c == 'n'
  {
    LsameLetter(c, 'N');
    LsameLetter(c, 'T');
    LsameLetter(c, 'C');
  }

  /** The shape and type tags dgstrs demands of L. */
  predicate LOk(L: SuperMatrix<SCFormat>)
  {
    L.nrow == L.ncol && 0 <= L.nrow && L.stype == SC && L.dtype == D_D && L.mtype == TRLU
  }

  /** The shape and type tags dgstrs demands of U. */
  predicate UOk(U: SuperMatrix<NCFormat>)
  {
    U.nrow == U.ncol && 0 <= U.nrow && U.stype == NC && U.dtype == D_D && U.mtype == TRU
  }

  /** The leading dimension and type tags dgstrs demands of B, for n = L.nrow. */
  predicate BOk(B: SuperMatrix<DNFormat>, n: int)
  {
    B.store.lda >= (if n < 0 then 0 else n) && B.stype == DN && B.dtype == D_D && B.mtype == GE
  }

  /** dgstrs.c:144-164: the argument checks, in order; the first that fails
      names its argument (1 trans, 2 L, 3 U, 6 B). */
  function CheckArgs(trans: char, L: SuperMatrix<SCFormat>, U: SuperMatrix<NCFormat>, B: SuperMatrix<DNFormat>): (info: int)
    ensures info == 0 <==> TransOk(trans) && LOk(L) && UOk(U) && BOk(B, L.nrow)
    ensures info == -1 <==> !TransOk(trans)
    ensures info == -2 <==> TransOk(trans) && !LOk(L)
    ensures info == -3 <==> TransOk(trans) && LOk(L) && !UOk(U)
    ensures info == -6 <==> TransOk(trans) && LOk(L) && UOk(U) && !BOk(B, L.nrow)
  {
    if !TransOk(trans) then -1
    else if !LOk(L) then -2
    else if !UOk(U) then -3
    else if !BOk(B, L.nrow) then -6
    else 0
  }

  /** A triangular solve supplied for the transposed system (sp_dtrsv) keeps
      the length of the vector it overwrites. */
  ghost predicate LengthPreserving(f: seq<real> -> seq<real>)
  {
    forall x :: |f(x)| == |x|
  }

  /** What dgstrs takes for granted and does not check: the factors are well
      formed and nonsingular, perm_r and perm_c are permutations of 0 .. n-1,
      B holds B.ncol columns of stride lda, and the transposed solves keep
      lengths. */
  ghost predicate Solvable(L: SuperMatrix<SCFormat>, U: SuperMatrix<NCFormat>, permR: seq<int>, permC: seq<int>,
                     B: SuperMatrix<DNFormat>, utSolve: seq<real> -> seq<real>, ltSolve: seq<real> -> seq<real>)
  {
    Factors(L.store, U.store, L.nrow) &&
    IsPermutation(permR, L.nrow) && IsPermutation(permC, L.nrow) &&
    Layout(B.store.nzval.Length, B.store.lda, L.nrow, B.ncol) &&
    LengthPreserving(utSolve) && LengthPreserving(ltSolve)
  }

  /** One right-hand side of A*X = B (dgstrs.c:181-323): x := Pc * inv(U) *
      inv(L) * Pr * b. */
  function SolveColumn(L: SCFormat, U: NCFormat, permR: seq<int>, permC: seq<int>, x: seq<real>): (y: seq<real>)
    requires Factors(L, U, |x|) && IsPermutation(permR, |x|) && IsPermutation(permC, |x|)
    ensures |y| == |x|
  {
    Gather(permC, BackwardSolve(L, U, ForwardSolve(L, Scatter(permR, x))))
  }

  /** A x for the matrix A whose factors are Pr*A*Pc = L*U: x permuted by
      Pc, multiplied by U and then by L, and permuted back by Pr. */
  function ATimes(L: SCFormat, U: NCFormat, permR: seq<int>, permC: seq<int>, x: seq<real>): (y: seq<real>)
    requires Factors(L, U, |x|) && IsPermutation(permR, |x|) && IsPermutation(permC, |x|)
    ensures |y| == |x|
  {
    Gather(permR, LowerTimes(L, UpperTimes(L, U, Scatter(permC, x))))
  }

  /** The no-transpose solve of one column b gives an x with A x = b ... */
  lemma SolveColumnSolves(L: SCFormat, U: NCFormat, permR: seq<int>, permC: seq<int>, b: seq<real>)
    requires Factors(L, U, |b|) && IsPermutation(permR, |b|) && IsPermutation(permC, |b|)
    ensures ATimes(L, U, permR, permC, SolveColumn(L, U, permR, permC, b)) == b
  {
    var v := Scatter(permR, b);
    var z := ForwardSolve(L, v);
    var y := BackwardSolve(L, U, z);
    ScatterGather(permC, y);
    BackwardSolveSolves(L, U, z);
    ForwardSolveSolves(L, v);
    GatherScatter(permR, b);
  }

  /** ... and that x is the only one: solving A x gives x back. */
  lemma SolveColumnUnique(L: SCFormat, U: NCFormat, permR: seq<int>, permC: seq<int>, x: seq<real>)
    requires Factors(L, U, |x|) && IsPermutation(permR, |x|) && IsPermutation(permC, |x|)
    ensures SolveColumn(L, U, permR, permC, ATimes(L, U, permR, permC, x)) == x
  {
    var u := Scatter(permC, x);
    var z := UpperTimes(L, U, u);
    var v := LowerTimes(L, z);
    ScatterGather(permR, v);
    ForwardSolveUnique(L, z);
    BackwardSolveUnique(L, U, u);
    GatherScatter(permC, x);
  }

  /** Every column that the no-transpose solve leaves in B solves A x = b for
      the column of B it replaced. */
  lemma SolveEachSolves(L: SCFormat, U: NCFormat, permR: seq<int>, permC: seq<int>, n: int, cs: seq<seq<real>>)
    requires Factors(L, U, n) && IsPermutation(permR, n) && IsPermutation(permC, n)
    requires forall c :: 0 <= c < |cs| ==> |cs[c]| == n
    ensures var xs := SolveEach(L, U, permR, permC, n, cs);
      forall c :: 0 <= c < |cs| ==> |xs[c]| == n && ATimes(L, U, permR, permC, xs[c]) == cs[c]
  {
    var xs := SolveEach(L, U, permR, permC, n, cs);
    forall c | 0 <= c < |cs|
      ensures |xs[c]| == n && ATimes(L, U, permR, permC, xs[c]) == cs[c]
    {
      SolveColumnSolves(L, U, permR, permC, cs[c]);
    }
  }

  /** One right-hand side of A'*X = B (dgstrs.c:329-352): x := inv(Pr) *
      inv(L') * inv(U') * inv(Pc) * b, with the two transposed solves given. */
  function TransSolveColumn(permR: seq<int>, permC: seq<int>, utSolve: seq<real> -> seq<real>,
                            ltSolve: seq<real> -> seq<real>, x: seq<real>): (y: seq<real>)
    requires IsPermutation(permR, |x|) && IsPermutation(permC, |x|)
    requires LengthPreserving(utSolve) && LengthPreserving(ltSolve)
    ensures |y| == |x|
  {
    Gather(permR, ltSolve(utSolve(Scatter(permC, x))))
  }

  ghost function SolveEach(L: SCFormat, U: NCFormat, permR: seq<int>, permC: seq<int>, n: int, cs: seq<seq<real>>): (r: seq<seq<real>>)
    requires Factors(L, U, n) && IsPermutation(permR, n) && IsPermutation(permC, n)
    requires forall c :: 0 <= c < |cs| ==> |cs[c]| == n
    ensures |r| == |cs| && forall c :: 0 <= c < |cs| ==> r[c] == SolveColumn(L, U, permR, permC, cs[c])
  {
    seq(|cs|, c requires 0 <= c < |cs| => SolveColumn(L, U, permR, permC, cs[c]))
  }

  ghost function TransSolveEach(permR: seq<int>, permC: seq<int>, utSolve: seq<real> -> seq<real>,
                                ltSolve: seq<real> -> seq<real>, n: int, cs: seq<seq<real>>): (r: seq<seq<real>>)
    requires IsPermutation(permR, n) && IsPermutation(permC, n)
    requires LengthPreserving(utSolve) && LengthPreserving(ltSolve)
    requires forall c :: 0 <= c < |cs| ==> |cs[c]| == n
    ensures |r| == |cs| && forall c :: 0 <= c < |cs| ==> r[c] == TransSolveColumn(permR, permC, utSolve, ltSolve, cs[c])
  {
    seq(|cs|, c requires 0 <= c < |cs| => TransSolveColumn(permR, permC, utSolve, ltSolve, cs[c]))
  }

  /** The four passes of the no-transpose path, column by column, compose to
      SolveColumn. */
  lemma SolvePasses(L: SCFormat, U: NCFormat, permR: seq<int>, permC: seq<int>, n: int, cs: seq<seq<real>>)
    requires Factors(L, U, n) && IsPermutation(permR, n) && IsPermutation(permC, n)
    requires forall c :: 0 <= c < |cs| ==> |cs[c]| == n
    ensures GatherEach(permC, n, BackwardFromEach(L, U, n, 0, ForwardUpToEach(L, n, L.nsuper + 1, ScatterEach(permR, n, cs))))
         == SolveEach(L, U, permR, permC, n, cs)
  {
  }

  /** The three passes of the transpose path compose to TransSolveColumn. */
  lemma TransSolvePasses(permR: seq<int>, permC: seq<int>, utSolve: seq<real> -> seq<real>,
                         ltSolve: seq<real> -> seq<real>, n: int, cs: seq<seq<real>>)
    requires IsPermutation(permR, n) && IsPermutation(permC, n)
    requires LengthPreserving(utSolve) && LengthPreserving(ltSolve)
    requires forall c :: 0 <= c < |cs| ==> |cs[c]| == n
    ensures GatherEach(permR, n, TransEach(utSolve, ltSolve, n, ScatterEach(permC, n, cs)))
         == TransSolveEach(permR, permC, utSolve, ltSolve, n, cs)
  {
  }

  ghost function TransEach(utSolve: seq<real> -> seq<real>, ltSolve: seq<real> -> seq<real>, n: int, cs: seq<seq<real>>): (r: seq<seq<real>>)
    requires LengthPreserving(utSolve) && LengthPreserving(ltSolve)
    requires forall c :: 0 <= c < |cs| ==> |cs[c]| == n
    ensures |r| == |cs| && forall c :: 0 <= c < |cs| ==> r[c] == ltSolve(utSolve(cs[c])) && |r[c]| == n
  {
    seq(|cs|, c requires 0 <= c < |cs| => ltSolve(utSolve(cs[c])))
  }

  /** What the transposed solves add to the solve count, column by column:
      utOps of the column and ltOps of what inv(U') made of it. */
  ghost function TransOps(utSolve: seq<real> -> seq<real>, utOps: seq<real> -> int,
                          ltOps: seq<real> -> int, cs: seq<seq<real>>): int
  {
    if |cs| == 0 then 0
    else TransOps(utSolve, utOps, ltOps, cs[..|cs| - 1]) + utOps(cs[|cs| - 1]) + ltOps(utSolve(cs[|cs| - 1]))
  }

  /** The transposed solve count is additive over the right-hand sides: solving
      the columns of cs1 and then those of cs2 adds what each part adds. */
  lemma {:induction false} TransOpsAppend(utSolve: seq<real> -> seq<real>, utOps: seq<real> -> int,
                                          ltOps: seq<real> -> int, cs1: seq<seq<real>>, cs2: seq<seq<real>>)
    ensures TransOps(utSolve, utOps, ltOps, cs1 + cs2)
         == TransOps(utSolve, utOps, ltOps, cs1) + TransOps(utSolve, utOps, ltOps, cs2)
    decreases |cs2|
  {
    if |cs2| == 0 {
      assert cs1 + cs2 == cs1;
    } else {
      var cs := cs1 + cs2;
      assert cs[..|cs| - 1] == cs1 + cs2[..|cs2| - 1];
      TransOpsAppend(utSolve, utOps, ltOps, cs1, cs2[..|cs2| - 1]);
    }
  }

  /** sp_dtrsv on one column: the column at b[off .. off+n) is replaced by f
      of itself, and the solve count grows by fOps of the column. */
  method ApplyColumn(f: seq<real> -> seq<real>, fOps: seq<real> -> int, b: array<real>, off: int, n: int,
                     stat: SuperLUStat)
    requires LengthPreserving(f) && 0 <= off && 0 <= n && off + n <= b.Length
    modifies b, stat
    ensures b[off .. off + n] == f(old(b[off .. off + n]))
    ensures SameOutside(b[..], old(b[..]), off, n)
    ensures stat.solveOps == old(stat.solveOps) + fOps(old(b[off .. off + n]))
  {
    var y := f(b[off .. off + n]);
    stat.solveOps := stat.solveOps + fOps(b[off .. off + n]);
    CopyBack(b, off, y);
  }

  /** dgstrs.c:337-345: every column goes through inv(U') and then inv(L'). */
  method TransposeSolves(utSolve: seq<real> -> seq<real>, ltSolve: seq<real> -> seq<real>,
                         utOps: seq<real> -> int, ltOps: seq<real> -> int,
                         b: array<real>, ldb: int, n: int, nrhs: int, stat: SuperLUStat)
    requires LengthPreserving(utSolve) && LengthPreserving(ltSolve) && Layout(b.Length, ldb, n, nrhs)
    modifies b, stat
    ensures Updated(b[..], old(b[..]), ldb, n, nrhs, nrhs, TransEach(utSolve, ltSolve, n, Columns(old(b[..]), ldb, n, nrhs)))
    ensures stat.solveOps == old(stat.solveOps) + TransOps(utSolve, utOps, ltOps, Columns(old(b[..]), ldb, n, nrhs))
  {
    ghost var prev := b[..];
    ghost var cs := Columns(prev, ldb, n, nrhs);
    ghost var want := TransEach(utSolve, ltSolve, n, cs);
    ghost var ops0 := stat.solveOps;
    var k := 0;
    while k < nrhs
      invariant 0 <= k <= nrhs
      invariant Updated(b[..], prev, ldb, n, nrhs, k, want)
      invariant stat.solveOps == ops0 + TransOps(utSolve, utOps, ltOps, cs[..k])
    {
      ColumnBounds(ldb, nrhs, k);
      ghost var pre := b[..];
      assert pre[k * ldb .. k * ldb + n] == Col(prev, ldb, n, nrhs, k) == cs[k];
      ApplyColumn(utSolve, utOps, b, k * ldb, n, stat);
      ghost var mid := b[..];
      ApplyColumn(ltSolve, ltOps, b, k * ldb, n, stat);
      assert SameOutside(b[..], pre, k * ldb, n) by {
        assert SameOutside(mid, pre, k * ldb, n);
      }
      UpdatedStep(pre, b[..], prev, ldb, n, nrhs, k, want);
      assert cs[..k + 1][..k] == cs[..k];
      k := k + 1;
    }
    assert cs[..nrhs] == cs;
  }

  /** dgstrs.c:180-325: Pr*B, forward solve with L, backward solve with U,
      Pc*X, with the operation count of the two triangular solves. */
  method SolveNoTranspose(L: SCFormat, U: NCFormat, permR: seq<int>, permC: seq<int>,
                          b: array<real>, ldb: int, n: int, nrhs: int, work: array<real>, soln: array<real>)
    returns (ops: int)
    requires Factors(L, U, n) && IsPermutation(permR, n) && IsPermutation(permC, n)
    requires Layout(b.Length, ldb, n, nrhs)
    requires work.Length == n * nrhs && Zeros(work[..]) && soln.Length == n
    requires b != work && b != soln && work != soln
    modifies b, work, soln
    ensures Updated(b[..], old(b[..]), ldb, n, nrhs, nrhs, SolveEach(L, U, permR, permC, n, Columns(old(b[..]), ldb, n, nrhs)))
    ensures ops == ForwardOps(L, n, nrhs, L.nsuper + 1) + BackwardOps(L, U, n, nrhs, 0)
  {
    ghost var b0 := b[..];
    ghost var cs0 := Columns(b0, ldb, n, nrhs);
    ghost var w1 := ScatterEach(permR, n, cs0);
    ghost var w2 := ForwardUpToEach(L, n, L.nsuper + 1, w1);
    ghost var w3 := BackwardFromEach(L, U, n, 0, w2);
    ScatterRows(permR, b, ldb, n, nrhs, soln);
    ghost var b1 := b[..];
    UpdatedColumns(b1, b0, ldb, n, nrhs, w1);
    if nrhs > 0 {
      MulMonotone(1, nrhs, n);
    }
    ops := ForwardSolveAll(L, n, b, ldb, nrhs, work, 0);
    ghost var b2 := b[..];
    UpdatedThen(b0, b1, b2, ldb, n, nrhs, w1, w2);
    UpdatedColumns(b2, b0, ldb, n, nrhs, w2);
    ops := BackwardSolveAll(L, U, n, b, ldb, nrhs, ops);
    ghost var b3 := b[..];
    UpdatedThen(b0, b2, b3, ldb, n, nrhs, w2, w3);
    UpdatedColumns(b3, b0, ldb, n, nrhs, w3);
    GatherRows(permC, b, ldb, n, nrhs, soln);
    UpdatedThen(b0, b3, b[..], ldb, n, nrhs, w3, GatherEach(permC, n, w3));
    SolvePasses(L, U, permR, permC, n, cs0);
  }

  /** dgstrs.c:327-352: inv(Pc)*B, the two transposed solves, inv(Pr)*X. */
  method SolveTranspose(permR: seq<int>, permC: seq<int>, utSolve: seq<real> -> seq<real>, ltSolve: seq<real> -> seq<real>,
                        utOps: seq<real> -> int, ltOps: seq<real> -> int,
                        b: array<real>, ldb: int, n: int, nrhs: int, soln: array<real>, stat: SuperLUStat)
    requires IsPermutation(permR, n) && IsPermutation(permC, n)
    requires LengthPreserving(utSolve) && LengthPreserving(ltSolve)
    requires Layout(b.Length, ldb, n, nrhs) && soln.Length == n && b != soln
    modifies b, soln, stat
    ensures Updated(b[..], old(b[..]), ldb, n, nrhs, nrhs, TransSolveEach(permR, permC, utSolve, ltSolve, n, Columns(old(b[..]), ldb, n, nrhs)))
    ensures stat.solveOps == old(stat.solveOps) + TransOps(utSolve, utOps, ltOps, ScatterEach(permC, n, Columns(old(b[..]), ldb, n, nrhs)))
  {
    ghost var b0 := b[..];
    ghost var cs0 := Columns(b0, ldb, n, nrhs);
    ghost var w1 := ScatterEach(permC, n, cs0);
    ghost var w2 := TransEach(utSolve, ltSolve, n, w1);
    ScatterRows(permC, b, ldb, n, nrhs, soln);
    ghost var b1 := b[..];
    UpdatedColumns(b1, b0, ldb, n, nrhs, w1);
    TransposeSolves(utSolve, ltSolve, utOps, ltOps, b, ldb, n, nrhs, stat);
    ghost var b2 := b[..];
    UpdatedThen(b0, b1, b2, ldb, n, nrhs, w1, w2);
    UpdatedColumns(b2, b0, ldb, n, nrhs, w2);
    GatherRows(permR, b, ldb, n, nrhs, soln);
    UpdatedThen(b0, b2, b[..], ldb, n, nrhs, w2, GatherEach(permR, n, w2));
    TransSolvePasses(permR, permC, utSolve, ltSolve, n, cs0);
  }

  /** dgstrs: check the arguments, returning their error code and touching
      nothing when one is bad; otherwise overwrite every column of B with its
      solution and publish the operation count of the no-transpose solve. The
      transposed path resets the count and leaves what its sp_dtrsv calls add
      (utOps, ltOps per column). */
  method Dgstrs(trans: char, L: SuperMatrix<SCFormat>, U: SuperMatrix<NCFormat>, permR: seq<int>, permC: seq<int>,
                B: SuperMatrix<DNFormat>, stat: SuperLUStat,
                utSolve: seq<real> -> seq<real>, ltSolve: seq<real> -> seq<real>,
                utOps: seq<real> -> int, ltOps: seq<real> -> int)
    returns (info: int)
    requires CheckArgs(trans, L, U, B) == 0 ==> Solvable(L, U, permR, permC, B, utSolve, ltSolve)
    modifies B.store.nzval, stat
    ensures info == CheckArgs(trans, L, U, B)
    ensures info != 0 ==> unchanged(B.store.nzval) && unchanged(stat)
    ensures info == 0 && Lsame(trans, 'N') ==>
      Updated(B.store.nzval[..], old(B.store.nzval[..]), B.store.lda, L.nrow, B.ncol, B.ncol,
              SolveEach(L.store, U.store, permR, permC, L.nrow, Columns(old(B.store.nzval[..]), B.store.lda, L.nrow, B.ncol))) &&
      stat.solveOps == ForwardOps(L.store, L.nrow, B.ncol, L.store.nsuper + 1) + BackwardOps(L.store, U.store, L.nrow, B.ncol, 0)
    ensures info == 0 && !Lsame(trans, 'N') ==>
      Updated(B.store.nzval[..], old(B.store.nzval[..]), B.store.lda, L.nrow, B.ncol, B.ncol,
              TransSolveEach(permR, permC, utSolve, ltSolve, L.nrow, Columns(old(B.store.nzval[..]), B.store.lda, L.nrow, B.ncol))) &&
      stat.solveOps == TransOps(utSolve, utOps, ltOps, ScatterEach(permC, L.nrow, Columns(old(B.store.nzval[..]), B.store.lda, L.nrow, B.ncol)))
  {
    info := CheckArgs(trans, L, U, B);
    if info != 0 {
      return;
    }
    var n := L.nrow;
    var nrhs := B.ncol;
    var work := new real[n * nrhs](_ => 0.0);
    var soln := new real[n];
    if Lsame(trans, 'N') {
      var ops := SolveNoTranspose(L.store, U.store, permR, permC, B.store.nzval, B.store.lda, n, nrhs, work, soln);
      stat.solveOps := ops;
    } else {
      stat.solveOps := 0;
      SolveTranspose(permR, permC, utSolve, ltSolve, utOps, ltOps, B.store.nzval, B.store.lda, n, nrhs, soln, stat);
    }
  }
}

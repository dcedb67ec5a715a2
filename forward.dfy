/** The forward substitution L y = Pr b of the no-transpose solve
    (dgstrs.c:187-257): supernodes in ascending order, a scalar scatter for a
    singleton supernode and a block solve plus panel product for a wider one. */
module Forward {
  import opened ColumnMajor
  import opened DenseKernels
  import opened SuperMatrices
  import opened Supernodes

  /** Some below-diagonal subscript of the supernode names row r. */
  ghost predicate InPanel(L: SCFormat, s: Super, r: int)
  {
    exists p :: s.istart + s.nsupc <= p < s.istart + s.nsupr && 0 <= p < |L.rowind| && L.rowind[p] == r
  }

  // ---------------------------------------------------------------------------
  // Singleton supernode

  /** dgstrs.c:202-206 on one column x, run for iptr below upto: every
      below-diagonal subscript row loses x[fsupc] times its L entry. */
  function ScalarScatter(L: SCFormat, s: Super, x: seq<real>, upto: int): (y: seq<real>)
    requires SingletonOk(L, |x|, s)
    requires s.istart + 1 <= upto <= s.istart + s.nsupr
    ensures |y| == |x|
    decreases upto
  {
    if upto == s.istart + 1 then x
    else
      var z := ScalarScatter(L, s, x, upto - 1);
      var irow := L.rowind[upto - 1];
      z[irow := Eliminate(z[irow], z[s.fsupc], L.nzval[s.luptr + (upto - 1 - s.istart)])]
  }

  /** The singleton's own row is read but never changed or divided (L has a
      unit diagonal); each panel row r = L_SUB(p) loses x[fsupc] * Lval[luptr + p - istart];
      every other row keeps its value. */
  lemma {:induction false} ScalarScatterEffect(L: SCFormat, s: Super, x: seq<real>, upto: int)
    requires SingletonOk(L, |x|, s)
    requires s.istart + 1 <= upto <= s.istart + s.nsupr
    ensures var y := ScalarScatter(L, s, x, upto);
      y[s.fsupc] == x[s.fsupc] &&
      (forall p :: s.istart + 1 <= p < upto ==>
         y[L.rowind[p]] == x[L.rowind[p]] - x[s.fsupc] * L.nzval[s.luptr + (p - s.istart)]) &&
      (forall r :: 0 <= r < |x| && (forall p :: s.istart + 1 <= p < upto ==> L.rowind[p] != r) ==> y[r] == x[r])
    decreases upto
  {
    if upto > s.istart + 1 {
      ScalarScatterEffect(L, s, x, upto - 1);
      var z := ScalarScatter(L, s, x, upto - 1);
      var irow := L.rowind[upto - 1];
      assert forall p :: s.istart + 1 <= p < upto - 1 ==> L.rowind[p] != irow;
    }
  }

  /** One more iteration of dgstrs.c:202-206 updates one row. */
  lemma {:induction false} ScalarScatterStep(L: SCFormat, s: Super, x: seq<real>, iptr: int, z: seq<real>)
    requires SingletonOk(L, |x|, s)
    requires s.istart + 1 <= iptr < s.istart + s.nsupr
    requires z == ScalarScatter(L, s, x, iptr)
    ensures s.fsupc < L.rowind[iptr] < |x| && 0 <= s.luptr + (iptr - s.istart) < |L.nzval|
    ensures ScalarScatter(L, s, x, iptr + 1) ==
      z[L.rowind[iptr] := Eliminate(z[L.rowind[iptr]], z[s.fsupc], L.nzval[s.luptr + (iptr - s.istart)])]
  {
  }

  /** dgstrs.c:200-206: the singleton update of the column stored at b[off .. off+n). */
  method ScalarScatterColumn(L: SCFormat, n: int, s: Super, b: array<real>, off: int)
    requires SingletonOk(L, n, s) && 0 <= off && off + n <= b.Length
    modifies b
    ensures b[off .. off + n] == ScalarScatter(L, s, old(b[off .. off + n]), s.istart + s.nsupr)
    ensures SameOutside(b[..], old(b[..]), off, n)
  {
    ghost var x := b[off .. off + n];
    var luptr := s.luptr;
    var iptr := s.istart + 1;
    while iptr < s.istart + s.nsupr
      invariant s.istart + 1 <= iptr <= s.istart + s.nsupr
      invariant luptr == s.luptr + (iptr - 1 - s.istart)
      invariant b[off .. off + n] == ScalarScatter(L, s, x, iptr)
      invariant SameOutside(b[..], old(b[..]), off, n)
    {
      var irow := L.rowind[iptr];
      luptr := luptr + 1;
      ghost var pre := b[..];
      assert pre[off + s.fsupc] == pre[off .. off + n][s.fsupc];
      assert pre[off + irow] == pre[off .. off + n][irow];
      b[off + irow] := Eliminate(b[off + irow], b[off + s.fsupc], L.nzval[luptr]);
      SliceAssign(pre, b[..], off, n, irow, Eliminate(pre[off + irow], pre[off + s.fsupc], L.nzval[luptr]));
      ScalarScatterStep(L, s, x, iptr, pre[off .. off + n]);
      iptr := iptr + 1;
    }
  }

  // ---------------------------------------------------------------------------
  // Wider supernode

  /** dgstrs.c:247-253 on one column x, run for i below upto: panel row
      L_SUB(istart + nsupc + i) loses w[i]. */
  function PanelScatter(L: SCFormat, s: Super, x: seq<real>, w: seq<real>, upto: int): (y: seq<real>)
    requires SubscriptsOk(L, |x|, s) && |w| == s.NRow() && 0 <= upto <= s.NRow()
    ensures |y| == |x|
    decreases upto
  {
    if upto == 0 then x
    else
      var z := PanelScatter(L, s, x, w, upto - 1);
      var irow := L.rowind[s.istart + s.nsupc + upto - 1];
      z[irow := z[irow] - w[upto - 1]]
  }

  /** Each panel row is decremented by its own entry of w exactly once; rows
      outside the panel, the supernode's own rows among them, keep their value. */
  lemma {:induction false} PanelScatterEffect(L: SCFormat, s: Super, x: seq<real>, w: seq<real>, upto: int)
    requires SubscriptsOk(L, |x|, s) && |w| == s.NRow() && 0 <= upto <= s.NRow()
    ensures var y := PanelScatter(L, s, x, w, upto);
      (forall p :: s.istart + s.nsupc <= p < s.istart + s.nsupc + upto ==>
         y[L.rowind[p]] == x[L.rowind[p]] - w[p - s.istart - s.nsupc]) &&
      (forall r :: 0 <= r < |x| && (forall p :: s.istart + s.nsupc <= p < s.istart + s.nsupc + upto ==> L.rowind[p] != r) ==>
         y[r] == x[r])
    decreases upto
  {
    if upto > 0 {
      PanelScatterEffect(L, s, x, w, upto - 1);
    }
  }

  /** One more iteration of dgstrs.c:247-253 updates one panel row. */
  lemma PanelScatterStep(L: SCFormat, s: Super, x: seq<real>, w: seq<real>, i: int, z: seq<real>)
    requires SubscriptsOk(L, |x|, s) && |w| == s.NRow() && 0 <= i < s.NRow()
    requires z == PanelScatter(L, s, x, w, i)
    ensures s.fsupc + s.nsupc <= L.rowind[s.istart + s.nsupc + i] < |x|
    ensures PanelScatter(L, s, x, w, i + 1) ==
      z[L.rowind[s.istart + s.nsupc + i] := z[L.rowind[s.istart + s.nsupc + i]] - w[i]]
  {
  }

  /** The same iteration on the column stored at off in the whole buffer. */
  lemma ScatterSlice(L: SCFormat, s: Super, x: seq<real>, w: seq<real>, i: int, off: int, pre: seq<real>, post: seq<real>)
    requires SubscriptsOk(L, |x|, s) && |w| == s.NRow() && 0 <= i < s.NRow()
    requires 0 <= off && off + |x| <= |pre| && pre[off .. off + |x|] == PanelScatter(L, s, x, w, i)
    requires var irow := L.rowind[s.istart + s.nsupc + i];
      0 <= irow < |x| && post == pre[off + irow := pre[off + irow] - w[i]]
    ensures post[off .. off + |x|] == PanelScatter(L, s, x, w, i + 1)
    ensures SameOutside(post, pre, off, |x|)
  {
    var irow := L.rowind[s.istart + s.nsupc + i];
    PanelScatterStep(L, s, x, w, i, pre[off .. off + |x|]);
    assert pre[off + irow] == pre[off .. off + |x|][irow];
    SliceAssign(pre, post, off, |x|, irow, pre[off + irow] - w[i]);
  }

  /** Forward step for a supernode of nsupc > 1 columns on one column x
      (dgstrs.c:243-253): solve the unit lower diagonal block for the
      supernode's rows, form the panel product and scatter-subtract it. */
  function BlockForward(L: SCFormat, s: Super, x: seq<real>): (y: seq<real>)
    requires SupernodeOk(L, |x|, s)
    ensures |y| == |x|
  {
    var seg := LowerUnitSolution(DiagBlock(L, |x|, s), x[s.fsupc .. s.fsupc + s.nsupc]);
    var x1 := Splice(x, s.fsupc, seg);
    PanelScatter(L, s, x1, MatVec(PanelBlock(L, |x|, s), seg), s.NRow())
  }

  lemma BlockForwardParts(L: SCFormat, s: Super, x: seq<real>, seg: seq<real>, w: seq<real>)
    requires SupernodeOk(L, |x|, s)
    requires seg == LowerUnitSolution(DiagBlock(L, |x|, s), x[s.fsupc .. s.fsupc + s.nsupc])
    requires w == MatVec(PanelBlock(L, |x|, s), seg)
    ensures BlockForward(L, s, x) == PanelScatter(L, s, Splice(x, s.fsupc, seg), w, s.NRow())
  {
    var m := DiagBlock(L, |x|, s);
    assert seg == LowerUnitSolution(m, x[s.fsupc .. s.fsupc + s.nsupc]);
  }

  /** The wide step leaves the supernode's rows holding the solution of its unit
      lower diagonal block, takes row i of the panel times that solution off
      panel row L_SUB(istart + nsupc + i), and keeps every other row. */
  lemma BlockForwardEffect(L: SCFormat, s: Super, x: seq<real>)
    requires SupernodeOk(L, |x|, s)
    ensures var seg := LowerUnitSolution(DiagBlock(L, |x|, s), x[s.fsupc .. s.fsupc + s.nsupc]);
      var y := BlockForward(L, s, x);
      y[s.fsupc .. s.fsupc + s.nsupc] == seg &&
      (forall p :: s.istart + s.nsupc <= p < s.istart + s.nsupr ==>
         y[L.rowind[p]] == x[L.rowind[p]] - RowDot(PanelBlock(L, |x|, s), p - s.istart - s.nsupc, seg, 0, s.nsupc)) &&
      (forall r :: 0 <= r < |x| && !(s.fsupc <= r < s.fsupc + s.nsupc) && !InPanel(L, s, r) ==> y[r] == x[r])
  {
    var seg := LowerUnitSolution(DiagBlock(L, |x|, s), x[s.fsupc .. s.fsupc + s.nsupc]);
    var w := MatVec(PanelBlock(L, |x|, s), seg);
    BlockForwardParts(L, s, x, seg, w);
    PanelScatterKeeps(L, s, x, seg, w, BlockForward(L, s, x));
    PanelScatterRows(L, s, x, seg, w, BlockForward(L, s, x));
  }

  /** The scatter leaves the spliced-in segment and every row outside the panel alone. */
  lemma PanelScatterKeeps(L: SCFormat, s: Super, x: seq<real>, seg: seq<real>, w: seq<real>, y: seq<real>)
    requires SubscriptsOk(L, |x|, s) && |seg| == s.nsupc && |w| == s.NRow()
    requires y == PanelScatter(L, s, Splice(x, s.fsupc, seg), w, s.NRow())
    ensures y[s.fsupc .. s.fsupc + s.nsupc] == seg
    ensures forall r :: 0 <= r < |x| && !(s.fsupc <= r < s.fsupc + s.nsupc) && !InPanel(L, s, r) ==> y[r] == x[r]
  {
    var x1 := Splice(x, s.fsupc, seg);
    PanelScatterEffect(L, s, x1, w, s.NRow());
    assert forall r :: s.fsupc <= r < s.fsupc + s.nsupc ==> y[r] == x1[r];
  }

  /** The scatter takes row i of the panel product off panel row L_SUB(istart + nsupc + i). */
  lemma PanelScatterRows(L: SCFormat, s: Super, x: seq<real>, seg: seq<real>, w: seq<real>, y: seq<real>)
    requires SupernodeOk(L, |x|, s) && |seg| == s.nsupc && w == MatVec(PanelBlock(L, |x|, s), seg)
    requires y == PanelScatter(L, s, Splice(x, s.fsupc, seg), w, s.NRow())
    ensures forall p :: s.istart + s.nsupc <= p < s.istart + s.nsupr ==>
      y[L.rowind[p]] == x[L.rowind[p]] - RowDot(PanelBlock(L, |x|, s), p - s.istart - s.nsupc, seg, 0, s.nsupc)
  {
    var x1 := Splice(x, s.fsupc, seg);
    PanelScatterEffect(L, s, x1, w, s.NRow());
  }

  /** dgstrs.c:247-253: scatter-subtract the panel product held in work into
      the panel rows of the column at b[off .. off+n), zeroing each work entry
      as it is used. */
  method ScatterWork(L: SCFormat, n: int, s: Super, b: array<real>, off: int, work: array<real>, ghost w: seq<real>)
    requires SubscriptsOk(L, n, s) && 0 <= off && off + n <= b.Length
    requires b != work && s.NRow() <= work.Length && |w| == s.NRow()
    requires forall i :: 0 <= i < s.NRow() ==> work[i] == w[i]
    requires forall t :: s.NRow() <= t < work.Length ==> work[t] == 0.0
    modifies b, work
    ensures b[off .. off + n] == PanelScatter(L, s, old(b[off .. off + n]), w, s.NRow())
    ensures SameOutside(b[..], old(b[..]), off, n)
    ensures Zeros(work[..])
  {
    ghost var x := b[off .. off + n];
    var iptr := s.istart + s.nsupc;
    var i := 0;
    while i < s.NRow()
      invariant 0 <= i <= s.NRow() && iptr == s.istart + s.nsupc + i
      invariant b[off .. off + n] == PanelScatter(L, s, x, w, i)
      invariant SameOutside(b[..], old(b[..]), off, n)
      invariant forall t :: 0 <= t < i ==> work[t] == 0.0
      invariant forall t :: i <= t < s.NRow() ==> work[t] == w[t]
      invariant forall t :: s.NRow() <= t < work.Length ==> work[t] == 0.0
    {
      ghost var pre := b[..];
      ScatterEntry(L, n, s, b, off, work, i, iptr, x, w);
      SameOutsideThen(old(b[..]), pre, b[..], off, n);
      iptr := iptr + 1;
      i := i + 1;
    }
  }

  /** One iteration of dgstrs.c:249-252: panel row L_SUB(iptr) loses work[i],
      and work[i] is cleared. */
  method ScatterEntry(L: SCFormat, n: int, s: Super, b: array<real>, off: int, work: array<real>, i: int, iptr: int,
                      ghost x: seq<real>, ghost w: seq<real>)
    requires SubscriptsOk(L, n, s) && 0 <= off && off + n <= b.Length && |x| == n
    requires b != work && s.NRow() <= work.Length && |w| == s.NRow()
    requires 0 <= i < s.NRow() && iptr == s.istart + s.nsupc + i && work[i] == w[i]
    requires b[off .. off + n] == PanelScatter(L, s, x, w, i)
    modifies b, work
    ensures b[off .. off + n] == PanelScatter(L, s, x, w, i + 1)
    ensures SameOutside(b[..], old(b[..]), off, n)
    ensures work[..] == old(work[..])[i := 0.0]
  {
    var irow := L.rowind[iptr];
    ghost var pre := b[..];
    PanelScatterStep(L, s, x, w, i, pre[off .. off + n]);
    b[off + irow] := b[off + irow] - work[i];
    ScatterSlice(L, s, x, w, i, off, pre, b[..]);
    work[i] := 0.0;
  }

  /** dgstrs.c:242-253 for the column stored at b[off .. off+n): block solve
      (sludlsolve), panel product into work (sludmatvec), then the scatter.
      Work is all zero before and after. */
  method PanelUpdateColumn(L: SCFormat, n: int, s: Super, b: array<real>, off: int, work: array<real>)
    requires SupernodeOk(L, n, s) && 0 <= off && off + n <= b.Length
    requires b != work && s.NRow() <= work.Length && Zeros(work[..])
    modifies b, work
    ensures b[off .. off + n] == BlockForward(L, s, old(b[off .. off + n]))
    ensures SameOutside(b[..], old(b[..]), off, n)
    ensures Zeros(work[..])
  {
    ghost var x := b[off .. off + n];
    ghost var seg := LowerUnitSolution(DiagBlock(L, n, s), x[s.fsupc .. s.fsupc + s.nsupc]);
    SolveSegment(L, n, s, b, off);
    ghost var mid := b[..];
    SliceOfSlice(mid, off, n, s.fsupc, s.nsupc);
    ProductAndScatter(L, n, s, b, off, work, seg);
    SameOutsideThen(old(b[..]), mid, b[..], off, n);
    BlockForwardParts(L, s, x, seg, MatVec(PanelBlock(L, n, s), seg));
  }

  /** dgstrs.c:245-253: with the supernode's rows already solved to seg, form
      the panel product in work (sludmatvec) and scatter-subtract it. */
  method ProductAndScatter(L: SCFormat, n: int, s: Super, b: array<real>, off: int, work: array<real>, ghost seg: seq<real>)
    requires SupernodeOk(L, n, s) && 0 <= off && off + n <= b.Length
    requires b != work && s.NRow() <= work.Length && Zeros(work[..])
    requires |seg| == s.nsupc && b[off + s.fsupc .. off + s.fsupc + s.nsupc] == seg
    modifies b, work
    ensures b[off .. off + n] == PanelScatter(L, s, old(b[off .. off + n]), MatVec(PanelBlock(L, n, s), seg), s.NRow())
    ensures SameOutside(b[..], old(b[..]), off, n)
    ensures Zeros(work[..])
  {
    MatVecAccumulate(PanelBlock(L, n, s), b, off + s.fsupc, work);
    ghost var w := MatVec(PanelBlock(L, n, s), seg);
    assert forall i :: 0 <= i < s.NRow() ==> work[i] == w[i];
    assert forall t :: s.NRow() <= t < work.Length ==> work[t] == 0.0;
    ScatterWork(L, n, s, b, off, work, w);
  }

  /** dgstrs.c:243-244: the unit lower solve of the supernode's rows in place. */
  method SolveSegment(L: SCFormat, n: int, s: Super, b: array<real>, off: int)
    requires SupernodeOk(L, n, s) && 0 <= off && off + n <= b.Length
    modifies b
    ensures var x := old(b[off .. off + n]);
      b[off .. off + n] == Splice(x, s.fsupc, LowerUnitSolution(DiagBlock(L, n, s), x[s.fsupc .. s.fsupc + s.nsupc]))
    ensures SameOutside(b[..], old(b[..]), off, n)
  {
    ghost var x := b[off .. off + n];
    ghost var pre := b[..];
    SliceOfSlice(pre, off, n, s.fsupc, s.nsupc);
    LowerUnitSolve(DiagBlock(L, n, s), b, off + s.fsupc);
    SpliceSlice(pre, b[..], off, n, s.fsupc, LowerUnitSolution(DiagBlock(L, n, s), x[s.fsupc .. s.fsupc + s.nsupc]));
  }

  // ---------------------------------------------------------------------------
  // The whole forward solve

  /** Forward step of supernode k on one column. */
  function ForwardSuper(L: SCFormat, k: int, x: seq<real>): (y: seq<real>)
    requires WellFormedL(L, |x|) && 0 <= k <= L.nsuper
    ensures |y| == |x|
  {
    var s := Supernode(L, |x|, k);
    if s.nsupc == 1 then
      SingletonFits(L, |x|, s);
      ScalarScatter(L, s, x, s.istart + s.nsupr)
    else BlockForward(L, s, x)
  }

  /** Supernodes 0 .. k-1 applied in ascending order. */
  function ForwardUpTo(L: SCFormat, k: int, x: seq<real>): (y: seq<real>)
    requires WellFormedL(L, |x|) && 0 <= k <= L.nsuper + 1
    ensures |y| == |x|
    decreases k
  {
    if k == 0 then x else ForwardSuper(L, k - 1, ForwardUpTo(L, k - 1, x))
  }

  /** The forward solve of one column: every supernode, ascending. */
  function ForwardSolve(L: SCFormat, x: seq<real>): (y: seq<real>)
    requires WellFormedL(L, |x|)
    ensures |y| == |x|
  {
    ForwardUpTo(L, L.nsuper + 1, x)
  }

  ghost function ForwardUpToEach(L: SCFormat, n: int, k: int, cs: seq<seq<real>>): (r: seq<seq<real>>)
    requires WellFormedL(L, n) && 0 <= k <= L.nsuper + 1
    requires forall c :: 0 <= c < |cs| ==> |cs[c]| == n
    ensures |r| == |cs| && forall c :: 0 <= c < |cs| ==> r[c] == ForwardUpTo(L, k, cs[c])
  {
    seq(|cs|, c requires 0 <= c < |cs| => ForwardUpTo(L, k, cs[c]))
  }

  ghost function ForwardSuperEach(L: SCFormat, n: int, k: int, cs: seq<seq<real>>): (r: seq<seq<real>>)
    requires WellFormedL(L, n) && 0 <= k <= L.nsuper
    requires forall c :: 0 <= c < |cs| ==> |cs[c]| == n
    ensures |r| == |cs| && forall c :: 0 <= c < |cs| ==> r[c] == ForwardSuper(L, k, cs[c])
  {
    seq(|cs|, c requires 0 <= c < |cs| => ForwardSuper(L, k, cs[c]))
  }

  /** dgstrs.c:198-254: supernode k applied to every right-hand side column. */
  method ForwardSupernode(L: SCFormat, n: int, k: int, b: array<real>, ldb: int, nrhs: int, work: array<real>)
    requires WellFormedL(L, n) && 0 <= k <= L.nsuper
    requires Layout(b.Length, ldb, n, nrhs) && b != work
    requires nrhs == 0 || n <= work.Length
    requires Zeros(work[..])
    modifies b, work
    ensures Updated(b[..], old(b[..]), ldb, n, nrhs, nrhs, ForwardSuperEach(L, n, k, Columns(old(b[..]), ldb, n, nrhs)))
    ensures Zeros(work[..])
  {
    ghost var want := ForwardSuperEach(L, n, k, Columns(old(b[..]), ldb, n, nrhs));
    var s := Supernode(L, n, k);
    var j := 0;
    while j < nrhs
      invariant 0 <= j <= nrhs
      invariant Updated(b[..], old(b[..]), ldb, n, nrhs, j, want)
      invariant Zeros(work[..])
    {
      ColumnBounds(ldb, nrhs, j);
      var off := j * ldb;
      ghost var pre := b[..];
      assert pre[off .. off + n] == Col(old(b[..]), ldb, n, nrhs, j);
      ForwardColumn(L, n, k, s, b, off, work);
      UpdatedStep(pre, b[..], old(b[..]), ldb, n, nrhs, j, want);
      j := j + 1;
    }
  }

  /** dgstrs.c:198-254 on the column stored at b[off .. off+n). */
  method ForwardColumn(L: SCFormat, n: int, k: int, s: Super, b: array<real>, off: int, work: array<real>)
    requires WellFormedL(L, n) && 0 <= k <= L.nsuper && s == Supernode(L, n, k)
    requires 0 <= off && off + n <= b.Length && b != work
    requires n <= work.Length && Zeros(work[..])
    modifies b, work
    ensures b[off .. off + n] == ForwardSuper(L, k, old(b[off .. off + n]))
    ensures SameOutside(b[..], old(b[..]), off, n)
    ensures Zeros(work[..])
  {
    if s.nsupc == 1 {
      SingletonFits(L, n, s);
      ScalarScatterColumn(L, n, s, b, off);
    } else {
      PanelUpdateColumn(L, n, s, b, off, work);
    }
  }

  /** Operations counted for the dense triangle of a supernode (dgstrs.c:195). */
  function TriangleOps(nsupc: int, nrhs: int): int
  {
    nsupc * (nsupc - 1) * nrhs
  }

  /** Operations counted for the panel of a supernode (dgstrs.c:196). */
  function PanelOps(nrow: int, nsupc: int, nrhs: int): int
  {
    2 * nrow * nsupc * nrhs
  }

  /** Operations the forward solve counts for supernodes 0 .. k-1. */
  function ForwardOps(L: SCFormat, n: int, nrhs: int, k: int): int
    requires WellFormedL(L, n) && 0 <= k <= L.nsuper + 1
    decreases k
  {
    if k == 0 then 0
    else
      var s := Supernode(L, n, k - 1);
      ForwardOps(L, n, nrhs, k - 1) + TriangleOps(s.nsupc, nrhs) + PanelOps(s.NRow(), s.nsupc, nrhs)
  }

  lemma ForwardOpsStep(L: SCFormat, n: int, nrhs: int, k: int)
    requires WellFormedL(L, n) && 0 <= k <= L.nsuper
    ensures var s := Supernode(L, n, k);
      ForwardOps(L, n, nrhs, k + 1) == ForwardOps(L, n, nrhs, k) + TriangleOps(s.nsupc, nrhs) + PanelOps(s.NRow(), s.nsupc, nrhs)
  {
  }

  /** Applying supernode k to the columns after supernodes 0 .. k-1 gives the
      columns after supernodes 0 .. k. */
  lemma ForwardEachStep(L: SCFormat, n: int, k: int, cs: seq<seq<real>>)
    requires WellFormedL(L, n) && 0 <= k <= L.nsuper
    requires forall c :: 0 <= c < |cs| ==> |cs[c]| == n
    ensures ForwardSuperEach(L, n, k, ForwardUpToEach(L, n, k, cs)) == ForwardUpToEach(L, n, k + 1, cs)
  {
  }

  /** After supernodes 0 .. k-1, one pass of supernode k over every column
      leaves the columns after supernodes 0 .. k. */
  lemma ForwardLoopStep(L: SCFormat, n: int, ldb: int, nrhs: int, k: int, b0: seq<real>, mid: seq<real>, b: seq<real>)
    requires WellFormedL(L, n) && 0 <= k <= L.nsuper && Layout(|b0|, ldb, n, nrhs)
    requires Updated(mid, b0, ldb, n, nrhs, nrhs, ForwardUpToEach(L, n, k, Columns(b0, ldb, n, nrhs)))
    requires Updated(b, mid, ldb, n, nrhs, nrhs, ForwardSuperEach(L, n, k, Columns(mid, ldb, n, nrhs)))
    ensures Updated(b, b0, ldb, n, nrhs, nrhs, ForwardUpToEach(L, n, k + 1, Columns(b0, ldb, n, nrhs)))
  {
    var cs0 := Columns(b0, ldb, n, nrhs);
    UpdatedColumns(mid, b0, ldb, n, nrhs, ForwardUpToEach(L, n, k, cs0));
    ForwardEachStep(L, n, k, cs0);
    UpdatedThen(b0, mid, b, ldb, n, nrhs, ForwardUpToEach(L, n, k, cs0), ForwardUpToEach(L, n, k + 1, cs0));
  }

  /** dgstrs.c:193-254: one pass of the loop over supernodes, supernode k,
      with its operations counted. */
  method ForwardPass(L: SCFormat, n: int, k: int, b: array<real>, ldb: int, nrhs: int, work: array<real>,
                     ghost b0: seq<real>, opsIn: int)
    returns (ops: int)
    requires WellFormedL(L, n) && 0 <= k <= L.nsuper
    requires Layout(b.Length, ldb, n, nrhs) && b != work && |b0| == b.Length
    requires nrhs == 0 || n <= work.Length
    requires Zeros(work[..])
    requires Updated(b[..], b0, ldb, n, nrhs, nrhs, ForwardUpToEach(L, n, k, Columns(b0, ldb, n, nrhs)))
    modifies b, work
    ensures Updated(b[..], b0, ldb, n, nrhs, nrhs, ForwardUpToEach(L, n, k + 1, Columns(b0, ldb, n, nrhs)))
    ensures ops == opsIn + TriangleOps(Supernode(L, n, k).nsupc, nrhs) + PanelOps(Supernode(L, n, k).NRow(), Supernode(L, n, k).nsupc, nrhs)
    ensures Zeros(work[..])
  {
    var s := Supernode(L, n, k);
    ops := opsIn + TriangleOps(s.nsupc, nrhs);
    ops := ops + PanelOps(s.NRow(), s.nsupc, nrhs);
    ghost var mid := b[..];
    ForwardSupernode(L, n, k, b, ldb, nrhs, work);
    ForwardLoopStep(L, n, ldb, nrhs, k, b0, mid, b[..]);
  }

  /** dgstrs.c:187-257: the forward solve of every right-hand side column, with
      its operation count added to ops. */
  method ForwardSolveAll(L: SCFormat, n: int, b: array<real>, ldb: int, nrhs: int, work: array<real>, opsIn: int)
    returns (ops: int)
    requires WellFormedL(L, n)
    requires Layout(b.Length, ldb, n, nrhs) && b != work
    requires nrhs == 0 || n <= work.Length
    requires Zeros(work[..])
    modifies b, work
    ensures Updated(b[..], old(b[..]), ldb, n, nrhs, nrhs, ForwardUpToEach(L, n, L.nsuper + 1, Columns(old(b[..]), ldb, n, nrhs)))
    ensures ops == opsIn + ForwardOps(L, n, nrhs, L.nsuper + 1)
    ensures Zeros(work[..])
  {
    ghost var b0 := b[..];
    ghost var cs0 := Columns(b0, ldb, n, nrhs);
    ops := opsIn;
    var k := 0;
    while k <= L.nsuper
      invariant 0 <= k <= L.nsuper + 1
      invariant Updated(b[..], b0, ldb, n, nrhs, nrhs, ForwardUpToEach(L, n, k, cs0))
      invariant ops == opsIn + ForwardOps(L, n, nrhs, k)
      invariant Zeros(work[..])
    {
      ops := ForwardPass(L, n, k, b, ldb, nrhs, work, b0, ops);
      ForwardOpsStep(L, n, nrhs, k);
      k := k + 1;
    }
  }
}

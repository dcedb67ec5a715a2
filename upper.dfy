/** U as a matrix: U*y computed straight from the stored entries (the upper
    triangle of each supernode's diagonal block in L's storage, and the columns
    of U above it), and the proof that the back substitution of
    dgstrs.c:264-311 inverts it. */
module UpperProducts {
  import opened ColumnMajor
  import opened DenseKernels
  import opened SuperMatrices
  import opened Supernodes
  import opened Backward
  import opened Products

  /** Every stored entry of column jcol of U lies above row lim. */
  predicate ColumnAbove(U: NCFormat, jcol: int, lim: int)
    requires 0 <= jcol && jcol + 1 < |U.colptr|
  {
    forall p :: U.colptr[jcol] <= p < U.colptr[jcol + 1] ==> 0 <= p < |U.rowind| && U.rowind[p] < lim
  }

  /** What the back substitution step of supernode s relies on: the supernode's
      block lies in L, its diagonal is nonzero, and the columns of U in the
      supernode are well formed and hold only rows above it. */
  predicate StepOk(L: SCFormat, U: NCFormat, n: int, s: Super)
  {
    SupernodeOk(L, n, s) && NonzeroDiagonal(DiagBlock(L, n, s)) && SweepOk(U, n, s) &&
    forall jcol :: s.fsupc <= jcol < s.fsupc + s.nsupc ==> ColumnAbove(U, jcol, s.fsupc)
  }

  lemma SupernodeStepOk(L: SCFormat, U: NCFormat, n: int, k: int)
    requires Factors(L, U, n) && 0 <= k <= L.nsuper
    ensures StepOk(L, U, n, Supernode(L, n, k))
  {
    var s := Supernode(L, n, k);
    SupernodeColumnsOk(U, L, n, k);
    forall jcol | s.fsupc <= jcol < s.fsupc + s.nsupc
      ensures ColumnAbove(U, jcol, s.fsupc)
    {
      forall p | U.colptr[jcol] <= p < U.colptr[jcol + 1]
        ensures 0 <= p < |U.rowind| && U.rowind[p] < s.fsupc
      {
        UEntryAbove(U, L, n, k, jcol, p);
      }
    }
  }

  // ---------------------------------------------------------------------------
  // U times a vector

  /** Row r of the first c columns of U in supernode s times seg. */
  function UColumnsDot(U: NCFormat, n: int, s: Super, r: int, seg: seq<real>, c: int): real
    requires SweepOk(U, n, s) && |seg| == s.nsupc && 0 <= c <= s.nsupc
    decreases c
  {
    if c == 0 then 0.0
    else
      var jcol := s.fsupc + c - 1;
      assert ColumnOk(U, n, jcol);
      UColumnsDot(U, n, s, r, seg, c - 1) + seg[c - 1] * UEntry(U, jcol, r, U.colptr[jcol + 1])
  }

  /** The columns of U in supernode s have nothing in the supernode's rows or below. */
  lemma {:induction false} UColumnsBelow(L: SCFormat, U: NCFormat, n: int, s: Super, seg: seq<real>, c: int)
    requires StepOk(L, U, n, s) && |seg| == s.nsupc && 0 <= c <= s.nsupc
    ensures forall r :: s.fsupc <= r ==> UColumnsDot(U, n, s, r, seg, c) == 0.0
    decreases c
  {
    if c > 0 {
      var jcol := s.fsupc + c - 1;
      UColumnsBelow(L, U, n, s, seg, c - 1);
      assert ColumnOk(U, n, jcol) && ColumnAbove(U, jcol, s.fsupc);
      UEntryBelow(U, jcol, U.colptr[jcol + 1], s.fsupc);
    }
  }

  /** The columns of supernode s of U, with their diagonal block, times seg:
      row fsupc+i of the block holds the sum over j >= i of U(fsupc+i, fsupc+j)
      * seg[j], and every row adds its entries in the U columns of s. */
  function UpperPart(L: SCFormat, U: NCFormat, n: int, s: Super, seg: seq<real>): (v: seq<real>)
    requires SupernodeOk(L, n, s) && SweepOk(U, n, s) && |seg| == s.nsupc
    ensures |v| == n
  {
    var m := DiagBlock(L, n, s);
    seq(n, r requires 0 <= r < n =>
      (if s.fsupc <= r < s.fsupc + s.nsupc then RowDot(m, r - s.fsupc, seg, r - s.fsupc, s.nsupc) else 0.0)
      + UColumnsDot(U, n, s, r, seg, s.nsupc))
  }

  lemma UpperAtSegment(L: SCFormat, U: NCFormat, n: int, s: Super, seg: seq<real>, i: int)
    requires StepOk(L, U, n, s) && |seg| == s.nsupc && 0 <= i < s.nsupc
    ensures UpperPart(L, U, n, s, seg)[s.fsupc + i] == RowDot(DiagBlock(L, n, s), i, seg, i, s.nsupc)
  {
    UColumnsBelow(L, U, n, s, seg, s.nsupc);
  }

  lemma UpperAtOther(L: SCFormat, U: NCFormat, n: int, s: Super, seg: seq<real>, r: int)
    requires StepOk(L, U, n, s) && |seg| == s.nsupc && 0 <= r < n && !(s.fsupc <= r < s.fsupc + s.nsupc)
    ensures UpperPart(L, U, n, s, seg)[r] == UColumnsDot(U, n, s, r, seg, s.nsupc)
  {
  }

  /** Supernode s of U touches no row below the supernode. */
  lemma UpperPartBeyond(L: SCFormat, U: NCFormat, n: int, s: Super, seg: seq<real>)
    requires StepOk(L, U, n, s) && |seg| == s.nsupc
    ensures forall r :: s.fsupc + s.nsupc <= r < n ==> UpperPart(L, U, n, s, seg)[r] == 0.0
  {
    UColumnsBelow(L, U, n, s, seg, s.nsupc);
  }

  // ---------------------------------------------------------------------------
  // One supernode of the back substitution

  /** Row r with value xr after the sweeps of the first c columns of U in
      supernode s, the supernode's rows holding seg. */
  function SweptRow(U: NCFormat, n: int, s: Super, r: int, xr: real, seg: seq<real>, c: int): real
    requires SweepOk(U, n, s) && |seg| == s.nsupc && 0 <= c <= s.nsupc
    decreases c
  {
    if c == 0 then xr
    else
      var jcol := s.fsupc + c - 1;
      assert ColumnOk(U, n, jcol);
      Eliminate(SweptRow(U, n, s, r, xr, seg, c - 1), seg[c - 1], UEntry(U, jcol, r, U.colptr[jcol + 1]))
  }

  /** The sweeps subtract the columns of U times seg. */
  lemma {:induction false} SweptRowDot(U: NCFormat, n: int, s: Super, r: int, xr: real, seg: seq<real>, c: int)
    requires SweepOk(U, n, s) && |seg| == s.nsupc && 0 <= c <= s.nsupc
    ensures SweptRow(U, n, s, r, xr, seg, c) == xr - UColumnsDot(U, n, s, r, seg, c)
    decreases c
  {
    if c > 0 {
      SweptRowDot(U, n, s, r, xr, seg, c - 1);
    }
  }

  /** The sweep of columns fsupc .. upto-1 subtracts those columns of U times
      the supernode's rows, which it leaves alone. */
  lemma SweepColumnsEffect(L: SCFormat, U: NCFormat, s: Super, x: seq<real>, upto: int)
    requires StepOk(L, U, |x|, s) && s.fsupc <= upto <= s.fsupc + s.nsupc
    ensures var y := SweepColumns(U, s, x, upto);
      forall r :: 0 <= r < |x| ==> y[r] == x[r] - UColumnsDot(U, |x|, s, r, Segment(s, x), upto - s.fsupc)
  {
    forall r | 0 <= r < |x|
      ensures SweepColumns(U, s, x, upto)[r] == x[r] - UColumnsDot(U, |x|, s, r, Segment(s, x), upto - s.fsupc)
    {
      SweepUptoAt(L, U, s, x, upto - s.fsupc, r);
    }
  }

  lemma SweepUptoAt(L: SCFormat, U: NCFormat, s: Super, x: seq<real>, c: int, r: int)
    requires StepOk(L, U, |x|, s) && 0 <= c <= s.nsupc && 0 <= r < |x|
    ensures SweepColumns(U, s, x, s.fsupc + c)[r] == x[r] - UColumnsDot(U, |x|, s, r, Segment(s, x), c)
  {
    SweepColumnsRow(L, U, s, x, c, r);
    SweptRowDot(U, |x|, s, r, x[r], Segment(s, x), c);
  }

  /** The sweep of the first c columns on one row, by induction on c. */
  lemma {:induction false} SweepColumnsRow(L: SCFormat, U: NCFormat, s: Super, x: seq<real>, c: int, r: int)
    requires StepOk(L, U, |x|, s) && 0 <= c <= s.nsupc && 0 <= r < |x|
    ensures SweepColumns(U, s, x, s.fsupc + c)[r] == SweptRow(U, |x|, s, r, x[r], Segment(s, x), c)
    decreases c
  {
    if c > 0 {
      var seg := Segment(s, x);
      var jcol := s.fsupc + c - 1;
      var z := SweepColumns(U, s, x, jcol);
      assert s.fsupc + (c - 1) == jcol && jcol + 1 == s.fsupc + c;
      SweepColumnsRow(L, U, s, x, c - 1, r);
      SweepColumnsRow(L, U, s, x, c - 1, jcol);
      UColumnsBelowAt(L, U, |x|, s, seg, c - 1, jcol);
      SweptRowDot(U, |x|, s, jcol, x[jcol], seg, c - 1);
      assert z[jcol] == seg[c - 1];
      SweepColumnAt(U, jcol, z, r);
    }
  }

  lemma SweepColumnAt(U: NCFormat, jcol: int, x: seq<real>, r: int)
    requires ColumnOk(U, |x|, jcol) && 0 <= r < |x|
    ensures SweepColumn(U, jcol, x, U.colptr[jcol + 1])[r] ==
      Eliminate(x[r], x[jcol], UEntry(U, jcol, r, U.colptr[jcol + 1]))
  {
    SweepColumnEffect(U, jcol, x, U.colptr[jcol + 1]);
  }

  lemma UColumnsBelowAt(L: SCFormat, U: NCFormat, n: int, s: Super, seg: seq<real>, c: int, r: int)
    requires StepOk(L, U, n, s) && |seg| == s.nsupc && 0 <= c <= s.nsupc && s.fsupc <= r
    ensures UColumnsDot(U, n, s, r, seg, c) == 0.0
  {
    UColumnsBelow(L, U, n, s, seg, c);
  }

  lemma SweepAt(L: SCFormat, U: NCFormat, s: Super, x: seq<real>, r: int)
    requires StepOk(L, U, |x|, s) && 0 <= r < |x|
    ensures SweepColumns(U, s, x, s.fsupc + s.nsupc)[r] == x[r] - UColumnsDot(U, |x|, s, r, Segment(s, x), s.nsupc)
  {
    SweepColumnsRow(L, U, s, x, s.nsupc, r);
    SweptRowDot(U, |x|, s, r, x[r], Segment(s, x), s.nsupc);
  }

  /** The diagonal solve puts the solution of the diagonal block in the
      supernode's rows. */
  lemma DiagSegment(L: SCFormat, U: NCFormat, s: Super, z: seq<real>)
    requires StepOk(L, U, |z|, s)
    ensures Segment(s, DiagSolve(L, s, z)) == UpperSolution(DiagBlock(L, |z|, s), Segment(s, z))
  {
    DiagSolveEffect(L, s, z);
  }

  lemma DiagAtOther(L: SCFormat, U: NCFormat, s: Super, z: seq<real>, r: int)
    requires StepOk(L, U, |z|, s) && 0 <= r < |z| && !(s.fsupc <= r < s.fsupc + s.nsupc)
    ensures DiagSolve(L, s, z)[r] == z[r]
  {
    DiagSolveEffect(L, s, z);
  }

  /** The step of supernode s leaves the solution of its diagonal block in its rows ... */
  lemma StepAtSegment(L: SCFormat, U: NCFormat, s: Super, z: seq<real>, i: int)
    requires StepOk(L, U, |z|, s) && 0 <= i < s.nsupc
    ensures var y := SweepColumns(U, s, DiagSolve(L, s, z), s.fsupc + s.nsupc);
      y[s.fsupc + i] == UpperSolution(DiagBlock(L, |z|, s), Segment(s, z))[i]
  {
    var ds := DiagSolve(L, s, z);
    SweepAt(L, U, s, ds, s.fsupc + i);
    UColumnsBelowAt(L, U, |z|, s, Segment(s, ds), s.nsupc, s.fsupc + i);
    DiagSegment(L, U, s, z);
    assert ds[s.fsupc + i] == Segment(s, ds)[i];
  }

  /** ... and takes the supernode's columns of U times that solution off every other row. */
  lemma StepAtOther(L: SCFormat, U: NCFormat, s: Super, z: seq<real>, r: int)
    requires StepOk(L, U, |z|, s) && 0 <= r < |z| && !(s.fsupc <= r < s.fsupc + s.nsupc)
    ensures var y := SweepColumns(U, s, DiagSolve(L, s, z), s.fsupc + s.nsupc);
      var sol := UpperSolution(DiagBlock(L, |z|, s), Segment(s, z));
      y[r] == z[r] - UColumnsDot(U, |z|, s, r, sol, s.nsupc)
  {
    var ds := DiagSolve(L, s, z);
    SweepAt(L, U, s, ds, r);
    DiagAtOther(L, U, s, z, r);
    DiagSegment(L, U, s, z);
  }

  lemma StepSegment(L: SCFormat, U: NCFormat, s: Super, z: seq<real>)
    requires StepOk(L, U, |z|, s)
    ensures var y := SweepColumns(U, s, DiagSolve(L, s, z), s.fsupc + s.nsupc);
      Segment(s, y) == UpperSolution(DiagBlock(L, |z|, s), Segment(s, z))
  {
    var y := SweepColumns(U, s, DiagSolve(L, s, z), s.fsupc + s.nsupc);
    forall i | 0 <= i < s.nsupc
      ensures Segment(s, y)[i] == UpperSolution(DiagBlock(L, |z|, s), Segment(s, z))[i]
    {
      StepAtSegment(L, U, s, z, i);
    }
  }

  /** The step of supernode s undone: its input is its output with the
      supernode's rows cleared, plus the supernode's columns of U times those rows. */
  lemma BackwardStepInverse(L: SCFormat, U: NCFormat, s: Super, z: seq<real>)
    requires StepOk(L, U, |z|, s)
    ensures var y := SweepColumns(U, s, DiagSolve(L, s, z), s.fsupc + s.nsupc);
      z == Add(Splice(y, s.fsupc, Zero(s.nsupc)), UpperPart(L, U, |z|, s, Segment(s, y)))
  {
    var y := SweepColumns(U, s, DiagSolve(L, s, z), s.fsupc + s.nsupc);
    var cleared := Splice(y, s.fsupc, Zero(s.nsupc));
    var v := UpperPart(L, U, |z|, s, Segment(s, y));
    forall r | 0 <= r < |z|
      ensures z[r] == cleared[r] + v[r]
    {
      InverseRow(L, U, s, z, r);
    }
    AddPointwise(z, cleared, v);
  }

  lemma InverseRow(L: SCFormat, U: NCFormat, s: Super, z: seq<real>, r: int)
    requires StepOk(L, U, |z|, s) && 0 <= r < |z|
    ensures var y := SweepColumns(U, s, DiagSolve(L, s, z), s.fsupc + s.nsupc);
      z[r] == Splice(y, s.fsupc, Zero(s.nsupc))[r] + UpperPart(L, U, |z|, s, Segment(s, y))[r]
  {
    var y := SweepColumns(U, s, DiagSolve(L, s, z), s.fsupc + s.nsupc);
    var sol := UpperSolution(DiagBlock(L, |z|, s), Segment(s, z));
    StepSegment(L, U, s, z);
    if s.fsupc <= r < s.fsupc + s.nsupc {
      InverseIn(L, U, s, z, y, sol, r - s.fsupc);
    } else {
      StepAtOther(L, U, s, z, r);
      UpperAtOther(L, U, |z|, s, sol, r);
    }
  }

  lemma InverseIn(L: SCFormat, U: NCFormat, s: Super, z: seq<real>, y: seq<real>, sol: seq<real>, i: int)
    requires StepOk(L, U, |z|, s) && |y| == |z| && 0 <= i < s.nsupc
    requires sol == UpperSolution(DiagBlock(L, |z|, s), Segment(s, z)) && Segment(s, y) == sol
    ensures z[s.fsupc + i] == Splice(y, s.fsupc, Zero(s.nsupc))[s.fsupc + i] + UpperPart(L, U, |z|, s, sol)[s.fsupc + i]
  {
    UpperAtSegment(L, U, |z|, s, sol, i);
    UpperSolves(DiagBlock(L, |z|, s), Segment(s, z), i);
    assert Segment(s, z)[i] == z[s.fsupc + i];
  }

  /** ... and run on that input, the step gives its output back. */
  lemma BackwardStepUndo(L: SCFormat, U: NCFormat, s: Super, w: seq<real>)
    requires StepOk(L, U, |w|, s)
    ensures var x := Add(Splice(w, s.fsupc, Zero(s.nsupc)), UpperPart(L, U, |w|, s, Segment(s, w)));
      SweepColumns(U, s, DiagSolve(L, s, x), s.fsupc + s.nsupc) == w
  {
    var x := Add(Splice(w, s.fsupc, Zero(s.nsupc)), UpperPart(L, U, |w|, s, Segment(s, w)));
    var y := SweepColumns(U, s, DiagSolve(L, s, x), s.fsupc + s.nsupc);
    forall r | 0 <= r < |w|
      ensures y[r] == w[r]
    {
      UndoRow(L, U, s, w, r);
    }
  }

  /** The diagonal block solved against the undone input's rows of the
      supernode gives back the supernode's rows of w. */
  lemma UndoSegment(L: SCFormat, U: NCFormat, s: Super, w: seq<real>)
    requires StepOk(L, U, |w|, s)
    ensures var x := Add(Splice(w, s.fsupc, Zero(s.nsupc)), UpperPart(L, U, |w|, s, Segment(s, w)));
      UpperSolution(DiagBlock(L, |w|, s), Segment(s, x)) == Segment(s, w)
  {
    var n := |w|;
    var seg := Segment(s, w);
    var x := Add(Splice(w, s.fsupc, Zero(s.nsupc)), UpperPart(L, U, n, s, seg));
    var m := DiagBlock(L, n, s);
    var b := Segment(s, x);
    forall i | 0 <= i < s.nsupc
      ensures RowDot(m, i, seg, i, m.Cols()) == b[i]
    {
      UpperAtSegment(L, U, n, s, seg, i);
      assert b[i] == x[s.fsupc + i];
    }
    UpperUnique(m, b, seg);
  }

  lemma UndoRow(L: SCFormat, U: NCFormat, s: Super, w: seq<real>, r: int)
    requires StepOk(L, U, |w|, s) && 0 <= r < |w|
    ensures var x := Add(Splice(w, s.fsupc, Zero(s.nsupc)), UpperPart(L, U, |w|, s, Segment(s, w)));
      SweepColumns(U, s, DiagSolve(L, s, x), s.fsupc + s.nsupc)[r] == w[r]
  {
    var seg := Segment(s, w);
    var x := Add(Splice(w, s.fsupc, Zero(s.nsupc)), UpperPart(L, U, |w|, s, seg));
    UndoSegment(L, U, s, w);
    if s.fsupc <= r < s.fsupc + s.nsupc {
      StepAtSegment(L, U, s, x, r - s.fsupc);
    } else {
      StepAtOther(L, U, s, x, r);
      UpperAtOther(L, U, |w|, s, seg, r);
    }
  }

  // ---------------------------------------------------------------------------
  // The whole back substitution

  /** y with the rows below f kept and the rows above cleared. */
  function TailFrom(y: seq<real>, f: int): (t: seq<real>)
    ensures |t| == |y| && forall r :: 0 <= r < |y| ==> t[r] == (if f <= r then y[r] else 0.0)
  {
    seq(|y|, r requires 0 <= r < |y| => if f <= r then y[r] else 0.0)
  }

  /** The sum over supernodes 0 .. k-1 of their columns of U times y. */
  function UpperBelow(L: SCFormat, U: NCFormat, y: seq<real>, k: int): (v: seq<real>)
    requires Factors(L, U, |y|) && 0 <= k <= L.nsuper + 1
    ensures |v| == |y|
    decreases k
  {
    if k == 0 then Zero(|y|)
    else
      var s := Supernode(L, |y|, k - 1);
      SupernodeColumnsOk(U, L, |y|, k - 1);
      Add(UpperBelow(L, U, y, k - 1), UpperPart(L, U, |y|, s, Segment(s, y)))
  }

  /** U y: the sum over every supernode of its columns of U times y. */
  function UpperTimes(L: SCFormat, U: NCFormat, y: seq<real>): (v: seq<real>)
    requires Factors(L, U, |y|)
    ensures |v| == |y|
  {
    UpperBelow(L, U, y, L.nsuper + 1)
  }

  /** Supernodes 0 .. k-1 touch no row of supernode k or below. */
  lemma {:induction false} UpperBelowBeyond(L: SCFormat, U: NCFormat, y: seq<real>, k: int)
    requires Factors(L, U, |y|) && 0 <= k <= L.nsuper + 1
    ensures forall r :: L.supToCol[k] <= r < |y| ==> UpperBelow(L, U, y, k)[r] == 0.0
    decreases k
  {
    if k > 0 {
      var s := Supernode(L, |y|, k - 1);
      SupernodeStepOk(L, U, |y|, k - 1);
      UpperBelowBeyond(L, U, y, k - 1);
      UpperPartBeyond(L, U, |y|, s, Segment(s, y));
      assert L.supToCol[k - 1] < L.supToCol[k];
    }
  }

  /** The vector the back substitution holds before supernode k-1: the
      solution in the rows of supernodes k and above, and what supernodes
      0 .. k-1 still have to take off in the rows above. */
  function BackwardState(L: SCFormat, U: NCFormat, y: seq<real>, k: int): (w: seq<real>)
    requires Factors(L, U, |y|) && 0 <= k <= L.nsuper + 1
    ensures |w| == |y|
  {
    Add(TailFrom(y, L.supToCol[k]), UpperBelow(L, U, y, k))
  }

  /** Consecutive states differ by the step of supernode k. */
  lemma BackwardStateStep(L: SCFormat, U: NCFormat, y: seq<real>, k: int, j: int)
    requires Factors(L, U, |y|) && 0 <= k <= L.nsuper && j == k + 1
    ensures var s := Supernode(L, |y|, k);
      var w := BackwardState(L, U, y, k);
      SweepOk(U, |y|, s) && Segment(s, w) == Segment(s, y) &&
      BackwardState(L, U, y, j) == Add(Splice(w, s.fsupc, Zero(s.nsupc)), UpperPart(L, U, |y|, s, Segment(s, y)))
  {
    var s := Supernode(L, |y|, k);
    SupernodeStepOk(L, U, |y|, k);
    StateSegment(L, U, y, k);
    var w := BackwardState(L, U, y, k);
    var next := BackwardState(L, U, y, j);
    var rhs := Add(Splice(w, s.fsupc, Zero(s.nsupc)), UpperPart(L, U, |y|, s, Segment(s, y)));
    forall r | 0 <= r < |y|
      ensures next[r] == rhs[r]
    {
      StateRow(L, U, y, k, j, r);
    }
  }

  /** The state before supernode k already holds y in the rows of k. */
  lemma StateSegment(L: SCFormat, U: NCFormat, y: seq<real>, k: int)
    requires Factors(L, U, |y|) && 0 <= k <= L.nsuper
    ensures var s := Supernode(L, |y|, k);
      Segment(s, BackwardState(L, U, y, k)) == Segment(s, y)
  {
    var s := Supernode(L, |y|, k);
    SupernodeColumnsOk(U, L, |y|, k);
    UpperBelowBeyond(L, U, y, k);
    var w := BackwardState(L, U, y, k);
    forall i | 0 <= i < s.nsupc
      ensures Segment(s, w)[i] == Segment(s, y)[i]
    {
      assert w[s.fsupc + i] == y[s.fsupc + i] + UpperBelow(L, U, y, k)[s.fsupc + i];
    }
  }

  /** Row r of the state after supernode k. */
  lemma StateRow(L: SCFormat, U: NCFormat, y: seq<real>, k: int, j: int, r: int)
    requires Factors(L, U, |y|) && 0 <= k <= L.nsuper && j == k + 1 && 0 <= r < |y|
    ensures var s := Supernode(L, |y|, k);
      StepOk(L, U, |y|, s) &&
      BackwardState(L, U, y, j)[r] ==
        Splice(BackwardState(L, U, y, k), s.fsupc, Zero(s.nsupc))[r] + UpperPart(L, U, |y|, s, Segment(s, y))[r]
  {
    var s := Supernode(L, |y|, k);
    SupernodeStepOk(L, U, |y|, k);
    var part := UpperPart(L, U, |y|, s, Segment(s, y));
    UpperBelowBeyond(L, U, y, k);
    assert UpperBelow(L, U, y, j) == Add(UpperBelow(L, U, y, k), part);
    assert L.supToCol[j] == s.fsupc + s.nsupc;
  }

  /** Running the back substitution on x, the vector after supernodes
      nsuper .. k is BackwardState of the final solution y. */
  lemma {:induction false} BackwardTrail(L: SCFormat, U: NCFormat, x: seq<real>, y: seq<real>, k: int)
    requires Factors(L, U, |x|) && 0 <= k <= L.nsuper + 1 && y == BackwardSolve(L, U, x)
    ensures BackwardFrom(L, U, k, x) == BackwardState(L, U, y, k)
    decreases k
  {
    if k == 0 {
      StateAtBottom(L, U, y);
    } else {
      BackwardTrail(L, U, x, y, k - 1);
      TrailStep(L, U, x, y, k - 1, k);
    }
  }

  /** If the vector before supernode k is BackwardState of y, so is the
      vector before supernode j = k+1. */
  lemma TrailStep(L: SCFormat, U: NCFormat, x: seq<real>, y: seq<real>, k: int, j: int)
    requires Factors(L, U, |x|) && |y| == |x| && 0 <= k <= L.nsuper && j == k + 1
    requires BackwardFrom(L, U, k, x) == BackwardState(L, U, y, k)
    ensures BackwardFrom(L, U, j, x) == BackwardState(L, U, y, j)
  {
    BackwardStateStep(L, U, y, k, j);
    SupernodeStepOk(L, U, |x|, k);
    FromStep(L, U, k, x, BackwardFrom(L, U, j, x));
    SuperInverse(L, U, k, BackwardFrom(L, U, j, x), BackwardState(L, U, y, k), y, BackwardState(L, U, y, j));
  }

  /** Running the back substitution on X, if the vector after supernodes
      nsuper .. j is BackwardState of y, so is the vector after supernode k = j-1. */
  lemma RiseStep(L: SCFormat, U: NCFormat, x: seq<real>, y: seq<real>, k: int, j: int)
    requires Factors(L, U, |x|) && |y| == |x| && 0 <= k <= L.nsuper && j == k + 1
    requires BackwardFrom(L, U, j, x) == BackwardState(L, U, y, j)
    ensures BackwardFrom(L, U, k, x) == BackwardState(L, U, y, k)
  {
    BackwardStateStep(L, U, y, k, j);
    SupernodeStepOk(L, U, |x|, k);
    FromStep(L, U, k, x, BackwardFrom(L, U, j, x));
    SuperUndo(L, U, k, BackwardState(L, U, y, k), y, BackwardState(L, U, y, j));
  }

  /** If the step of supernode k maps z to w, z is the cleared w plus the
      supernode's columns of U times y's rows of the supernode. */
  lemma SuperInverse(L: SCFormat, U: NCFormat, k: int, z: seq<real>, w: seq<real>, y: seq<real>, next: seq<real>)
    requires Factors(L, U, |z|) && 0 <= k <= L.nsuper && |w| == |z| && |y| == |z|
    requires BackwardSuper(L, U, k, z) == w
    requires StepOk(L, U, |z|, Supernode(L, |z|, k))
    requires var s := Supernode(L, |z|, k);
      Segment(s, w) == Segment(s, y) &&
      next == Add(Splice(w, s.fsupc, Zero(s.nsupc)), UpperPart(L, U, |z|, s, Segment(s, y)))
    ensures z == next
  {
    InverseLink(L, U, Supernode(L, |z|, k), z, w, y, next);
  }

  /** The step of supernode k maps the cleared w plus the supernode's columns
      of U times y's rows of the supernode back to w. */
  lemma SuperUndo(L: SCFormat, U: NCFormat, k: int, w: seq<real>, y: seq<real>, next: seq<real>)
    requires Factors(L, U, |w|) && 0 <= k <= L.nsuper && |y| == |w|
    requires StepOk(L, U, |w|, Supernode(L, |w|, k))
    requires var s := Supernode(L, |w|, k);
      Segment(s, w) == Segment(s, y) &&
      next == Add(Splice(w, s.fsupc, Zero(s.nsupc)), UpperPart(L, U, |w|, s, Segment(s, y)))
    ensures BackwardSuper(L, U, k, next) == w
  {
    UndoLink(L, U, Supernode(L, |w|, k), w, y, next);
  }

  /** The step of supernode s maps z to w, so z is what UpperPart and the
      cleared w add up to. */
  lemma InverseLink(L: SCFormat, U: NCFormat, s: Super, z: seq<real>, w: seq<real>, y: seq<real>, next: seq<real>)
    requires StepOk(L, U, |z|, s) && |w| == |z| && |y| == |z|
    requires SweepColumns(U, s, DiagSolve(L, s, z), s.fsupc + s.nsupc) == w
    requires Segment(s, w) == Segment(s, y)
    requires next == Add(Splice(w, s.fsupc, Zero(s.nsupc)), UpperPart(L, U, |z|, s, Segment(s, y)))
    ensures z == next
  {
    BackwardStepInverse(L, U, s, z);
  }

  /** Running the back substitution on U y, the vector after supernodes
      nsuper .. k is BackwardState of y. */
  lemma {:induction false} BackwardRise(L: SCFormat, U: NCFormat, y: seq<real>, x: seq<real>, k: int)
    requires Factors(L, U, |y|) && 0 <= k <= L.nsuper + 1 && x == UpperTimes(L, U, y)
    ensures BackwardFrom(L, U, k, x) == BackwardState(L, U, y, k)
    decreases L.nsuper + 1 - k
  {
    if k == L.nsuper + 1 {
      StateAtTop(L, U, y);
    } else {
      BackwardRise(L, U, y, x, k + 1);
      RiseStep(L, U, x, y, k, k + 1);
    }
  }

  /** The step of supernode s maps what UpperPart and the cleared w add up
      to back to w. */
  lemma UndoLink(L: SCFormat, U: NCFormat, s: Super, w: seq<real>, y: seq<real>, next: seq<real>)
    requires StepOk(L, U, |w|, s) && |y| == |w|
    requires Segment(s, w) == Segment(s, y)
    requires next == Add(Splice(w, s.fsupc, Zero(s.nsupc)), UpperPart(L, U, |w|, s, Segment(s, y)))
    ensures SweepColumns(U, s, DiagSolve(L, s, next), s.fsupc + s.nsupc) == w
  {
    BackwardStepUndo(L, U, s, w);
  }

  /** Before any supernode is undone the state is U y ... */
  lemma StateAtTop(L: SCFormat, U: NCFormat, y: seq<real>)
    requires Factors(L, U, |y|)
    ensures BackwardState(L, U, y, L.nsuper + 1) == UpperTimes(L, U, y)
  {
    var t := TailFrom(y, L.supToCol[L.nsuper + 1]);
    assert t == Zero(|y|);
  }

  /** ... and after all of them it is y. */
  lemma StateAtBottom(L: SCFormat, U: NCFormat, y: seq<real>)
    requires Factors(L, U, |y|)
    ensures BackwardState(L, U, y, 0) == y
  {
    var t := TailFrom(y, L.supToCol[0]);
    assert t == y;
  }

  /** The back substitution solves U y = x ... */
  lemma BackwardSolveSolves(L: SCFormat, U: NCFormat, x: seq<real>)
    requires Factors(L, U, |x|)
    ensures UpperTimes(L, U, BackwardSolve(L, U, x)) == x
  {
    var y := BackwardSolve(L, U, x);
    BackwardTrail(L, U, x, y, L.nsuper + 1);
    StateAtTop(L, U, y);
  }

  /** ... and its solution is the only one. */
  lemma BackwardSolveUnique(L: SCFormat, U: NCFormat, y: seq<real>)
    requires Factors(L, U, |y|)
    ensures BackwardSolve(L, U, UpperTimes(L, U, y)) == y
  {
    BackwardRise(L, U, y, UpperTimes(L, U, y), 0);
    StateAtBottom(L, U, y);
  }
}

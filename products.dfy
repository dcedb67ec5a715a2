/** The factors as matrices: L*y and U*y computed straight from the stored
    entries, column block by column block, and the proof that the forward and
    back substitutions of dgstrs.c:187-311 invert them. */
module Products {
  import opened ColumnMajor
  import opened DenseKernels
  import opened SuperMatrices
  import opened Supernodes
  import opened Forward
  import opened Backward

  function Zero(n: nat): (z: seq<real>)
    ensures |z| == n && forall i :: 0 <= i < n ==> z[i] == 0.0
  {
    seq(n, _ => 0.0)
  }

  function Add(a: seq<real>, b: seq<real>): (c: seq<real>)
    requires |a| == |b|
    ensures |c| == |a| && forall i :: 0 <= i < |a| ==> c[i] == a[i] + b[i]
  {
    seq(|a|, i requires 0 <= i < |a| => a[i] + b[i])
  }

  /** The rows of supernode s in y. */
  function Segment(s: Super, y: seq<real>): (seg: seq<real>)
    requires 0 <= s.fsupc && 0 <= s.nsupc && s.fsupc + s.nsupc <= |y|
    ensures |seg| == s.nsupc
  {
    y[s.fsupc .. s.fsupc + s.nsupc]
  }

  /** Two vectors agreeing entry by entry with y + v are y + v. */
  lemma AddPointwise(z: seq<real>, y: seq<real>, v: seq<real>)
    requires |z| == |y| == |v|
    requires forall r :: 0 <= r < |z| ==> z[r] == y[r] + v[r]
    ensures z == Add(y, v)
  {
  }

  // ---------------------------------------------------------------------------
  // L times a vector

  /** The strictly lower part of the diagonal block of supernode s times seg:
      row fsupc+i holds the sum over j < i of L(fsupc+i, fsupc+j) * seg[j]. */
  function LowerDiagPart(L: SCFormat, n: int, s: Super, seg: seq<real>): (v: seq<real>)
    requires SupernodeOk(L, n, s) && |seg| == s.nsupc
    ensures |v| == n
  {
    var m := DiagBlock(L, n, s);
    seq(n, r requires 0 <= r < n =>
      if s.fsupc <= r < s.fsupc + s.nsupc then RowDot(m, r - s.fsupc, seg, 0, r - s.fsupc) else 0.0)
  }

  /** LowerDiagPart with the first upto panel rows added: panel row
      L_SUB(istart + nsupc + i) holds row i of the panel times seg. */
  function LowerPanelPart(L: SCFormat, n: int, s: Super, seg: seq<real>, upto: int): (v: seq<real>)
    requires SupernodeOk(L, n, s) && |seg| == s.nsupc && 0 <= upto <= s.NRow()
    ensures |v| == n
    decreases upto
  {
    if upto == 0 then LowerDiagPart(L, n, s, seg)
    else
      LowerPanelPart(L, n, s, seg, upto - 1)[L.rowind[s.istart + s.nsupc + upto - 1] := RowDot(PanelBlock(L, n, s), upto - 1, seg, 0, s.nsupc)]
  }

  /** The columns of supernode s of L, below their diagonal, times seg. */
  function LowerPart(L: SCFormat, n: int, s: Super, seg: seq<real>): (v: seq<real>)
    requires SupernodeOk(L, n, s) && |seg| == s.nsupc
    ensures |v| == n
  {
    LowerPanelPart(L, n, s, seg, s.NRow())
  }

  /** Where the entries of LowerPanelPart come from. */
  lemma {:induction false} LowerPanelPartEffect(L: SCFormat, n: int, s: Super, seg: seq<real>, upto: int)
    requires SupernodeOk(L, n, s) && |seg| == s.nsupc && 0 <= upto <= s.NRow()
    ensures var v := LowerPanelPart(L, n, s, seg, upto);
      (forall i :: 0 <= i < s.nsupc ==> v[s.fsupc + i] == RowDot(DiagBlock(L, n, s), i, seg, 0, i)) &&
      (forall p :: s.istart + s.nsupc <= p < s.istart + s.nsupc + upto ==>
         v[L.rowind[p]] == RowDot(PanelBlock(L, n, s), p - s.istart - s.nsupc, seg, 0, s.nsupc)) &&
      (forall r ::
         0 <= r < n && !(s.fsupc <= r < s.fsupc + s.nsupc) &&
         (forall p :: s.istart + s.nsupc <= p < s.istart + s.nsupc + upto ==> L.rowind[p] != r)
         ==> v[r] == 0.0)
    decreases upto
  {
    if upto > 0 {
      LowerPanelPartEffect(L, n, s, seg, upto - 1);
    }
  }

  /** Supernode s of L touches no row above its first column. */
  lemma LowerPartAbove(L: SCFormat, n: int, s: Super, seg: seq<real>)
    requires SupernodeOk(L, n, s) && |seg| == s.nsupc
    ensures forall r :: 0 <= r < s.fsupc ==> LowerPart(L, n, s, seg)[r] == 0.0
  {
    LowerPanelPartEffect(L, n, s, seg, s.NRow());
  }

  /** The sum over supernodes k .. nsuper of their strictly lower columns times y. */
  function LowerFrom(L: SCFormat, y: seq<real>, k: int): (v: seq<real>)
    requires WellFormedL(L, |y|) && 0 <= k <= L.nsuper + 1
    ensures |v| == |y|
    decreases L.nsuper + 1 - k
  {
    if k == L.nsuper + 1 then Zero(|y|)
    else
      var s := Supernode(L, |y|, k);
      Add(LowerPart(L, |y|, s, Segment(s, y)), LowerFrom(L, y, k + 1))
  }

  /** L y, with L unit lower triangular: y plus every supernode's strictly lower
      columns times y. */
  function LowerTimes(L: SCFormat, y: seq<real>): (v: seq<real>)
    requires WellFormedL(L, |y|)
    ensures |v| == |y|
  {
    Add(y, LowerFrom(L, y, 0))
  }

  /** Supernodes k and above touch no row above supernode k. */
  lemma {:induction false} LowerFromAbove(L: SCFormat, y: seq<real>, k: int)
    requires WellFormedL(L, |y|) && 0 <= k <= L.nsuper + 1
    ensures forall r :: 0 <= r < L.supToCol[k] ==> LowerFrom(L, y, k)[r] == 0.0
    decreases L.nsuper + 1 - k
  {
    if k <= L.nsuper {
      var s := Supernode(L, |y|, k);
      LowerFromAbove(L, y, k + 1);
      LowerPartAbove(L, |y|, s, Segment(s, y));
      assert L.supToCol[k] < L.supToCol[k + 1];
    }
  }

  /** Equal factors give equal products. */
  lemma SameProduct(a: real, b: real, c: real)
    requires a == b
    ensures a * c == b * c
  {
  }

  /** In a singleton supernode, row i of the panel times the one-entry segment
      is the stored value times that entry. */
  lemma SingletonPanelRow(L: SCFormat, n: int, s: Super, seg: seq<real>, p: int)
    requires SupernodeOk(L, n, s) && s.nsupc == 1 && |seg| == 1
    requires s.istart + 1 <= p < s.istart + s.nsupr
    ensures 0 <= s.luptr + (p - s.istart) < |L.nzval|
    ensures RowDot(PanelBlock(L, n, s), p - s.istart - 1, seg, 0, 1) == seg[0] * L.nzval[s.luptr + (p - s.istart)]
  {
    BlocksFit(L, n, s);
    BlockAtEntry(L.nzval, s.luptr + 1, s.nsupr, s.nsupr - 1, 1, p - s.istart - 1, 0);
  }

  /** The forward step of supernode k undone: its input is its output plus the
      supernode's strictly lower columns times the supernode's solved rows. */
  lemma ForwardStepInverse(L: SCFormat, k: int, z: seq<real>)
    requires WellFormedL(L, |z|) && 0 <= k <= L.nsuper
    ensures var s := Supernode(L, |z|, k);
      var y := ForwardSuper(L, k, z);
      z == Add(y, LowerPart(L, |z|, s, Segment(s, y)))
  {
    var s := Supernode(L, |z|, k);
    if s.nsupc == 1 {
      SingletonFits(L, |z|, s);
      SingletonStepInverse(L, s, z);
    } else {
      WideStepInverse(L, s, z);
    }
  }

  // One entry at a time: each lemma below names a single row of a step.

  lemma LowerAtSegment(L: SCFormat, n: int, s: Super, seg: seq<real>, i: int)
    requires SupernodeOk(L, n, s) && |seg| == s.nsupc && 0 <= i < s.nsupc
    ensures LowerPart(L, n, s, seg)[s.fsupc + i] == RowDot(DiagBlock(L, n, s), i, seg, 0, i)
  {
    LowerPanelPartEffect(L, n, s, seg, s.NRow());
  }

  lemma LowerAtPanel(L: SCFormat, n: int, s: Super, seg: seq<real>, p: int)
    requires SupernodeOk(L, n, s) && |seg| == s.nsupc && s.istart + s.nsupc <= p < s.istart + s.nsupr
    ensures LowerPart(L, n, s, seg)[L.rowind[p]] == RowDot(PanelBlock(L, n, s), p - s.istart - s.nsupc, seg, 0, s.nsupc)
  {
    LowerPanelPartEffect(L, n, s, seg, s.NRow());
  }

  lemma LowerAtOther(L: SCFormat, n: int, s: Super, seg: seq<real>, r: int)
    requires SupernodeOk(L, n, s) && |seg| == s.nsupc && 0 <= r < n
    requires !(s.fsupc <= r < s.fsupc + s.nsupc) && !InPanel(L, s, r)
    ensures LowerPart(L, n, s, seg)[r] == 0.0
  {
    LowerPanelPartEffect(L, n, s, seg, s.NRow());
  }

  lemma BlockAtSegment(L: SCFormat, s: Super, x: seq<real>, i: int)
    requires SupernodeOk(L, |x|, s) && 0 <= i < s.nsupc
    ensures BlockForward(L, s, x)[s.fsupc + i] ==
      LowerUnitSolution(DiagBlock(L, |x|, s), x[s.fsupc .. s.fsupc + s.nsupc])[i]
  {
    BlockForwardEffect(L, s, x);
    var y := BlockForward(L, s, x);
    assert y[s.fsupc + i] == y[s.fsupc .. s.fsupc + s.nsupc][i];
  }

  lemma BlockAtPanel(L: SCFormat, s: Super, x: seq<real>, p: int)
    requires SupernodeOk(L, |x|, s) && s.istart + s.nsupc <= p < s.istart + s.nsupr
    ensures var seg := LowerUnitSolution(DiagBlock(L, |x|, s), x[s.fsupc .. s.fsupc + s.nsupc]);
      BlockForward(L, s, x)[L.rowind[p]] == x[L.rowind[p]] - RowDot(PanelBlock(L, |x|, s), p - s.istart - s.nsupc, seg, 0, s.nsupc)
  {
    BlockForwardEffect(L, s, x);
  }

  lemma BlockAtOther(L: SCFormat, s: Super, x: seq<real>, r: int)
    requires SupernodeOk(L, |x|, s) && 0 <= r < |x|
    requires !(s.fsupc <= r < s.fsupc + s.nsupc) && !InPanel(L, s, r)
    ensures BlockForward(L, s, x)[r] == x[r]
  {
    BlockForwardEffect(L, s, x);
  }

  lemma ScalarAtPanel(L: SCFormat, s: Super, x: seq<real>, p: int)
    requires SingletonOk(L, |x|, s) && s.istart + 1 <= p < s.istart + s.nsupr
    ensures ScalarScatter(L, s, x, s.istart + s.nsupr)[L.rowind[p]] == x[L.rowind[p]] - x[s.fsupc] * L.nzval[s.luptr + (p - s.istart)]
  {
    ScalarScatterEffect(L, s, x, s.istart + s.nsupr);
  }

  lemma ScalarAtHead(L: SCFormat, s: Super, x: seq<real>)
    requires SingletonOk(L, |x|, s)
    ensures ScalarScatter(L, s, x, s.istart + s.nsupr)[s.fsupc] == x[s.fsupc]
  {
    ScalarScatterEffect(L, s, x, s.istart + s.nsupr);
  }

  lemma ScalarAtOther(L: SCFormat, s: Super, x: seq<real>, r: int)
    requires SingletonOk(L, |x|, s) && 0 <= r < |x| && !InPanel(L, s, r)
    ensures ScalarScatter(L, s, x, s.istart + s.nsupr)[r] == x[r]
  {
    ScalarScatterEffect(L, s, x, s.istart + s.nsupr);
    if r != s.fsupc {
      forall p | s.istart + 1 <= p < s.istart + s.nsupr
        ensures L.rowind[p] != r
      {
        if L.rowind[p] == r {
          assert InPanel(L, s, r);
        }
      }
    }
  }

  lemma SingletonStepInverse(L: SCFormat, s: Super, z: seq<real>)
    requires SupernodeOk(L, |z|, s) && SingletonOk(L, |z|, s)
    ensures var y := ScalarScatter(L, s, z, s.istart + s.nsupr);
      z == Add(y, LowerPart(L, |z|, s, Segment(s, y)))
  {
    var y := ScalarScatter(L, s, z, s.istart + s.nsupr);
    var v := LowerPart(L, |z|, s, Segment(s, y));
    forall r | 0 <= r < |z|
      ensures z[r] == y[r] + v[r]
    {
      SingletonInverseRow(L, s, z, r);
    }
    AddPointwise(z, y, v);
  }

  lemma SingletonInverseRow(L: SCFormat, s: Super, z: seq<real>, r: int)
    requires SupernodeOk(L, |z|, s) && SingletonOk(L, |z|, s) && 0 <= r < |z|
    ensures var y := ScalarScatter(L, s, z, s.istart + s.nsupr);
      z[r] == y[r] + LowerPart(L, |z|, s, Segment(s, y))[r]
  {
    var y := ScalarScatter(L, s, z, s.istart + s.nsupr);
    var seg := Segment(s, y);
    if r == s.fsupc {
      ScalarAtHead(L, s, z);
      LowerAtSegment(L, |z|, s, seg, 0);
    } else if p :| s.istart + 1 <= p < s.istart + s.nsupr && L.rowind[p] == r {
      SingletonInversePanel(L, s, z, p);
    } else {
      ScalarAtOther(L, s, z, r);
      LowerAtOther(L, |z|, s, seg, r);
    }
  }

  lemma SingletonInversePanel(L: SCFormat, s: Super, z: seq<real>, p: int)
    requires SupernodeOk(L, |z|, s) && SingletonOk(L, |z|, s) && s.istart + 1 <= p < s.istart + s.nsupr
    ensures var y := ScalarScatter(L, s, z, s.istart + s.nsupr);
      var r := L.rowind[p];
      z[r] == y[r] + LowerPart(L, |z|, s, Segment(s, y))[r]
  {
    var y := ScalarScatter(L, s, z, s.istart + s.nsupr);
    var seg := Segment(s, y);
    ScalarAtHead(L, s, z);
    ScalarAtPanel(L, s, z, p);
    LowerAtPanel(L, |z|, s, seg, p);
    SingletonPanelRow(L, |z|, s, seg, p);
    SameProduct(seg[0], z[s.fsupc], L.nzval[s.luptr + (p - s.istart)]);
  }

  lemma WideStepInverse(L: SCFormat, s: Super, z: seq<real>)
    requires SupernodeOk(L, |z|, s)
    ensures var y := BlockForward(L, s, z);
      z == Add(y, LowerPart(L, |z|, s, Segment(s, y)))
  {
    var y := BlockForward(L, s, z);
    var v := LowerPart(L, |z|, s, Segment(s, y));
    forall r | 0 <= r < |z|
      ensures z[r] == y[r] + v[r]
    {
      WideInverseRow(L, s, z, r);
    }
    AddPointwise(z, y, v);
  }

  /** The wide step's output holds, in the supernode's rows, the solution of
      the unit lower diagonal block. */
  lemma WideInverseSegment(L: SCFormat, s: Super, z: seq<real>)
    requires SupernodeOk(L, |z|, s)
    ensures Segment(s, BlockForward(L, s, z)) == LowerUnitSolution(DiagBlock(L, |z|, s), z[s.fsupc .. s.fsupc + s.nsupc])
  {
    var seg := Segment(s, BlockForward(L, s, z));
    forall i | 0 <= i < s.nsupc
      ensures seg[i] == LowerUnitSolution(DiagBlock(L, |z|, s), z[s.fsupc .. s.fsupc + s.nsupc])[i]
    {
      BlockAtSegment(L, s, z, i);
    }
  }

  lemma WideInverseRow(L: SCFormat, s: Super, z: seq<real>, r: int)
    requires SupernodeOk(L, |z|, s) && 0 <= r < |z|
    ensures var y := BlockForward(L, s, z);
      z[r] == y[r] + LowerPart(L, |z|, s, Segment(s, y))[r]
  {
    var n := |z|;
    var y := BlockForward(L, s, z);
    var seg := Segment(s, y);
    var m := DiagBlock(L, n, s);
    var b := z[s.fsupc .. s.fsupc + s.nsupc];
    WideInverseSegment(L, s, z);
    if s.fsupc <= r < s.fsupc + s.nsupc {
      LowerUnitSolves(m, b, r - s.fsupc);
      LowerAtSegment(L, n, s, seg, r - s.fsupc);
    } else if p :| s.istart + s.nsupc <= p < s.istart + s.nsupr && L.rowind[p] == r {
      BlockAtPanel(L, s, z, p);
      LowerAtPanel(L, n, s, seg, p);
    } else {
      BlockAtOther(L, s, z, r);
      LowerAtOther(L, n, s, seg, r);
    }
  }

  /** ... and run forward again on that input, the step gives its output back. */
  lemma ForwardStepUndo(L: SCFormat, k: int, w: seq<real>)
    requires WellFormedL(L, |w|) && 0 <= k <= L.nsuper
    ensures var s := Supernode(L, |w|, k);
      ForwardSuper(L, k, Add(w, LowerPart(L, |w|, s, Segment(s, w)))) == w
  {
    var s := Supernode(L, |w|, k);
    if s.nsupc == 1 {
      SingletonFits(L, |w|, s);
      SingletonStepUndo(L, s, w);
    } else {
      WideStepUndo(L, s, w);
    }
  }

  lemma SingletonStepUndo(L: SCFormat, s: Super, w: seq<real>)
    requires SupernodeOk(L, |w|, s) && SingletonOk(L, |w|, s)
    ensures ScalarScatter(L, s, Add(w, LowerPart(L, |w|, s, Segment(s, w))), s.istart + s.nsupr) == w
  {
    var x := Add(w, LowerPart(L, |w|, s, Segment(s, w)));
    var y := ScalarScatter(L, s, x, s.istart + s.nsupr);
    forall r | 0 <= r < |w|
      ensures y[r] == w[r]
    {
      SingletonUndoRow(L, s, w, r);
    }
  }

  lemma SingletonUndoRow(L: SCFormat, s: Super, w: seq<real>, r: int)
    requires SupernodeOk(L, |w|, s) && SingletonOk(L, |w|, s) && 0 <= r < |w|
    ensures ScalarScatter(L, s, Add(w, LowerPart(L, |w|, s, Segment(s, w))), s.istart + s.nsupr)[r] == w[r]
  {
    var n := |w|;
    var seg := Segment(s, w);
    var x := Add(w, LowerPart(L, n, s, seg));
    if p :| s.istart + 1 <= p < s.istart + s.nsupr && L.rowind[p] == r {
      SingletonUndoPanel(L, s, w, p);
    } else if r == s.fsupc {
      LowerAtSegment(L, n, s, seg, 0);
      ScalarAtHead(L, s, x);
    } else {
      ScalarAtOther(L, s, x, r);
      LowerAtOther(L, n, s, seg, r);
    }
  }

  lemma SingletonUndoPanel(L: SCFormat, s: Super, w: seq<real>, p: int)
    requires SupernodeOk(L, |w|, s) && SingletonOk(L, |w|, s) && s.istart + 1 <= p < s.istart + s.nsupr
    ensures var r := L.rowind[p];
      ScalarScatter(L, s, Add(w, LowerPart(L, |w|, s, Segment(s, w))), s.istart + s.nsupr)[r] == w[r]
  {
    var n := |w|;
    var seg := Segment(s, w);
    var x := Add(w, LowerPart(L, n, s, seg));
    var r := L.rowind[p];
    LowerAtSegment(L, n, s, seg, 0);
    assert x[s.fsupc] == seg[0];
    ScalarAtPanel(L, s, x, p);
    LowerAtPanel(L, n, s, seg, p);
    SingletonPanelRow(L, n, s, seg, p);
    var prod := seg[0] * L.nzval[s.luptr + (p - s.istart)];
    assert x[r] == w[r] + prod;
  }

  lemma WideStepUndo(L: SCFormat, s: Super, w: seq<real>)
    requires SupernodeOk(L, |w|, s)
    ensures BlockForward(L, s, Add(w, LowerPart(L, |w|, s, Segment(s, w)))) == w
  {
    var x := Add(w, LowerPart(L, |w|, s, Segment(s, w)));
    var y := BlockForward(L, s, x);
    forall r | 0 <= r < |w|
      ensures y[r] == w[r]
    {
      WideUndoRow(L, s, w, r);
    }
  }

  /** The unit lower diagonal block solved against the supernode's rows of
      w plus its lower part gives back the supernode's rows of w. */
  lemma WideUndoSegment(L: SCFormat, s: Super, w: seq<real>)
    requires SupernodeOk(L, |w|, s)
    ensures var x := Add(w, LowerPart(L, |w|, s, Segment(s, w)));
      LowerUnitSolution(DiagBlock(L, |w|, s), x[s.fsupc .. s.fsupc + s.nsupc]) == Segment(s, w)
  {
    var n := |w|;
    var seg := Segment(s, w);
    var x := Add(w, LowerPart(L, n, s, seg));
    var m := DiagBlock(L, n, s);
    var b := x[s.fsupc .. s.fsupc + s.nsupc];
    forall i | 0 <= i < s.nsupc
      ensures seg[i] + RowDot(m, i, seg, 0, i) == b[i]
    {
      LowerAtSegment(L, n, s, seg, i);
      assert b[i] == x[s.fsupc + i];
    }
    LowerUnitUnique(m, b, seg);
  }

  lemma WideUndoRow(L: SCFormat, s: Super, w: seq<real>, r: int)
    requires SupernodeOk(L, |w|, s) && 0 <= r < |w|
    ensures BlockForward(L, s, Add(w, LowerPart(L, |w|, s, Segment(s, w))))[r] == w[r]
  {
    var n := |w|;
    var seg := Segment(s, w);
    var x := Add(w, LowerPart(L, n, s, seg));
    WideUndoSegment(L, s, w);
    if s.fsupc <= r < s.fsupc + s.nsupc {
      BlockAtSegment(L, s, x, r - s.fsupc);
    } else if p :| s.istart + s.nsupc <= p < s.istart + s.nsupr && L.rowind[p] == r {
      BlockAtPanel(L, s, x, p);
      LowerAtPanel(L, n, s, seg, p);
    } else {
      BlockAtOther(L, s, x, r);
      LowerAtOther(L, n, s, seg, r);
    }
  }

  /** The state of the forward solve after supernodes 0 .. k-1: the solution y
      plus the contribution of the supernodes not yet eliminated. */
  lemma ForwardStateStep(L: SCFormat, y: seq<real>, k: int)
    requires WellFormedL(L, |y|) && 0 <= k <= L.nsuper
    ensures var s := Supernode(L, |y|, k);
      var next := Add(y, LowerFrom(L, y, k + 1));
      Segment(s, next) == Segment(s, y) &&
      Add(y, LowerFrom(L, y, k)) == Add(next, LowerPart(L, |y|, s, Segment(s, y)))
  {
    var s := Supernode(L, |y|, k);
    LowerFromAbove(L, y, k + 1);
    var next := Add(y, LowerFrom(L, y, k + 1));
    assert forall i :: 0 <= i < s.nsupc ==> Segment(s, next)[i] == next[s.fsupc + i];
  }

  /** Running the forward solve on x, the vector after supernodes 0 .. k-1 is
      the final y plus what supernodes k .. nsuper still have to take off. */
  lemma {:induction false} ForwardTail(L: SCFormat, x: seq<real>, y: seq<real>, k: int)
    requires WellFormedL(L, |x|) && 0 <= k <= L.nsuper + 1 && y == ForwardSolve(L, x)
    ensures ForwardUpTo(L, k, x) == Add(y, LowerFrom(L, y, k))
    decreases L.nsuper + 1 - k
  {
    if k == L.nsuper + 1 {
      assert Add(y, LowerFrom(L, y, k)) == y;
    } else {
      ForwardTail(L, x, y, k + 1);
      ForwardStateStep(L, y, k);
      ForwardSuperInverse(L, k, ForwardUpTo(L, k, x), Add(y, LowerFrom(L, y, k + 1)), y, Add(y, LowerFrom(L, y, k)));
    }
  }

  /** Supernode k maps z to next, whose rows of the supernode are those of y:
      z is next plus the supernode's columns of L times those rows. */
  lemma ForwardSuperInverse(L: SCFormat, k: int, z: seq<real>, next: seq<real>, y: seq<real>, goal: seq<real>)
    requires WellFormedL(L, |z|) && 0 <= k <= L.nsuper && |y| == |z|
    requires ForwardSuper(L, k, z) == next
    requires var s := Supernode(L, |z|, k);
      Segment(s, next) == Segment(s, y) && goal == Add(next, LowerPart(L, |z|, s, Segment(s, y)))
    ensures z == goal
  {
    ForwardStepInverse(L, k, z);
  }

  /** Running the forward solve on L y, the vector after supernodes 0 .. k-1 is
      y plus what supernodes k .. nsuper add. */
  lemma {:induction false} ForwardHead(L: SCFormat, y: seq<real>, x: seq<real>, k: int)
    requires WellFormedL(L, |y|) && 0 <= k <= L.nsuper + 1 && x == LowerTimes(L, y)
    ensures ForwardUpTo(L, k, x) == Add(y, LowerFrom(L, y, k))
    decreases k
  {
    if k > 0 {
      ForwardHead(L, y, x, k - 1);
      ForwardStateStep(L, y, k - 1);
      ForwardSuperUndo(L, k - 1, Add(y, LowerFrom(L, y, k)), y, Add(y, LowerFrom(L, y, k - 1)));
    }
  }

  /** Supernode k undoes the addition of its columns of L times the rows of
      the supernode, which w shares with y. */
  lemma ForwardSuperUndo(L: SCFormat, k: int, w: seq<real>, y: seq<real>, cur: seq<real>)
    requires WellFormedL(L, |w|) && 0 <= k <= L.nsuper && |y| == |w|
    requires var s := Supernode(L, |w|, k);
      Segment(s, w) == Segment(s, y) && cur == Add(w, LowerPart(L, |w|, s, Segment(s, y)))
    ensures ForwardSuper(L, k, cur) == w
  {
    ForwardStepUndo(L, k, w);
  }

  /** The forward solve solves L y = x ... */
  lemma ForwardSolveSolves(L: SCFormat, x: seq<real>)
    requires WellFormedL(L, |x|)
    ensures LowerTimes(L, ForwardSolve(L, x)) == x
  {
    ForwardTail(L, x, ForwardSolve(L, x), 0);
  }

  /** ... and its solution is the only one. */
  lemma ForwardSolveUnique(L: SCFormat, y: seq<real>)
    requires WellFormedL(L, |y|)
    ensures ForwardSolve(L, LowerTimes(L, y)) == y
  {
    ForwardHead(L, y, LowerTimes(L, y), L.nsuper + 1);
    assert Add(y, LowerFrom(L, y, L.nsuper + 1)) == y;
  }
}

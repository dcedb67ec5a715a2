/** The supernode walker: what the solve reads of supernode k, and the
    well-formedness of the L and U storage that the solve relies on. */
module Supernodes {
  import opened SuperMatrices
  import opened DenseKernels
  import opened ColumnMajor

  /** The quantities the solve derives for one supernode: its first column, the
      start and length of its row-subscript run, its column count and the start
      of its numeric block. */
  datatype Super = Super(fsupc: int, istart: int, nsupr: int, nsupc: int, luptr: int)
  {
    /** Rows of the below-diagonal panel. */
    function NRow(): int { nsupr - nsupc }
  }

  /** Columns 0..n-1 are split into the supernodes 0..nsuper by a strictly
      increasing boundary list from 0 to n. */
  predicate Partitioned(L: SCFormat, n: int)
  {
    0 <= n && -1 <= L.nsuper &&
    |L.supToCol| == L.nsuper + 2 && |L.rowindColptr| == n + 1 && |L.nzvalColptr| == n + 1 &&
    L.supToCol[0] == 0 && L.supToCol[L.nsuper + 1] == n &&
    forall i, j :: 0 <= i < j < |L.supToCol| ==> L.supToCol[i] < L.supToCol[j]
  }

  /** Supernode k as the solve reads it (dgstrs.c:189-193 and 268-272). */
  function Supernode(L: SCFormat, n: int, k: int): (s: Super)
    requires Partitioned(L, n) && 0 <= k <= L.nsuper
    ensures 0 <= s.fsupc && 1 <= s.nsupc && s.fsupc + s.nsupc <= n
  {
    var fsupc := L.supToCol[k];
    var istart := L.rowindColptr[fsupc];
    Super(fsupc, istart, L.rowindColptr[fsupc + 1] - istart, L.supToCol[k + 1] - fsupc, L.nzvalColptr[fsupc])
  }

  /** The storage of one supernode: its subscripts lie in rowind, the first nsupc
      of them are the supernode's own columns, the panel rows lie strictly below
      the supernode and are distinct, and its nsupr x nsupc block lies in nzval. */
  predicate SupernodeOk(L: SCFormat, n: int, s: Super)
  {
    SubscriptsOk(L, n, s) && 0 <= s.luptr && s.luptr + s.nsupc * s.nsupr <= |L.nzval|
  }

  /** The subscript half of SupernodeOk. */
  predicate SubscriptsOk(L: SCFormat, n: int, s: Super)
  {
    0 <= s.fsupc && 1 <= s.nsupc && s.fsupc + s.nsupc <= n &&
    0 <= s.istart && s.nsupc <= s.nsupr && s.istart + s.nsupr <= |L.rowind| && s.fsupc + s.nsupr <= n &&
    (forall p :: s.istart <= p < s.istart + s.nsupc ==> L.rowind[p] == s.fsupc + (p - s.istart)) &&
    (forall p :: s.istart + s.nsupc <= p < s.istart + s.nsupr ==> s.fsupc + s.nsupc <= L.rowind[p] < n) &&
    (forall p, q :: s.istart + s.nsupc <= p < q < s.istart + s.nsupr ==> L.rowind[p] != L.rowind[q])
  }

  /** A single-column supernode: its one column of nsupr values lies in nzval. */
  predicate SingletonOk(L: SCFormat, n: int, s: Super)
  {
    SubscriptsOk(L, n, s) && s.nsupc == 1 && 0 <= s.luptr && s.luptr + s.nsupr <= |L.nzval|
  }

  lemma SingletonFits(L: SCFormat, n: int, s: Super)
    requires SupernodeOk(L, n, s) && s.nsupc == 1
    ensures SingletonOk(L, n, s)
  {
  }

  /** L is a well-formed supernodal factor of order n. */
  predicate WellFormedL(L: SCFormat, n: int)
  {
    Partitioned(L, n) &&
    forall k :: 0 <= k <= L.nsuper ==> SupernodeOk(L, n, Supernode(L, n, k))
  }

  lemma BlocksFit(L: SCFormat, n: int, s: Super)
    requires SupernodeOk(L, n, s)
    ensures s.luptr + (s.nsupc - 1) * s.nsupr + s.nsupc <= |L.nzval|
    ensures s.luptr + s.nsupc + (s.nsupc - 1) * s.nsupr + (s.nsupr - s.nsupc) <= |L.nzval|
  {
    assert (s.nsupc - 1) * s.nsupr == s.nsupc * s.nsupr - s.nsupr;
  }

  /** The nsupc x nsupc diagonal block of the supernode: unit lower triangle of L
      below its diagonal, U's diagonal and upper triangle on and above it. */
  function DiagBlock(L: SCFormat, n: int, s: Super): (m: Block)
    requires SupernodeOk(L, n, s)
    ensures Square(m) && m.Cols() == s.nsupc
  {
    BlocksFit(L, n, s);
    BlockAt(L.nzval, s.luptr, s.nsupr, s.nsupc, s.nsupc)
  }

  /** The (nsupr - nsupc) x nsupc panel below the diagonal block. */
  function PanelBlock(L: SCFormat, n: int, s: Super): (m: Block)
    requires SupernodeOk(L, n, s)
    ensures ValidBlock(m) && m.rows == s.NRow() && m.Cols() == s.nsupc
  {
    BlocksFit(L, n, s);
    BlockAt(L.nzval, s.luptr + s.nsupc, s.nsupr, s.nsupr - s.nsupc, s.nsupc)
  }

  /** The first stored value of the supernode is entry (0, 0) of its diagonal block. */
  lemma FirstDiagonal(L: SCFormat, n: int, s: Super)
    requires SupernodeOk(L, n, s)
    ensures 0 <= s.luptr < |L.nzval| && L.nzval[s.luptr] == At(DiagBlock(L, n, s), 0, 0)
  {
    BlocksFit(L, n, s);
    BlockAtEntry(L.nzval, s.luptr, s.nsupr, s.nsupc, s.nsupc, 0, 0);
  }

  /** Every diagonal entry of every supernode's diagonal block (the diagonal of U)
      is nonzero: the factorization is nonsingular. */
  predicate NonSingular(L: SCFormat, n: int)
    requires WellFormedL(L, n)
  {
    forall k :: 0 <= k <= L.nsuper ==> NonzeroDiagonal(DiagBlock(L, n, Supernode(L, n, k)))
  }

  /** U is a well-formed compressed-column factor of order n whose entries in the
      columns of supernode k lie in rows above that supernode. */
  predicate WellFormedU(U: NCFormat, L: SCFormat, n: int)
    requires Partitioned(L, n)
  {
    |U.colptr| == n + 1 && 0 <= U.colptr[0] && U.colptr[n] <= |U.rowind| && U.colptr[n] <= |U.nzval| &&
    (forall i, j :: 0 <= i <= j <= n ==> U.colptr[i] <= U.colptr[j]) &&
    (forall k, p :: 0 <= k <= L.nsuper && U.colptr[L.supToCol[k]] <= p < U.colptr[L.supToCol[k + 1]] ==>
       0 <= U.rowind[p] < L.supToCol[k])
  }

  /** An entry of U in a column of supernode k lies above the supernode. */
  lemma UEntryAbove(U: NCFormat, L: SCFormat, n: int, k: int, jcol: int, p: int)
    requires Partitioned(L, n) && WellFormedU(U, L, n) && 0 <= k <= L.nsuper
    requires L.supToCol[k] <= jcol < L.supToCol[k + 1] && U.colptr[jcol] <= p < U.colptr[jcol + 1]
    ensures 0 <= U.rowind[p] < L.supToCol[k] && p < |U.nzval|
  {
    assert L.supToCol[k + 1] <= n;
    assert U.colptr[L.supToCol[k]] <= U.colptr[jcol];
    assert U.colptr[jcol + 1] <= U.colptr[L.supToCol[k + 1]];
  }

  /** Column jcol of U is stored in colptr[jcol] .. colptr[jcol+1]-1 and all of
      its entries lie strictly above the diagonal. */
  predicate ColumnOk(U: NCFormat, n: int, jcol: int)
  {
    0 <= jcol < n && |U.colptr| == n + 1 &&
    0 <= U.colptr[jcol] <= U.colptr[jcol + 1] <= |U.rowind| && U.colptr[jcol + 1] <= |U.nzval| &&
    forall p :: U.colptr[jcol] <= p < U.colptr[jcol + 1] ==> 0 <= U.rowind[p] < jcol
  }

  /** Every column of a supernode is a well-formed strictly upper column of U. */
  lemma SupernodeColumnsOk(U: NCFormat, L: SCFormat, n: int, k: int)
    requires Partitioned(L, n) && WellFormedU(U, L, n) && 0 <= k <= L.nsuper
    ensures forall jcol :: L.supToCol[k] <= jcol < L.supToCol[k + 1] ==> ColumnOk(U, n, jcol)
  {
    forall jcol | L.supToCol[k] <= jcol < L.supToCol[k + 1]
      ensures ColumnOk(U, n, jcol)
    {
      assert 0 <= L.supToCol[k] && L.supToCol[k + 1] <= n;
      assert U.colptr[jcol] <= U.colptr[jcol + 1] && U.colptr[jcol + 1] <= U.colptr[n];
      forall p | U.colptr[jcol] <= p < U.colptr[jcol + 1]
        ensures 0 <= U.rowind[p] < jcol
      {
        UEntryAbove(U, L, n, k, jcol, p);
      }
    }
  }

  /** The factors L and U of order n as the triangular solve needs them. */
  predicate Factors(L: SCFormat, U: NCFormat, n: int)
  {
    WellFormedL(L, n) && NonSingular(L, n) && WellFormedU(U, L, n)
  }
}

/** SuperLU's matrix descriptors, reduced to what the triangular solve reads:
    the three type tags, the shape and the storage record of each matrix. */
module SuperMatrices {

  /** Storage scheme: compressed column, compressed row, supernodal column,
      supernodal row, permuted compressed column, dense. */
  datatype Stype = NC | NR | SC | SR | NCP | DN

  /** Element type: single, double, single complex, double complex. */
  datatype Dtype = D_S | D_D | D_C | D_Z

  /** Mathematical kind: general, lower triangular with unit diagonal, upper
      triangular with unit diagonal, lower triangular, upper triangular,
      symmetric lower/upper, Hermitian lower/upper. */
  datatype Mtype = GE | TRLU | TRUU | TRL | TRU | SYL | SYU | HEL | HEU

  /** The header every matrix carries, with its storage record. */
  datatype SuperMatrix<S> = SuperMatrix(stype: Stype, dtype: Dtype, mtype: Mtype, nrow: int, ncol: int, store: S)

  /** Supernodal storage of L (the SC scheme). Supernode k covers columns
      supToCol[k] .. supToCol[k+1]-1. For the first column fsupc of a supernode,
      rowind[rowindColptr[fsupc] .. rowindColptr[fsupc+1]) lists the row
      subscripts of the supernode and nzval[nzvalColptr[fsupc] ..] holds its
      dense column-major block, whose leading dimension is the number of
      subscripts. The diagonal block also carries the diagonal of U. */
  datatype SCFormat = SCFormat(
    nsuper: int,
    nzval: seq<real>,
    nzvalColptr: seq<int>,
    rowind: seq<int>,
    rowindColptr: seq<int>,
    supToCol: seq<int>)

  /** Compressed-column storage of the strictly upper part of U outside the
      supernodal diagonal blocks: column j has the entries
      colptr[j] .. colptr[j+1]-1 of rowind and nzval. */
  datatype NCFormat = NCFormat(nzval: seq<real>, rowind: seq<int>, colptr: seq<int>)

  /** Dense column-major storage of B with leading dimension lda; the solve
      overwrites its values in place. */
  datatype DNFormat = DNFormat(lda: int, nzval: array<real>)

  /** The solver statistics the solve publishes its operation count to. */
  class SuperLUStat {
    var solveOps: int
  }
}

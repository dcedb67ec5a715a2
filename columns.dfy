/** Column-major dense storage of the right-hand-side matrix B.
    Column j of B occupies the slots [j*ldb, j*ldb + ldb) of the flat buffer;
    its first n slots are the live rows, the rest is padding up to the leading
    dimension, and everything from nrhs*ldb on is past the last column. */
module ColumnMajor {

  /** a*k grows with a when k is not negative. */
  lemma MulMonotone(a: int, b: int, k: int)
    requires 0 <= a <= b && 0 <= k
    ensures 0 <= a * k <= b * k
  {
  }

  lemma MulNext(j: int, k: int)
    ensures (j + 1) * k == j * k + k
  {
  }

  /** The shape every phase of the solve relies on: n <= ldb and room for nrhs columns. */
  predicate Layout(len: int, ldb: int, n: int, nrhs: int)
  {
    0 <= n <= ldb && 0 <= nrhs && nrhs * ldb <= len
  }

  lemma ColumnBounds(ldb: int, nrhs: int, j: int)
    requires 0 <= ldb && 0 <= j < nrhs
    ensures 0 <= j * ldb && j * ldb + ldb <= nrhs * ldb
  {
    MulMonotone(j + 1, nrhs, ldb);
    assert (j + 1) * ldb == j * ldb + ldb;
    MulMonotone(0, j, ldb);
  }

  /** Two different columns occupy disjoint slot ranges. */
  lemma ColumnsApart(ldb: int, c: int, j: int)
    requires 0 <= ldb && 0 <= c < j
    ensures c * ldb + ldb <= j * ldb
  {
    MulMonotone(c + 1, j, ldb);
    assert (c + 1) * ldb == c * ldb + ldb;
  }

  /** The n live rows of column j. */
  function Col(b: seq<real>, ldb: int, n: int, nrhs: int, j: int): (c: seq<real>)
    requires Layout(|b|, ldb, n, nrhs) && 0 <= j < nrhs
    ensures |c| == n
  {
    ColumnBounds(ldb, nrhs, j);
    b[j * ldb .. j * ldb + n]
  }

  /** The live rows of every column, in column order. */
  function Columns(b: seq<real>, ldb: int, n: int, nrhs: int): (cs: seq<seq<real>>)
    requires Layout(|b|, ldb, n, nrhs)
    ensures |cs| == nrhs && forall c :: 0 <= c < nrhs ==> cs[c] == Col(b, ldb, n, nrhs, c)
  {
    seq(nrhs, c requires 0 <= c < nrhs => Col(b, ldb, n, nrhs, c))
  }

  /** Every entry of a scratch vector is zero. */
  predicate Zeros(s: seq<real>)
  {
    forall i :: 0 <= i < |s| ==> s[i] == 0.0
  }

  /** The padding rows n..ldb-1 of column j. */
  function Pad(b: seq<real>, ldb: int, n: int, nrhs: int, j: int): (p: seq<real>)
    requires Layout(|b|, ldb, n, nrhs) && 0 <= j < nrhs
    ensures |p| == ldb - n
  {
    ColumnBounds(ldb, nrhs, j);
    b[j * ldb + n .. j * ldb + ldb]
  }

  /** Everything after the last column. */
  function Tail(b: seq<real>, ldb: int, n: int, nrhs: int): seq<real>
    requires Layout(|b|, ldb, n, nrhs)
  {
    b[nrhs * ldb ..]
  }

  /** b agrees with prev everywhere outside the slots [off, off+len). */
  predicate SameOutside(b: seq<real>, prev: seq<real>, off: int, len: int)
  {
    |b| == |prev| &&
    forall t :: 0 <= t < |b| && !(off <= t < off + len) ==> b[t] == prev[t]
  }

  /** x with the slots [lo, lo+|seg|) replaced by seg. */
  function Splice(x: seq<real>, lo: int, seg: seq<real>): (r: seq<real>)
    requires 0 <= lo && lo + |seg| <= |x|
    ensures |r| == |x| && r[lo .. lo + |seg|] == seg
    ensures forall t :: 0 <= t < |x| && !(lo <= t < lo + |seg|) ==> r[t] == x[t]
    ensures forall t :: lo <= t < lo + |seg| ==> r[t] == seg[t - lo]
  {
    x[.. lo] + seg + x[lo + |seg| ..]
  }

  /** One assignment inside the slots [off, off+n) changes that slice at one
      place and nothing outside it. */
  lemma SliceAssign(pre: seq<real>, post: seq<real>, off: int, n: int, i: int, v: real)
    requires 0 <= off && off + n <= |pre| && 0 <= i < n && post == pre[off + i := v]
    ensures post[off .. off + n] == pre[off .. off + n][i := v]
    ensures SameOutside(post, pre, off, n)
  {
  }

  lemma SliceOfSlice(a: seq<real>, off: int, n: int, lo: int, len: int)
    requires 0 <= off && off + n <= |a| && 0 <= lo && 0 <= len && lo + len <= n
    ensures a[off + lo .. off + lo + len] == a[off .. off + n][lo .. lo + len]
  {
    var p := a[off + lo .. off + lo + len];
    var q := a[off .. off + n][lo .. lo + len];
    forall t | 0 <= t < len
      ensures p[t] == q[t]
    {
      assert a[off .. off + n][lo + t] == a[off + lo + t];
    }
  }

  /** Rewriting slots [off+lo, off+lo+|seg|) to seg splices seg into the
      column at [off, off+n). */
  lemma SpliceSlice(before: seq<real>, after: seq<real>, off: int, n: int, lo: int, seg: seq<real>)
    requires 0 <= off && off + n <= |before| == |after| && 0 <= lo && lo + |seg| <= n
    requires after[off + lo .. off + lo + |seg|] == seg && SameOutside(after, before, off + lo, |seg|)
    ensures after[off .. off + n] == Splice(before[off .. off + n], lo, seg)
    ensures SameOutside(after, before, off, n)
  {
    var x1 := Splice(before[off .. off + n], lo, seg);
    forall t | 0 <= t < n
      ensures after[off + t] == x1[t]
    {
      if lo <= t < lo + |seg| {
        assert after[off + t] == after[off + lo .. off + lo + |seg|][t - lo];
      }
    }
  }

  lemma SameOutsideThen(b0: seq<real>, b1: seq<real>, b2: seq<real>, off: int, len: int)
    requires SameOutside(b1, b0, off, len) && SameOutside(b2, b1, off, len)
    ensures SameOutside(b2, b0, off, len)
  {
  }

  /** Columns 0..done-1 of b hold want, the other columns, every padding row and
      the tail still hold what prev held. */
  predicate Updated(b: seq<real>, prev: seq<real>, ldb: int, n: int, nrhs: int, done: int, want: seq<seq<real>>)
  {
    |b| == |prev| && Layout(|b|, ldb, n, nrhs) && |want| == nrhs && 0 <= done <= nrhs &&
    (forall c :: 0 <= c < done ==> Col(b, ldb, n, nrhs, c) == want[c]) &&
    (forall c :: done <= c < nrhs ==> Col(b, ldb, n, nrhs, c) == Col(prev, ldb, n, nrhs, c)) &&
    (forall c :: 0 <= c < nrhs ==> Pad(b, ldb, n, nrhs, c) == Pad(prev, ldb, n, nrhs, c)) &&
    Tail(b, ldb, n, nrhs) == Tail(prev, ldb, n, nrhs)
  }

  /** Rewriting only the live rows of column j, to want[j], extends Updated by one column. */
  lemma UpdatedStep(b: seq<real>, b2: seq<real>, prev: seq<real>, ldb: int, n: int, nrhs: int, j: int, want: seq<seq<real>>)
    requires Updated(b, prev, ldb, n, nrhs, j, want) && j < nrhs
    requires 0 <= j * ldb && j * ldb + n <= |b|
    requires SameOutside(b2, b, j * ldb, n)
    requires b2[j * ldb .. j * ldb + n] == want[j]
    ensures Updated(b2, prev, ldb, n, nrhs, j + 1, want)
  {
    ColumnBounds(ldb, nrhs, j);
    forall c | 0 <= c < nrhs && c != j
      ensures Col(b2, ldb, n, nrhs, c) == Col(b, ldb, n, nrhs, c)
    {
      OtherColumnKept(b, b2, ldb, n, nrhs, j, c);
    }
    forall c | 0 <= c < nrhs
      ensures Pad(b2, ldb, n, nrhs, c) == Pad(b, ldb, n, nrhs, c)
    {
      PadKept(b, b2, ldb, n, nrhs, j, c);
    }
    assert forall t :: nrhs * ldb <= t < |b| ==> b2[t] == b[t];
    assert Tail(b2, ldb, n, nrhs) == Tail(b, ldb, n, nrhs);
  }

  lemma OtherColumnKept(b: seq<real>, b2: seq<real>, ldb: int, n: int, nrhs: int, j: int, c: int)
    requires Layout(|b|, ldb, n, nrhs) && 0 <= j < nrhs && 0 <= c < nrhs && c != j
    requires SameOutside(b2, b, j * ldb, n)
    ensures Col(b2, ldb, n, nrhs, c) == Col(b, ldb, n, nrhs, c)
  {
    ColumnBounds(ldb, nrhs, c);
    if c < j { ColumnsApart(ldb, c, j); } else { ColumnsApart(ldb, j, c); }
    assert forall t :: c * ldb <= t < c * ldb + n ==> b2[t] == b[t];
  }

  lemma PadKept(b: seq<real>, b2: seq<real>, ldb: int, n: int, nrhs: int, j: int, c: int)
    requires Layout(|b|, ldb, n, nrhs) && 0 <= j < nrhs && 0 <= c < nrhs
    requires SameOutside(b2, b, j * ldb, n)
    ensures Pad(b2, ldb, n, nrhs, c) == Pad(b, ldb, n, nrhs, c)
  {
    ColumnBounds(ldb, nrhs, c);
    if c < j { ColumnsApart(ldb, c, j); } else if c > j { ColumnsApart(ldb, j, c); }
    assert forall t :: c * ldb + n <= t < c * ldb + ldb ==> b2[t] == b[t];
  }

  /** A buffer with every column updated holds want as its columns. */
  lemma UpdatedColumns(b: seq<real>, prev: seq<real>, ldb: int, n: int, nrhs: int, want: seq<seq<real>>)
    requires Updated(b, prev, ldb, n, nrhs, nrhs, want)
    ensures Columns(b, ldb, n, nrhs) == want
  {
  }

  /** Updated composes: a second pass over the columns of an already updated buffer. */
  lemma UpdatedThen(b0: seq<real>, b1: seq<real>, b2: seq<real>, ldb: int, n: int, nrhs: int, want1: seq<seq<real>>, want2: seq<seq<real>>)
    requires Updated(b1, b0, ldb, n, nrhs, nrhs, want1)
    requires Updated(b2, b1, ldb, n, nrhs, nrhs, want2)
    ensures Updated(b2, b0, ldb, n, nrhs, nrhs, want2)
  {
  }
}

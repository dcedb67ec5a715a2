/** The row permutations of the right-hand sides: the scatter that forms Pr*B
    (or Pc'*B) before the triangular solves and the gather that forms Pc*X (or
    Pr'*X) after them (dgstrs.c:181-185, 319-323, 329-333, 348-352). Both go
    through the scratch vector soln. */
module Permutations {
  import opened ColumnMajor

  /** p lists every index 0 .. n-1 exactly once. */
  predicate IsPermutation(p: seq<int>, n: int)
  {
    |p| == n &&
    (forall k :: 0 <= k < n ==> 0 <= p[k] < n) &&
    (forall i, j :: 0 <= i < j < n ==> p[i] != p[j]) &&
    (forall r :: 0 <= r < n ==> Hits(p, r))
  }

  /** Some position of p holds r. */
  predicate Hits(p: seq<int>, r: int)
  {
    exists k :: 0 <= k < |p| && p[k] == r
  }

  /** The first position at or after i that holds r. */
  function IndexFrom(p: seq<int>, r: int, i: int): (k: int)
    requires 0 <= i && exists k :: i <= k < |p| && p[k] == r
    ensures i <= k < |p| && p[k] == r
    decreases |p| - i
  {
    if p[i] == r then i else IndexFrom(p, r, i + 1)
  }

  /** The inverse permutation: position r holds the k with p[k] == r. */
  function Inverse(p: seq<int>): (q: seq<int>)
    requires IsPermutation(p, |p|)
    ensures |q| == |p| && forall r :: 0 <= r < |p| ==> 0 <= q[r] < |p| && p[q[r]] == r
  {
    seq(|p|, r requires 0 <= r < |p| => IndexOf(p, r))
  }

  /** The position of p that holds r. */
  function IndexOf(p: seq<int>, r: int): (k: int)
    requires Hits(p, r)
    ensures 0 <= k < |p| && p[k] == r
  {
    IndexFrom(p, r, 0)
  }

  /** The gather of dgstrs.c:321 over a whole column: entry k of the result is
      x[p[k]]. */
  function Gather(p: seq<int>, x: seq<real>): (y: seq<real>)
    requires IsPermutation(p, |x|)
    ensures |y| == |x|
  {
    seq(|x|, k requires 0 <= k < |x| => x[p[k]])
  }

  /** The scatter of dgstrs.c:183 over a whole column, in closed form: the
      gather by the inverse permutation. */
  function Scatter(p: seq<int>, x: seq<real>): (y: seq<real>)
    requires IsPermutation(p, |x|)
    ensures |y| == |x|
  {
    var q := Inverse(p);
    assert IsPermutation(q, |x|) by { InverseIsPermutation(p); }
    Gather(q, x)
  }

  lemma InverseIsPermutation(p: seq<int>)
    requires IsPermutation(p, |p|)
    ensures IsPermutation(Inverse(p), |p|)
  {
    var q := Inverse(p);
    forall k | 0 <= k < |p|
      ensures Hits(q, k)
    {
      var r := p[k];
      assert p[q[r]] == r;
      assert q[r] == k;
    }
  }

  /** The scatter puts x[k] in slot p[k]. */
  lemma ScatterPlaces(p: seq<int>, x: seq<real>)
    requires IsPermutation(p, |x|)
    ensures forall k :: 0 <= k < |x| ==> Scatter(p, x)[p[k]] == x[k]
  {
    var q := Inverse(p);
    forall k | 0 <= k < |x|
      ensures Scatter(p, x)[p[k]] == x[k]
    {
      assert p[q[p[k]]] == p[k];
    }
  }

  /** Gathering by p undoes scattering by p ... */
  lemma GatherScatter(p: seq<int>, x: seq<real>)
    requires IsPermutation(p, |x|)
    ensures Gather(p, Scatter(p, x)) == x
  {
    ScatterPlaces(p, x);
  }

  /** ... and scattering by p undoes gathering by p. */
  lemma ScatterGather(p: seq<int>, x: seq<real>)
    requires IsPermutation(p, |x|)
    ensures Scatter(p, Gather(p, x)) == x
  {
    var g := Gather(p, x);
    var y := Scatter(p, g);
    ScatterPlaces(p, g);
    forall r | 0 <= r < |x|
      ensures y[r] == x[r]
    {
      assert Hits(p, r);
      var k :| 0 <= k < |x| && p[k] == r;
      assert y[p[k]] == g[k];
    }
  }

  /** dgstrs.c:183 as the loop runs it, for k below upto, on the scratch vector
      soln: slot p[k] receives x[k]. */
  function ScatterInto(p: seq<int>, x: seq<real>, soln: seq<real>, upto: int): (y: seq<real>)
    requires IsPermutation(p, |x|) && |soln| == |x| && 0 <= upto <= |x|
    ensures |y| == |x|
    decreases upto
  {
    if upto == 0 then soln else ScatterInto(p, x, soln, upto - 1)[p[upto - 1] := x[upto - 1]]
  }

  /** After k passes the slots p[0 .. k-1] hold their entries of x and every
      other slot still holds what soln held. */
  lemma {:induction false} ScatterIntoEffect(p: seq<int>, x: seq<real>, soln: seq<real>, upto: int)
    requires IsPermutation(p, |x|) && |soln| == |x| && 0 <= upto <= |x|
    ensures var y := ScatterInto(p, x, soln, upto);
      (forall k :: 0 <= k < upto ==> y[p[k]] == x[k]) &&
      (forall r :: 0 <= r < |x| && (forall k :: 0 <= k < upto ==> p[k] != r) ==> y[r] == soln[r])
    decreases upto
  {
    if upto > 0 {
      ScatterIntoEffect(p, x, soln, upto - 1);
    }
  }

  /** Once the scatter loop has run to the end, soln holds the scatter of x,
      whatever it held before: the scratch vector need not be initialised. */
  lemma ScatterIntoIsScatter(p: seq<int>, x: seq<real>, soln: seq<real>)
    requires IsPermutation(p, |x|) && |soln| == |x|
    ensures ScatterInto(p, x, soln, |x|) == Scatter(p, x)
  {
    var y := ScatterInto(p, x, soln, |x|);
    ScatterIntoEffect(p, x, soln, |x|);
    ScatterPlaces(p, x);
    forall r | 0 <= r < |x|
      ensures y[r] == Scatter(p, x)[r]
    {
      assert Hits(p, r);
      var k :| 0 <= k < |x| && p[k] == r;
      assert y[p[k]] == x[k];
    }
  }

  /** dgstrs.c:182-184: the column at b[off .. off+n) is scattered by p through
      soln; soln ends holding the same values. */
  method ScatterColumn(p: seq<int>, b: array<real>, off: int, n: int, soln: array<real>)
    requires IsPermutation(p, n) && 0 <= off && off + n <= b.Length && soln.Length == n && b != soln
    modifies b, soln
    ensures b[off .. off + n] == Scatter(p, old(b[off .. off + n]))
    ensures soln[..] == b[off .. off + n]
    ensures SameOutside(b[..], old(b[..]), off, n)
  {
    ghost var x := b[off .. off + n];
    ghost var s0 := soln[..];
    var k := 0;
    while k < n
      invariant 0 <= k <= n && b[..] == old(b[..])
      invariant soln[..] == ScatterInto(p, x, s0, k)
    {
      soln[p[k]] := b[off + k];
      k := k + 1;
    }
    ScatterIntoIsScatter(p, x, s0);
    CopyBack(b, off, soln[..]);
  }

  /** dgstrs.c:320-322: the column at b[off .. off+n) is gathered by p through
      soln. */
  method GatherColumn(p: seq<int>, b: array<real>, off: int, n: int, soln: array<real>)
    requires IsPermutation(p, n) && 0 <= off && off + n <= b.Length && soln.Length == n && b != soln
    modifies b, soln
    ensures b[off .. off + n] == Gather(p, old(b[off .. off + n]))
    ensures soln[..] == b[off .. off + n]
    ensures SameOutside(b[..], old(b[..]), off, n)
  {
    ghost var x := b[off .. off + n];
    var k := 0;
    while k < n
      invariant 0 <= k <= n && b[..] == old(b[..])
      invariant forall i :: 0 <= i < k ==> soln[i] == x[p[i]]
    {
      soln[k] := b[off + p[k]];
      k := k + 1;
    }
    assert soln[..] == Gather(p, x);
    CopyBack(b, off, soln[..]);
  }

  /** The second loop of each permutation: copy v (the contents of soln) back
      over the column b[off .. off+|v|). */
  method CopyBack(b: array<real>, off: int, v: seq<real>)
    requires 0 <= off && off + |v| <= b.Length
    modifies b
    ensures b[off .. off + |v|] == v
    ensures SameOutside(b[..], old(b[..]), off, |v|)
  {
    var k := 0;
    while k < |v|
      invariant 0 <= k <= |v|
      invariant forall i :: 0 <= i < k ==> b[off + i] == v[i]
      invariant SameOutside(b[..], old(b[..]), off, |v|)
    {
      b[off + k] := v[k];
      k := k + 1;
    }
    assert forall i :: 0 <= i < |v| ==> b[off .. off + |v|][i] == v[i];
  }

  ghost function ScatterEach(p: seq<int>, n: int, cs: seq<seq<real>>): (r: seq<seq<real>>)
    requires IsPermutation(p, n) && forall c :: 0 <= c < |cs| ==> |cs[c]| == n
    ensures |r| == |cs| && forall c :: 0 <= c < |cs| ==> r[c] == Scatter(p, cs[c])
  {
    seq(|cs|, c requires 0 <= c < |cs| => Scatter(p, cs[c]))
  }

  ghost function GatherEach(p: seq<int>, n: int, cs: seq<seq<real>>): (r: seq<seq<real>>)
    requires IsPermutation(p, n) && forall c :: 0 <= c < |cs| ==> |cs[c]| == n
    ensures |r| == |cs| && forall c :: 0 <= c < |cs| ==> r[c] == Gather(p, cs[c])
  {
    seq(|cs|, c requires 0 <= c < |cs| => Gather(p, cs[c]))
  }

  /** dgstrs.c:181-185 (and 329-333): every column scattered by p. */
  method ScatterRows(p: seq<int>, b: array<real>, ldb: int, n: int, nrhs: int, soln: array<real>)
    requires IsPermutation(p, n) && Layout(b.Length, ldb, n, nrhs) && soln.Length == n && b != soln
    modifies b, soln
    ensures Updated(b[..], old(b[..]), ldb, n, nrhs, nrhs, ScatterEach(p, n, Columns(old(b[..]), ldb, n, nrhs)))
  {
    ghost var prev := b[..];
    ghost var want := ScatterEach(p, n, Columns(prev, ldb, n, nrhs));
    var i := 0;
    while i < nrhs
      invariant 0 <= i <= nrhs
      invariant Updated(b[..], prev, ldb, n, nrhs, i, want)
    {
      ColumnBounds(ldb, nrhs, i);
      ghost var pre := b[..];
      assert pre[i * ldb .. i * ldb + n] == Col(prev, ldb, n, nrhs, i);
      ScatterColumn(p, b, i * ldb, n, soln);
      UpdatedStep(pre, b[..], prev, ldb, n, nrhs, i, want);
      i := i + 1;
    }
  }

  /** dgstrs.c:319-323 (and 348-352): every column gathered by p. */
  method GatherRows(p: seq<int>, b: array<real>, ldb: int, n: int, nrhs: int, soln: array<real>)
    requires IsPermutation(p, n) && Layout(b.Length, ldb, n, nrhs) && soln.Length == n && b != soln
    modifies b, soln
    ensures Updated(b[..], old(b[..]), ldb, n, nrhs, nrhs, GatherEach(p, n, Columns(old(b[..]), ldb, n, nrhs)))
  {
    ghost var prev := b[..];
    ghost var want := GatherEach(p, n, Columns(prev, ldb, n, nrhs));
    var i := 0;
    while i < nrhs
      invariant 0 <= i <= nrhs
      invariant Updated(b[..], prev, ldb, n, nrhs, i, want)
    {
      ColumnBounds(ldb, nrhs, i);
      ghost var pre := b[..];
      assert pre[i * ldb .. i * ldb + n] == Col(prev, ldb, n, nrhs, i);
      GatherColumn(p, b, i * ldb, n, soln);
      UpdatedStep(pre, b[..], prev, ldb, n, nrhs, i, want);
      i := i + 1;
    }
  }
}

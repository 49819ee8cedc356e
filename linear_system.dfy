/**
 * The parts of the point-block linear system that the solvers touch:
 * residual-like vectors stored point-major (entry iPoint*nVar + iVar)
 * and the sparse block Jacobian, seen as a function from
 * (global row, global column) to its value, with absent entries 0.
 */
module LinearSystem {

  /** Global (row, column) -> value; the blocks of point iPoint span rows iPoint*nVar ..< iPoint*nVar + nVar. */
  type Matrix = (nat, nat) -> real

  function Zeros(n: nat): (z: seq<real>)
    ensures |z| == n
    ensures forall k :: 0 <= k < n ==> z[k] == 0.0
  {
    seq(n, _ => 0.0)
  }

  /** Row `row` is the identity row: 1 on the diagonal, 0 elsewhere. */
  ghost predicate IsIdentityRow(m: Matrix, row: nat)
  {
    forall c: nat :: m(row, c) == if c == row then 1.0 else 0.0
  }

  /** Rows lo ..< hi of `m` and `m2` coincide. */
  ghost predicate RowsAgree(m: Matrix, m2: Matrix, lo: nat, hi: nat)
  {
    forall r: nat, c: nat :: lo <= r < hi ==> m2(r, c) == m(r, c)
  }

  /** CSysMatrix::DeleteValsRowi: the row becomes an identity row, every other row is kept. */
  function DeleteValsRowi(m: Matrix, row: nat): (m2: Matrix)
    ensures IsIdentityRow(m2, row)
    ensures forall r: nat, c: nat :: r != row ==> m2(r, c) == m(r, c)
  {
    (r: nat, c: nat) => if r == row then (if c == row then 1.0 else 0.0) else m(r, c)
  }

  /** DeleteValsRowi applied to the rows lo, lo+1, ..., hi-1 in turn. */
  function DeleteRows(m: Matrix, lo: nat, hi: nat): (m2: Matrix)
    decreases hi
    ensures forall r: nat :: lo <= r < hi ==> IsIdentityRow(m2, r)
    ensures forall r: nat, c: nat :: !(lo <= r < hi) ==> m2(r, c) == m(r, c)
  {
    if hi <= lo then m
    else
      var inner := DeleteRows(m, lo, hi - 1);
      var m2 := DeleteValsRowi(inner, hi - 1);
      assert forall r: nat :: lo <= r < hi - 1 ==> IsIdentityRow(m2, r) by {
        forall r: nat | lo <= r < hi - 1
          ensures IsIdentityRow(m2, r)
        {
          assert IsIdentityRow(inner, r);
        }
      }
      m2
  }

  ghost predicate IsSquareBlock(block: seq<seq<real>>, n: nat)
  {
    |block| == n && forall a :: 0 <= a < n ==> |block[a]| == n
  }

  /** CSysMatrix::AddBlock2Diag: adds an nVar x nVar block to the diagonal block of point iPoint. */
  function AddBlock2Diag(m: Matrix, iPoint: nat, nVar: nat, block: seq<seq<real>>): (m2: Matrix)
    requires IsSquareBlock(block, nVar)
    ensures forall a, b :: 0 <= a < nVar && 0 <= b < nVar ==>
              m2(iPoint * nVar + a, iPoint * nVar + b) == m(iPoint * nVar + a, iPoint * nVar + b) + block[a][b]
    ensures forall r: nat, c: nat ::
              !(iPoint * nVar <= r < iPoint * nVar + nVar && iPoint * nVar <= c < iPoint * nVar + nVar)
              ==> m2(r, c) == m(r, c)
  {
    var base := iPoint * nVar;
    (r: nat, c: nat) =>
      if base <= r < base + nVar && base <= c < base + nVar then m(r, c) + block[r - base][c - base] else m(r, c)
  }

  /** CSysMatrix::SubtractBlock2Diag: subtracts a block from the diagonal block of point iPoint. */
  function SubtractBlock2Diag(m: Matrix, iPoint: nat, nVar: nat, block: seq<seq<real>>): (m2: Matrix)
    requires IsSquareBlock(block, nVar)
    ensures forall a, b :: 0 <= a < nVar && 0 <= b < nVar ==>
              m2(iPoint * nVar + a, iPoint * nVar + b) == m(iPoint * nVar + a, iPoint * nVar + b) - block[a][b]
    ensures forall r: nat, c: nat ::
              !(iPoint * nVar <= r < iPoint * nVar + nVar && iPoint * nVar <= c < iPoint * nVar + nVar)
              ==> m2(r, c) == m(r, c)
  {
    var base := iPoint * nVar;
    (r: nat, c: nat) =>
      if base <= r < base + nVar && base <= c < base + nVar then m(r, c) - block[r - base][c - base] else m(r, c)
  }

  /** CSysMatrix::AddVal2Diag: adds `val` to the diagonal entry of variable iVar of point iPoint. */
  function AddVal2Diag(m: Matrix, iPoint: nat, iVar: nat, nVar: nat, val: real): (m2: Matrix)
    ensures m2(iPoint * nVar + iVar, iPoint * nVar + iVar) == m(iPoint * nVar + iVar, iPoint * nVar + iVar) + val
    ensures forall r: nat, c: nat :: (r != iPoint * nVar + iVar || c != r) ==> m2(r, c) == m(r, c)
  {
    var k := iPoint * nVar + iVar;
    (r: nat, c: nat) => if r == k && c == k then m(r, c) + val else m(r, c)
  }

  /** Entry-wise sum of two vectors of the same length. */
  function AddVectors(a: seq<real>, b: seq<real>): (c: seq<real>)
    requires |a| == |b|
    ensures |c| == |a|
    ensures forall k :: 0 <= k < |a| ==> c[k] == a[k] + b[k]
  {
    seq(|a|, k requires 0 <= k < |a| => a[k] + b[k])
  }

  /** Multiplying by a positive number keeps the order. */
  lemma ScaleByPositive(a: real, b: real, n: real)
    requires n > 0.0
    ensures a < b <==> a * n < b * n
    ensures a <= b <==> a * n <= b * n
  {
    if a < b {
      assert (b - a) * n > 0.0;
    } else {
      assert (a - b) * n >= 0.0;
    }
  }

  /** The identity on reals; Square multiplies x by Copy(x) so that x * x is not written as a syntactic square. */
  function Copy(x: real): (y: real)
    ensures y == x
  {
    x
  }

  /** x * x, non-negative and positive away from 0. */
  function Square(x: real): (s: real)
    ensures s >= 0.0
    ensures x != 0.0 ==> s > 0.0
  {
    var y := Copy(x);
    if x > 0.0 then ScaleByPositive(0.0, x, y); x * y
    else if x < 0.0 then ScaleByPositive(x, 0.0, -y); x * y
    else x * y
  }

  /** Squaring commutes with division. */
  lemma SquareOfQuotient(y: real, n: real)
    requires n != 0.0
    ensures Square(y / n) * Square(n) == Square(y)
  {
    var q := y / n;
    assert q * n == y;
    assert (q * Copy(q)) * (n * Copy(n)) == (q * n) * (Copy(q) * Copy(n));
  }

  /** Sum of squares of the entries (GeometryToolbox::SquaredNorm). */
  function SquaredNorm(v: seq<real>): (r: real)
    ensures r >= 0.0
    decreases |v|
  {
    if v == [] then 0.0 else SquaredNorm(v[..|v| - 1]) + Square(v[|v| - 1])
  }

  /** The vector with entries lo ..< hi set to 0. */
  function ZeroRange(s: seq<real>, lo: nat, hi: nat): (r: seq<real>)
    requires lo <= hi <= |s|
    ensures |r| == |s|
    ensures forall k :: 0 <= k < |s| ==> r[k] == if lo <= k < hi then 0.0 else s[k]
  {
    s[..lo] + Zeros(hi - lo) + s[hi..]
  }

  /** The vector with entries lo ..< lo + |vals| replaced by vals. */
  function WriteRange(s: seq<real>, lo: nat, vals: seq<real>): (r: seq<real>)
    requires lo + |vals| <= |s|
    ensures |r| == |s|
    ensures forall k :: 0 <= k < |s| ==> r[k] == if lo <= k < lo + |vals| then vals[k - lo] else s[k]
  {
    s[..lo] + vals + s[lo + |vals|..]
  }

  /** The vector with `delta[k - lo]` added to every entry k of lo ..< lo + |delta|. */
  function AddRange(s: seq<real>, lo: nat, delta: seq<real>): (r: seq<real>)
    requires lo + |delta| <= |s|
    ensures |r| == |s|
    ensures forall k :: 0 <= k < |s| ==> r[k] == if lo <= k < lo + |delta| then s[k] + delta[k - lo] else s[k]
  {
    s[..lo] + seq(|delta|, a requires 0 <= a < |delta| => s[lo + a] + delta[a]) + s[lo + |delta|..]
  }

  /** The vector with `delta[k - lo]` subtracted from every entry k of lo ..< lo + |delta| (CSysVector::SubtractBlock). */
  function SubtractRange(s: seq<real>, lo: nat, delta: seq<real>): (r: seq<real>)
    requires lo + |delta| <= |s|
    ensures |r| == |s|
    ensures forall k :: 0 <= k < |s| ==> r[k] == if lo <= k < lo + |delta| then s[k] - delta[k - lo] else s[k]
  {
    s[..lo] + seq(|delta|, a requires 0 <= a < |delta| => s[lo + a] - delta[a]) + s[lo + |delta|..]
  }

  /** Sets a[lo ..< hi] to 0, entry by entry. */
  method SetZero(a: array<real>, lo: nat, hi: nat)
    requires lo <= hi <= a.Length
    modifies a
    ensures a[..] == ZeroRange(old(a[..]), lo, hi)
  {
    var k := lo;
    while k < hi
      invariant lo <= k <= hi
      invariant a[..] == ZeroRange(old(a[..]), lo, k)
    {
      a[k] := 0.0;
      k := k + 1;
    }
  }

  /** Copies vals into a[lo ..< lo + |vals|], entry by entry. */
  method SetValues(a: array<real>, lo: nat, vals: seq<real>)
    requires lo + |vals| <= a.Length
    modifies a
    ensures a[..] == WriteRange(old(a[..]), lo, vals)
  {
    var k := 0;
    while k < |vals|
      invariant 0 <= k <= |vals|
      invariant a[..] == WriteRange(old(a[..]), lo, vals[..k])
    {
      a[lo + k] := vals[k];
      k := k + 1;
    }
    assert vals[..k] == vals;
  }

  /** Adds delta into a[lo ..< lo + |delta|], entry by entry. */
  method AddValues(a: array<real>, lo: nat, delta: seq<real>)
    requires lo + |delta| <= a.Length
    modifies a
    ensures a[..] == AddRange(old(a[..]), lo, delta)
  {
    var k := 0;
    while k < |delta|
      invariant 0 <= k <= |delta|
      invariant forall j :: 0 <= j < a.Length ==>
                  a[j] == if lo <= j < lo + k then old(a[j]) + delta[j - lo] else old(a[j])
    {
      a[lo + k] := a[lo + k] + delta[k];
      k := k + 1;
    }
    ghost var r := AddRange(old(a[..]), lo, delta);
    assert forall j :: 0 <= j < a.Length ==> a[..][j] == r[j];
  }

  /** Subtracts delta from a[lo ..< lo + |delta|], entry by entry. */
  method SubtractValues(a: array<real>, lo: nat, delta: seq<real>)
    requires lo + |delta| <= a.Length
    modifies a
    ensures a[..] == SubtractRange(old(a[..]), lo, delta)
  {
    var k := 0;
    while k < |delta|
      invariant 0 <= k <= |delta|
      invariant forall j :: 0 <= j < a.Length ==>
                  a[j] == if lo <= j < lo + k then old(a[j]) - delta[j - lo] else old(a[j])
    {
      a[lo + k] := a[lo + k] - delta[k];
      k := k + 1;
    }
    ghost var r := SubtractRange(old(a[..]), lo, delta);
    assert forall j :: 0 <= j < a.Length ==> a[..][j] == r[j];
  }

  /** Deletes the rows lo ..< hi one at a time, as the solvers' `for` loops over DeleteValsRowi do. */
  method DeleteRowsInPlace(m: Matrix, lo: nat, hi: nat) returns (m2: Matrix)
    ensures m2 == DeleteRows(m, lo, hi)
  {
    m2 := m;
    var r := lo;
    while r < hi
      invariant lo <= r <= hi || (hi < lo && r == lo)
      invariant m2 == DeleteRows(m, lo, r)
    {
      m2 := DeleteValsRowi(m2, r);
      r := r + 1;
    }
  }

  /** Entry (iPoint, iVar) of a point-major vector lies inside a vector of nPoint blocks. */
  lemma IndexInRange(iPoint: nat, iVar: nat, nPoint: nat, nVar: nat)
    requires iPoint < nPoint && iVar < nVar
    ensures iPoint * nVar + iVar < nPoint * nVar
    ensures iPoint * nVar + nVar <= nPoint * nVar
  {
    assert (iPoint + 1) * nVar <= nPoint * nVar by {
      MulMonotone(iPoint + 1, nPoint, nVar);
    }
  }

  /** The block of a point lies inside a vector of nPoint blocks. */
  lemma BlockInRange(iPoint: nat, nPoint: nat, nVar: nat)
    requires iPoint < nPoint
    ensures iPoint * nVar + nVar <= nPoint * nVar
  {
    MulMonotone(iPoint + 1, nPoint, nVar);
  }

  /** The blocks of two different points do not overlap. */
  lemma BlocksDisjoint(p: nat, q: nat, nVar: nat)
    requires p != q
    ensures p * nVar + nVar <= q * nVar || q * nVar + nVar <= p * nVar
  {
    if p < q {
      MulMonotone(p + 1, q, nVar);
    } else {
      MulMonotone(q + 1, p, nVar);
    }
  }

  lemma MulMonotone(a: nat, b: nat, n: nat)
    requires a <= b
    ensures a * n <= b * n
  {
  }
}

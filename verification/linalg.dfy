/** Dense real matrices stored as rows, and the linear algebra the solvers
    are judged by: products, the augmented matrix `[A | B]`, column
    replacement and the determinant (cofactor expansion along the first row,
    standing in for `np.linalg.det`). */
module Matrices {

  type Matrix = seq<seq<real>>

  /** Number of columns; a matrix with no rows has none. */
  function Cols(A: Matrix): nat
  {
    if |A| == 0 then 0 else |A[0]|
  }

  /** Every row has `Cols(A)` entries: the shape of a 2-D numpy array. */
  predicate Rectangular(A: Matrix)
  {
    forall r :: 0 <= r < |A| ==> |A[r]| == Cols(A)
  }

  predicate IsSquare(A: Matrix)
  {
    Rectangular(A) && Cols(A) == |A|
  }

  function Zeros(n: nat): (z: seq<real>)
    ensures |z| == n && forall k :: 0 <= k < n ==> z[k] == 0.0
  {
    seq(n, _ => 0.0)
  }

  /** The `k`-th standard basis vector of length `n`. */
  function Unit(k: int, n: nat): (e: seq<real>)
    ensures |e| == n && forall c :: 0 <= c < n ==> e[c] == (if c == k then 1.0 else 0.0)
  {
    seq(n, c => if c == k then 1.0 else 0.0)
  }

  function Identity(n: nat): (I: Matrix)
    ensures |I| == n && forall r :: 0 <= r < n ==> I[r] == Unit(r, n)
  {
    seq(n, r => Unit(r, n))
  }

  /** The dot product `u · v`. */
  function Dot(u: seq<real>, v: seq<real>): real
    requires |u| == |v|
  {
    if |u| == 0 then 0.0 else Dot(u[..|u| - 1], v[..|v| - 1]) + u[|u| - 1] * v[|v| - 1]
  }

  /** A product under a name. Proofs that are linear in such names stay
      cheap; only the small lemmas that introduce them multiply. */
  function Mul(a: real, b: real): real
  {
    a * b
  }

  /** `u / p`, entry by entry. */
  function DivideBy(u: seq<real>, p: real): (w: seq<real>)
    requires p != 0.0
    ensures |w| == |u| && forall c :: 0 <= c < |u| ==> w[c] == u[c] / p
  {
    seq(|u|, c requires 0 <= c < |u| => u[c] / p)
  }

  /** `u - f * w`, entry by entry. */
  function SubtractMultiple(u: seq<real>, f: real, w: seq<real>): (z: seq<real>)
    requires |u| == |w|
    ensures |z| == |u| && forall c :: 0 <= c < |u| ==> z[c] == u[c] - Mul(f, w[c])
  {
    seq(|u|, c requires 0 <= c < |u| => u[c] - f * w[c])
  }

  /** Row subtraction commutes with taking a prefix. */
  lemma PrefixSubtract(u: seq<real>, f: real, w: seq<real>, k: nat)
    requires |u| == |w| && k <= |u|
    ensures SubtractMultiple(u, f, w)[..k] == SubtractMultiple(u[..k], f, w[..k])
  {
    var z, z' := SubtractMultiple(u, f, w), SubtractMultiple(u[..k], f, w[..k]);
    forall c | 0 <= c < k
      ensures z[..k][c] == z'[c]
    {
      assert z[c] == u[c] - Mul(f, w[c]);
    }
  }

  /** Row division commutes with taking a prefix. */
  lemma PrefixDivide(u: seq<real>, p: real, k: nat)
    requires p != 0.0 && k <= |u|
    ensures DivideBy(u, p)[..k] == DivideBy(u[..k], p)
  {
  }

  /** The matrix-vector product `A @ x`. */
  function MatVec(A: Matrix, x: seq<real>): (b: seq<real>)
    requires Rectangular(A) && |x| == Cols(A)
    ensures |b| == |A|
  {
    seq(|A|, r requires 0 <= r < |A| => Dot(A[r], x))
  }

  /** `np.hstack([A, B.reshape(-1, 1)])`: `B` appended to `A` as a last column. */
  function Augment(A: Matrix, B: seq<real>): (M: Matrix)
    requires |A| == |B|
    ensures |M| == |A|
    ensures forall r :: 0 <= r < |A| ==> |M[r]| == |A[r]| + 1 && M[r][..|A[r]|] == A[r] && M[r][|A[r]|] == B[r]
  {
    seq(|A|, r requires 0 <= r < |A| => A[r] + [B[r]])
  }

  /** The entries row after row: `A.flatten()`. */
  function Flatten(A: Matrix): seq<real>
  {
    if |A| == 0 then [] else A[0] + Flatten(A[1..])
  }

  /** Column `i` of `A`: `A[:, i]`. */
  function Column(A: Matrix, i: nat): (col: seq<real>)
    requires Rectangular(A) && i < Cols(A)
    ensures |col| == |A|
  {
    seq(|A|, r requires 0 <= r < |A| => A[r][i])
  }

  /** `Ai = A.copy(); Ai[:, i] = col`. */
  function ReplaceColumn(A: Matrix, i: nat, col: seq<real>): (Ai: Matrix)
    requires Rectangular(A) && i < Cols(A) && |col| == |A|
    ensures |Ai| == |A| && Rectangular(Ai) && Cols(Ai) == Cols(A)
    ensures forall r, c :: 0 <= r < |A| && 0 <= c < Cols(A) ==> Ai[r][c] == (if c == i then col[r] else A[r][c])
  {
    seq(|A|, r requires 0 <= r < |A| => A[r][i := col[r]])
  }

  /** `Ai[:, i]` reads back what was written there, and every other column
      is still the column of `A`. */
  lemma ReplaceColumnColumns(A: Matrix, i: nat, col: seq<real>)
    requires Rectangular(A) && i < Cols(A) && |col| == |A|
    ensures Column(ReplaceColumn(A, i, col), i) == col
    ensures forall c :: 0 <= c < Cols(A) && c != i ==> Column(ReplaceColumn(A, i, col), c) == Column(A, c)
  {
  }

  /** Writing a column's own entries back leaves the matrix as it was. */
  lemma ReplaceColumnOwn(A: Matrix, i: nat)
    requires Rectangular(A) && i < Cols(A)
    ensures ReplaceColumn(A, i, Column(A, i)) == A
  {
    var Ai := ReplaceColumn(A, i, Column(A, i));
    forall r | 0 <= r < |A|
      ensures Ai[r] == A[r]
    {
      assert |Ai[r]| == |A[r]|;
    }
  }

  // ---------------------------------------------------------------------
  // Facts about the dot product
  // ---------------------------------------------------------------------

  /** Against a standard basis vector the dot product picks one entry. */
  lemma {:induction false} DotUnit(k: nat, y: seq<real>)
    ensures Dot(Unit(k, |y|), y) == if k < |y| then y[k] else 0.0
    decreases |y|
  {
    var n := |y|;
    if n > 0 {
      assert Unit(k, n)[..n - 1] == Unit(k, n - 1);
      DotUnit(k, y[..n - 1]);
    }
  }

  /** Entries of `y` that are zero beyond `k` do not contribute. */
  lemma {:induction false} DotZeroTail(u: seq<real>, y: seq<real>, k: nat)
    requires |u| == |y| && k <= |y|
    requires forall c :: k <= c < |y| ==> y[c] == 0.0
    ensures Dot(u, y) == Dot(u[..k], y[..k])
    decreases |y|
  {
    if |y| > k {
      DotZeroTail(u[..|u| - 1], y[..|y| - 1], k);
      assert u[..|u| - 1][..k] == u[..k];
      assert y[..|y| - 1][..k] == y[..k];
    } else {
      assert u[..k] == u && y[..k] == y;
    }
  }

  /** `d/p + (a/p)*b == (d + a*b)/p`: one step of `DotDivided`. */
  lemma DivideSum(d: real, a: real, b: real, p: real)
    requires p != 0.0
    ensures d / p + (a / p) * b == (d + a * b) / p
  {
    var q := a / p;
    assert q * p == a;
    assert (q * b) * p == a * b;
    assert q * b == (a * b) / p;
  }

  /** Dividing a row by `p` divides its dot product by `p`. */
  lemma {:induction false} DotDivided(u: seq<real>, v: seq<real>, p: real)
    requires |u| == |v| && p != 0.0
    ensures Dot(DivideBy(u, p), v) == Dot(u, v) / p
    decreases |u|
  {
    if |u| > 0 {
      var n := |u|;
      assert DivideBy(u, p)[..n - 1] == DivideBy(u[..n - 1], p);
      DotDivided(u[..n - 1], v[..n - 1], p);
      DivideSum(Dot(u[..n - 1], v[..n - 1]), u[n - 1], v[n - 1], p);
    }
  }

  /** Subtracting `f` times one row from another subtracts `f` times its
      dot product. */
  lemma {:induction false} DotCombined(u: seq<real>, f: real, w: seq<real>, v: seq<real>)
    requires |u| == |w| == |v|
    ensures Dot(SubtractMultiple(u, f, w), v) == Dot(u, v) - f * Dot(w, v)
    decreases |u|
  {
    if |u| > 0 {
      var n := |u|;
      var z, z' := SubtractMultiple(u, f, w), SubtractMultiple(u[..n - 1], f, w[..n - 1]);
      assert |z[..n - 1]| == |z'|;
      forall c | 0 <= c < n - 1
        ensures z[..n - 1][c] == z'[c]
      {
        assert z[c] == u[c] - Mul(f, w[c]);
      }
      assert z[..n - 1] == z';
      DotCombined(u[..n - 1], f, w[..n - 1], v[..n - 1]);
      assert (u[n - 1] - f * w[n - 1]) * v[n - 1] == u[n - 1] * v[n - 1] - f * (w[n - 1] * v[n - 1]);
    }
  }

  /** The identity matrix leaves every vector unchanged. */
  lemma IdentityMatVec(x: seq<real>)
    ensures IsSquare(Identity(|x|)) && MatVec(Identity(|x|), x) == x
  {
    var n := |x|;
    forall r | 0 <= r < n
      ensures Dot(Identity(n)[r], x) == x[r]
    {
      DotUnit(r, x);
    }
  }

  // ---------------------------------------------------------------------
  // Determinant
  // ---------------------------------------------------------------------

  /** `A` without its first row and without column `j`. */
  function Minor(A: Matrix, j: nat): (M: Matrix)
    requires IsSquare(A) && 0 < |A| && j < |A|
    ensures IsSquare(M) && |M| == |A| - 1
  {
    var M := seq(|A| - 1, r requires 0 <= r < |A| - 1 => A[r + 1][..j] + A[r + 1][j + 1..]);
    assert forall r :: 0 <= r < |M| ==> |M[r]| == |A| - 1;
    M
  }

  function Sign(j: nat): real
  {
    if j % 2 == 0 then 1.0 else -1.0
  }

  /** The determinant by cofactor expansion along the first row; the empty
      matrix has determinant 1, as `np.linalg.det` gives for a 0x0 array. */
  function Det(A: Matrix): real
    requires IsSquare(A)
    decreases |A|, 1
  {
    if |A| == 0 then 1.0 else CofactorSum(A, |A|)
  }

  /** The first `k` terms `(-1)^j * A[0][j] * det(Minor(A, j))` of the expansion. */
  function CofactorSum(A: Matrix, k: nat): real
    requires IsSquare(A) && 0 < |A| && k <= |A|
    decreases |A|, 0, k
  {
    if k == 0 then 0.0
    else CofactorSum(A, k - 1) + Sign(k - 1) * A[0][k - 1] * Det(Minor(A, k - 1))
  }

  /** The 1x1 and 2x2 determinants are the familiar formulas. */
  lemma DetSmall(A: Matrix)
    requires IsSquare(A) && 1 <= |A| <= 2
    ensures |A| == 1 ==> Det(A) == A[0][0]
    ensures |A| == 2 ==> Det(A) == A[0][0] * A[1][1] - A[0][1] * A[1][0]
    decreases |A|
  {
    if |A| == 2 {
      assert |A[1]| == 2;
      var M0, M1 := Minor(A, 0), Minor(A, 1);
      assert A[1][1..] == [A[1][1]];
      assert M0[0] == [A[1][1]];
      assert A[1][..1] + A[1][2..] == [A[1][0]];
      assert M1[0] == [A[1][0]];
      DetSmall(M0);
      DetSmall(M1);
      assert CofactorSum(A, 1) == A[0][0] * A[1][1];
    } else {
      assert Det(Minor(A, 0)) == 1.0;
      assert CofactorSum(A, 1) == CofactorSum(A, 0) + Sign(0) * A[0][0] * Det(Minor(A, 0));
    }
  }

  /** The identity matrix has determinant 1. */
  lemma {:induction false} DetIdentity(n: nat)
    ensures IsSquare(Identity(n)) && Det(Identity(n)) == 1.0
  {
    if n > 0 {
      var I := Identity(n);
      assert IsSquare(I);
      CofactorSumIdentity(n, n);
    }
  }

  lemma {:induction false} CofactorSumIdentity(n: nat, k: nat)
    requires 0 < k <= n
    ensures IsSquare(Identity(n)) && CofactorSum(Identity(n), k) == 1.0
    decreases n, k
  {
    var I := Identity(n);
    assert IsSquare(I);
    if k == 1 {
      var M := Minor(I, 0);
      forall r | 0 <= r < n - 1
        ensures M[r] == Identity(n - 1)[r]
      {
        assert M[r] == I[r + 1][1..];
      }
      assert M == Identity(n - 1);
      DetIdentity(n - 1);
    } else {
      CofactorSumIdentity(n, k - 1);
      assert I[0][k - 1] == 0.0;
    }
  }
}

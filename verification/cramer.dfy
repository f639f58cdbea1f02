/** `solve_cramer(A, B)` (matrix_utils.py): refuse when `det(A) == 0`,
    otherwise `x[i] = det(A_i) / det(A)` where `A_i` is a copy of `A` whose
    column `i` is `B`. The log starts with `det(A)` and has one line per
    column. */
module Cramer {
  import opened Results
  import opened Matrices
  import opened PyText
  import opened NumText
  import GaussJordan

  datatype CramerError =
    | NotSquare        // np.linalg.det refuses a non-square matrix
    | Singular         // "Determinan 0, Cramer tidak bisa."
    | IndexOutOfRange  // Ai[:, 0] on a matrix without columns
    | ShapeMismatch    // B can be written into a column neither as is nor broadcast

  /** One logged line: `det(A)`, or `det(A_i)` with the `x_i` it gives. */
  datatype CramerStep =
    | Determinant(det: real)
    | Quotient(column: nat, det: real, x: real)

  datatype CramerSolution = CramerSolution(x: seq<real>, steps: seq<CramerStep>)

  /** The arrow of the log line, as the three characters the source file
      holds: the UTF-8 bytes of a right arrow read as Windows-1252. */
  const Arrow: string := "\U{E2}\U{2020}\U{2019}"

  /** The log line the source writes for a step; `fmt2` stands for `{v:.2f}`. */
  function Render(s: CramerStep, fmt2: Renderer): string
  {
    match s
    case Determinant(d) => "det(A) = " + fmt2(d)
    case Quotient(i, d, x) =>
      "det(A_" + IntToString(i + 1) + ") = " + fmt2(d) + " " + Arrow
      + " x_" + IntToString(i + 1) + " = " + fmt2(x)
  }

  /** The strings `solve_cramer` returns for a log of steps. */
  function RenderLog(steps: seq<CramerStep>, fmt2: Renderer): (lines: seq<string>)
    ensures |lines| == |steps| && forall k :: 0 <= k < |steps| ==> lines[k] == Render(steps[k], fmt2)
  {
    seq(|steps|, k requires 0 <= k < |steps| => Render(steps[k], fmt2))
  }

  /** What `Ai[:, i] = B` writes into column `i` of an `m`-row matrix: `B`
      itself when it has `m` entries, its one entry repeated when it has one
      (numpy broadcasting). */
  function Broadcast(B: seq<real>, m: nat): (col: seq<real>)
    requires |B| == m || |B| == 1
    ensures |col| == m
    ensures forall r :: 0 <= r < m ==> col[r] == (if |B| == m then B[r] else B[0])
  {
    if |B| == m then B else seq(m, _ => B[0])
  }

  /** `det(A_i)`. */
  function ColumnDet(A: Matrix, col: seq<real>, i: nat): real
    requires IsSquare(A) && i < |A| && |col| == |A|
  {
    Det(ReplaceColumn(A, i, col))
  }

  /** The answer `solve_cramer` computes, stated column by column. */
  function CramerReference(A: Matrix, B: seq<real>): (r: Result<CramerSolution, CramerError>)
    requires Rectangular(A)
    ensures r == Failure(NotSquare) <==> !IsSquare(A)
    ensures r == Failure(Singular) <==> IsSquare(A) && Det(A) == 0.0
    ensures r.Success? <==>
      IsSquare(A) && Det(A) != 0.0 && (|B| == 0 || (|A| > 0 && (|B| == |A| || |B| == 1)))
    ensures r.Success? ==>
      && |r.value.x| == |B| && |r.value.steps| == |B| + 1
      && r.value.steps[0] == Determinant(Det(A))
  {
    if !IsSquare(A) then Failure(NotSquare)
    else if Det(A) == 0.0 then Failure(Singular)
    else if |B| == 0 then Success(CramerSolution([], [Determinant(Det(A))]))
    else if |A| == 0 then Failure(IndexOutOfRange)
    else if |B| != |A| && |B| != 1 then Failure(ShapeMismatch)
    else
      var col := Broadcast(B, |A|);
      var x := Quotients(A, col, |B|);
      Success(CramerSolution(x, [Determinant(Det(A))] + Lines(A, col, x)))
  }

  /** `x[i] = det(A_i) / det(A)` for the first `n` columns. */
  function Quotients(A: Matrix, col: seq<real>, n: nat): (x: seq<real>)
    requires IsSquare(A) && Det(A) != 0.0 && |col| == |A| && n <= |A|
    ensures |x| == n && forall i :: 0 <= i < n ==> Det(A) * x[i] == ColumnDet(A, col, i)
  {
    seq(n, i requires 0 <= i < n => ColumnDet(A, col, i) / Det(A))
  }

  /** The log lines of the columns. */
  function Lines(A: Matrix, col: seq<real>, x: seq<real>): (steps: seq<CramerStep>)
    requires IsSquare(A) && |col| == |A| && |x| <= |A|
    ensures |steps| == |x| && forall i :: 0 <= i < |x| ==> steps[i] == Quotient(i, ColumnDet(A, col, i), x[i])
  {
    seq(|x|, i requires 0 <= i < |x| => Quotient(i, ColumnDet(A, col, i), x[i]))
  }

  /** `solve_cramer(A, B)`, the loop of the source. `A` is a value: every
      `A_i` is a new matrix and `A` itself cannot change. */
  method SolveCramer(A: Matrix, B: seq<real>) returns (r: Result<CramerSolution, CramerError>)
    requires Rectangular(A)
    ensures r == CramerReference(A, B)
  {
    if !IsSquare(A) {
      return Failure(NotSquare);
    }
    var detA := Det(A);
    if detA == 0.0 {
      return Failure(Singular);
    }
    var n := |B|;
    var X := Zeros(n);
    var steps := [Determinant(detA)];
    for i := 0 to n
      invariant |X| == n && |steps| == i + 1 && steps[0] == Determinant(detA)
      invariant i > 0 ==> |A| > 0 && (|B| == |A| || |B| == 1) && i <= |A|
      invariant forall k :: 0 <= k < i ==>
        X[k] == ColumnDet(A, Broadcast(B, |A|), k) / detA
        && steps[k + 1] == Quotient(k, ColumnDet(A, Broadcast(B, |A|), k), X[k])
    {
      if i >= |A| {
        r := Failure(IndexOutOfRange);
        assert r == CramerReference(A, B);
        return;
      }
      if |B| != |A| && |B| != 1 {
        r := Failure(ShapeMismatch);
        assert r == CramerReference(A, B);
        return;
      }
      var Ai := ReplaceColumn(A, i, Broadcast(B, |A|));
      var detAi := Det(Ai);
      X := X[i := detAi / detA];
      steps := steps + [Quotient(i, detAi, X[i])];
    }
    r := Success(CramerSolution(X, steps));
    if n == 0 {
      assert X == [] && steps == [Determinant(detA)];
    } else {
      var col := Broadcast(B, |A|);
      assert X == Quotients(A, col, n);
      assert steps == [Determinant(detA)] + Lines(A, col, X);
    }
  }

  /** Each answer is the ratio of two determinants: `det(A) * x[i]` is the
      determinant of `A` with column `i` replaced by (broadcast) `B`. */
  lemma CramerQuotients(A: Matrix, B: seq<real>)
    requires Rectangular(A) && CramerReference(A, B).Success? && |B| > 0
    ensures |A| > 0 && (|B| == |A| || |B| == 1)
    ensures forall i :: 0 <= i < |B| ==>
      Det(A) * CramerReference(A, B).value.x[i] == ColumnDet(A, Broadcast(B, |A|), i)
  {
    hide *;
    CramerShape(A, B);
    CramerAnswer(A, B);
  }

  /** The strings of the log: the `det(A)` line first, then for each column
      `i` the line with the determinant of `A_i` and the `x_i` it gives. */
  lemma CramerLines(A: Matrix, B: seq<real>, fmt2: Renderer)
    requires Rectangular(A) && CramerReference(A, B).Success?
    ensures var sol := CramerReference(A, B).value;
      var lines := RenderLog(sol.steps, fmt2);
      && |lines| == |B| + 1
      && lines[0] == Render(Determinant(Det(A)), fmt2)
      && forall i :: 0 <= i < |B| ==>
        lines[i + 1] == Render(Quotient(i, ColumnDet(A, Broadcast(B, |A|), i), sol.x[i]), fmt2)
  {
    CramerSteps(A, B);
  }

  /** The log of a successful run, step by step. */
  lemma CramerSteps(A: Matrix, B: seq<real>)
    requires Rectangular(A) && CramerReference(A, B).Success?
    ensures |B| > 0 ==> |A| > 0 && (|B| == |A| || |B| == 1)
    ensures var sol := CramerReference(A, B).value;
      && |sol.steps| == |B| + 1 && |sol.x| == |B|
      && sol.steps[0] == Determinant(Det(A))
      && forall i :: 0 <= i < |B| ==> sol.steps[i + 1] == Quotient(i, ColumnDet(A, Broadcast(B, |A|), i), sol.x[i])
  {
    var sol := CramerReference(A, B).value;
    if |B| > 0 {
      CramerShape(A, B);
      var col := Broadcast(B, |A|);
      var qs := Lines(A, col, sol.x);
      assert sol.steps == [Determinant(Det(A))] + qs;
      forall i | 0 <= i < |B|
        ensures sol.steps[i + 1] == Quotient(i, ColumnDet(A, col, i), sol.x[i])
      {
        assert sol.steps[i + 1] == qs[i];
      }
    }
  }

  lemma CramerShape(A: Matrix, B: seq<real>)
    requires Rectangular(A) && CramerReference(A, B).Success? && |B| > 0
    ensures IsSquare(A) && Det(A) != 0.0 && |A| > 0 && (|B| == |A| || |B| == 1)
  {
  }

  lemma CramerAnswer(A: Matrix, B: seq<real>)
    requires Rectangular(A) && CramerReference(A, B).Success? && |B| > 0
    requires IsSquare(A) && Det(A) != 0.0 && |A| > 0 && (|B| == |A| || |B| == 1)
    ensures CramerReference(A, B).value.x == Quotients(A, Broadcast(B, |A|), |B|)
  {
  }

  /** When `B` is column `i` of `A`, the answer there is exactly 1. */
  lemma CramerOwnColumn(A: Matrix, B: seq<real>, i: nat)
    requires Rectangular(A) && |B| == |A| && i < |A| && i < Cols(A) && B == Column(A, i)
    requires CramerReference(A, B).Success?
    ensures CramerReference(A, B).value.x[i] == 1.0
  {
    ReplaceColumnOwn(A, i);
    CramerQuotients(A, B);
  }

  /** Cramer's answer for a square system of order at most two, as
      products: `det(A) * x[i] == det(A_i)`. */
  lemma QuotientProducts(A: Matrix, B: seq<real>)
    requires Rectangular(A) && |B| == |A| && CramerReference(A, B).Success? && |B| > 0
    ensures |CramerReference(A, B).value.x| == |A|
    ensures forall i :: 0 <= i < |B| ==>
      Mul(Det(A), CramerReference(A, B).value.x[i]) == ColumnDet(A, B, i)
  {
    CramerQuotients(A, B);
    assert Broadcast(B, |A|) == B;
  }

  /** For systems of up to two equations in as many unknowns, Cramer's
      answer solves `A @ x == B`. */
  lemma CramerSolvesSmall(A: Matrix, B: seq<real>)
    requires Rectangular(A) && |B| == |A| <= 2 && CramerReference(A, B).Success?
    ensures MatVec(A, CramerReference(A, B).value.x) == B
  {
    if |A| > 0 {
      hide *;
      CramerShape(A, B);
      QuotientProducts(A, B);
      var x := CramerReference(A, B).value.x;
      SquareRows(A);
      if |A| == 1 {
        Det1(A);
        ColumnDet1(A, B);
        DotOne(A[0], x);
        MatVecEntry(A, x, 0);
      } else {
        Det2(A);
        ColumnDet2(A, B);
        DotTwo(A[0], x);
        DotTwo(A[1], x);
        MatVecEntry(A, x, 0);
        MatVecEntry(A, x, 1);
        Solves2(A[0][0], A[0][1], A[1][0], A[1][1], B[0], B[1], x[0], x[1]);
      }
      MatVecShape(A, x, B);
    }
  }

  lemma SquareRows(A: Matrix)
    requires IsSquare(A)
    ensures Rectangular(A) && Cols(A) == |A|
    ensures forall r :: 0 <= r < |A| ==> |A[r]| == |A|
  {
  }

  lemma Det1(A: Matrix)
    requires IsSquare(A) && |A| == 1
    ensures Det(A) == A[0][0]
  {
    DetSmall(A);
  }

  lemma Det2(A: Matrix)
    requires IsSquare(A) && |A| == 2
    ensures Det(A) == Mul(A[0][0], A[1][1]) - Mul(A[0][1], A[1][0])
  {
    DetSmall(A);
  }

  lemma DotOne(u: seq<real>, v: seq<real>)
    requires |u| == |v| == 1
    ensures Dot(u, v) == Mul(u[0], v[0])
  {
    assert u[..0] == [] && v[..0] == [];
  }

  lemma DotTwo(u: seq<real>, v: seq<real>)
    requires |u| == |v| == 2
    ensures Dot(u, v) == Mul(u[0], v[0]) + Mul(u[1], v[1])
  {
    DotOne(u[..1], v[..1]);
  }

  /** The determinants of `A_0` and `A_1` for two unknowns. */
  lemma ColumnDet2(A: Matrix, B: seq<real>)
    requires IsSquare(A) && |A| == |B| == 2
    ensures ColumnDet(A, B, 0) == Mul(B[0], A[1][1]) - Mul(A[0][1], B[1])
    ensures ColumnDet(A, B, 1) == Mul(A[0][0], B[1]) - Mul(B[0], A[1][0])
  {
    DetSmall(ReplaceColumn(A, 0, B));
    DetSmall(ReplaceColumn(A, 1, B));
  }

  lemma ColumnDet1(A: Matrix, B: seq<real>)
    requires IsSquare(A) && |A| == |B| == 1
    ensures ColumnDet(A, B, 0) == B[0]
  {
    DetSmall(ReplaceColumn(A, 0, B));
  }

  /** The 2x2 system: the two Cramer quotients satisfy both equations. */
  lemma Solves2(a: real, b: real, c: real, d: real, p: real, q: real, x0: real, x1: real)
    requires Mul(a, d) - Mul(b, c) != 0.0
    requires Mul(Mul(a, d) - Mul(b, c), x0) == Mul(p, d) - Mul(b, q)
    requires Mul(Mul(a, d) - Mul(b, c), x1) == Mul(a, q) - Mul(p, c)
    ensures Mul(a, x0) + Mul(b, x1) == p && Mul(c, x0) + Mul(d, x1) == q
  {
    var D := a * d - b * c;
    assert (a * x0 + b * x1) * D == a * (x0 * D) + b * (x1 * D);
    assert a * (p * d - b * q) + b * (a * q - p * c) == p * D;
    assert (c * x0 + d * x1) * D == c * (x0 * D) + d * (x1 * D);
    assert c * (p * d - b * q) + d * (a * q - p * c) == q * D;
  }

  /** A product vector equals `B` entry by entry. */
  lemma MatVecShape(A: Matrix, x: seq<real>, B: seq<real>)
    requires Rectangular(A) && |x| == Cols(A) && |B| == |A|
    requires forall r :: 0 <= r < |A| ==> Dot(A[r], x) == B[r]
    ensures MatVec(A, x) == B
  {
  }

  /** A non-zero determinant of order at most two leaves `A @ y == 0` only
      the trivial solution. */
  lemma SmallDetKernel(A: Matrix)
    requires IsSquare(A) && |A| <= 2 && Det(A) != 0.0
    ensures forall y :: |y| == |A| && MatVec(A, y) == Zeros(|A|) ==> y == Zeros(|A|)
  {
    forall y | |y| == |A| && MatVec(A, y) == Zeros(|A|)
      ensures y == Zeros(|A|)
    {
      KernelVector(A, y);
    }
  }

  lemma KernelVector(A: Matrix, y: seq<real>)
    requires IsSquare(A) && |A| <= 2 && Det(A) != 0.0
    requires |y| == |A| && MatVec(A, y) == Zeros(|A|)
    ensures y == Zeros(|A|)
  {
    hide *;
    SquareRows(A);
    if |A| == 1 {
      Det1(A);
      DotOne(A[0], y);
      MatVecEntry(A, y, 0);
      Kernel1(A[0][0], y[0]);
    } else if |A| == 2 {
      Det2(A);
      DotTwo(A[0], y);
      DotTwo(A[1], y);
      MatVecEntry(A, y, 0);
      MatVecEntry(A, y, 1);
      Kernel2(A[0][0], A[0][1], A[1][0], A[1][1], y[0], y[1]);
    }
    ZerosEntries(y);
  }

  lemma MatVecEntry(A: Matrix, y: seq<real>, r: nat)
    requires Rectangular(A) && |y| == Cols(A) && r < |A|
    ensures MatVec(A, y)[r] == Dot(A[r], y)
  {
  }

  lemma ZerosEntries(y: seq<real>)
    ensures y == Zeros(|y|) <==> forall k :: 0 <= k < |y| ==> y[k] == 0.0
  {
  }

  lemma Kernel1(a: real, y0: real)
    requires a != 0.0 && Mul(a, y0) == 0.0
    ensures y0 == 0.0
  {
  }

  /** The 2x2 homogeneous system with a non-zero determinant. */
  lemma Kernel2(a: real, b: real, c: real, d: real, y0: real, y1: real)
    requires Mul(a, d) - Mul(b, c) != 0.0
    requires Mul(a, y0) + Mul(b, y1) == 0.0 && Mul(c, y0) + Mul(d, y1) == 0.0
    ensures y0 == 0.0 && y1 == 0.0
  {
    assert (a * d - b * c) * y0 == d * (a * y0 + b * y1) - b * (c * y0 + d * y1);
    assert (a * d - b * c) * y1 == a * (c * y0 + d * y1) - c * (a * y0 + b * y1);
  }

  /** When the passes do not all have non-zero pivots, one of them is the
      first with a zero pivot. */
  lemma {:induction false} FirstZeroPivot(W: Matrix, k: nat)
    requires Rectangular(W) && k <= |W| && k <= Cols(W)
    requires !GaussJordan.PivotsNonzero(W, k)
    ensures exists c :: 0 <= c < k && GaussJordan.PivotsNonzero(W, c) && GaussJordan.PivotAt(W, c) == 0.0
  {
    hide GaussJordan.PivotAt;
    var j: nat := k - 1;
    if GaussJordan.PivotsNonzero(W, j) {
      assert GaussJordan.PivotAt(W, j) == 0.0;
    } else {
      FirstZeroPivot(W, j);
    }
  }

  /** For square systems of order at most two, Cramer's rule and
      Gauss-Jordan elimination agree: when `solve_cramer` answers, every
      pivot of `solve_obe` is non-zero and both give the same vector. */
  lemma CramerAgreesWithObe(A: Matrix, B: seq<real>)
    requires IsSquare(A) && |B| == |A| <= 2 && CramerReference(A, B).Success?
    ensures GaussJordan.PivotsNonzero(Augment(A, B), |B|)
    ensures GaussJordan.Width(GaussJordan.Run(Augment(A, B), |B|), |A| + 1)
    ensures CramerReference(A, B).value.x == GaussJordan.LastColumn(GaussJordan.Run(Augment(A, B), |B|))
  {
    var W := Augment(A, B);
    GaussJordan.AugmentShape(A, B);
    if !GaussJordan.PivotsNonzero(W, |B|) {
      FirstZeroPivot(W, |B|);
      var c :| 0 <= c < |B| && GaussJordan.PivotsNonzero(W, c) && GaussJordan.PivotAt(W, c) == 0.0;
      GaussJordan.ZeroPivotKernel(A, B, c);
      SmallDetKernel(A);
      assert false;
    }
    GaussJordan.RunWidth(W, |B|, |A| + 1);
    var x := CramerReference(A, B).value.x;
    var z := GaussJordan.LastColumn(GaussJordan.Run(W, |B|));
    GaussJordan.SolveObeAnswer(A, B, z);
    CramerSolvesSmall(A, B);
  }
}

/** `solve_obe` (matrix_utils.py): Gauss-Jordan elimination on the augmented
    matrix `[A | B]`. For each column `i < n` (with `n = len(B)`): when the
    diagonal entry is zero, swap in the first lower row whose entry in that
    column is non-zero; divide row `i` by its pivot; subtract multiples of
    row `i` from every other row. Each row operation is logged. The answer
    is the last column of the reduced matrix.

    The module has two layers. `Run` and `RunLog` are a functional reference:
    the working matrix and the log after the first `k` columns. `SolveObe`
    is the loop program of the source and is proved to compute exactly the
    reference; the lemmas about the reference give what the answer means. */
module GaussJordan {
  import opened Results
  import opened Matrices
  import opened PyText
  import opened NumText

  /** One logged row operation. */
  datatype Step =
    | Swap(row: nat, other: nat)
    | Divide(row: nat, pivot: real)
    | Eliminate(target: nat, factor: real, source: nat)

  /** The log line the source writes for a step; rows are numbered from 1
      and `fmt2` stands for `{v:.2f}`. */
  function Render(s: Step, fmt2: Renderer): string
  {
    match s
    case Swap(i, j) => "Tukar baris " + (IntToString(i + 1) + " dan " + IntToString(j + 1))
    case Divide(i, p) => "Bagi baris " + (IntToString(i + 1) + " dengan " + fmt2(p))
    case Eliminate(j, f, i) =>
      "Baris " + (IntToString(j + 1) + " - (" + fmt2(f) + ")*Baris " + IntToString(i + 1))
  }

  /** The three kinds of log line are told apart by their first words. */
  lemma RenderKind(s: Step, fmt2: Renderer)
    ensures StartsWith(Render(s, fmt2), "Tukar baris ") <==> s.Swap?
    ensures StartsWith(Render(s, fmt2), "Bagi baris ") <==> s.Divide?
    ensures StartsWith(Render(s, fmt2), "Baris ") <==> s.Eliminate?
  {
    hide *;
    if s.Swap? {
      SwapRendered(s, fmt2);
    } else if s.Divide? {
      DivideRendered(s, fmt2);
    } else {
      EliminateRendered(s, fmt2);
    }
  }

  lemma SwapRendered(s: Step, fmt2: Renderer)
    requires s.Swap?
    ensures StartsWith(Render(s, fmt2), "Tukar baris ")
    ensures !StartsWith(Render(s, fmt2), "Bagi baris ") && !StartsWith(Render(s, fmt2), "Baris ")
  {
    var x := IntToString(s.row + 1) + " dan " + IntToString(s.other + 1);
    assert Render(s, fmt2) == "Tukar baris " + x;
    hide *;
    SwapLine(x);
  }

  lemma DivideRendered(s: Step, fmt2: Renderer)
    requires s.Divide?
    ensures StartsWith(Render(s, fmt2), "Bagi baris ")
    ensures !StartsWith(Render(s, fmt2), "Tukar baris ") && !StartsWith(Render(s, fmt2), "Baris ")
  {
    var x := IntToString(s.row + 1) + " dengan " + fmt2(s.pivot);
    assert Render(s, fmt2) == "Bagi baris " + x;
    hide *;
    DivideLine(x);
  }

  lemma EliminateRendered(s: Step, fmt2: Renderer)
    requires s.Eliminate?
    ensures StartsWith(Render(s, fmt2), "Baris ")
    ensures !StartsWith(Render(s, fmt2), "Tukar baris ") && !StartsWith(Render(s, fmt2), "Bagi baris ")
  {
    var x := IntToString(s.target + 1) + " - (" + fmt2(s.factor) + ")*Baris " + IntToString(s.source + 1);
    assert Render(s, fmt2) == "Baris " + x;
    hide *;
    EliminateLine(x);
  }

  /** The first words differ from the other two in the first character. */
  lemma SwapLine(x: string)
    ensures var line := "Tukar baris " + x;
      StartsWith(line, "Tukar baris ") && !StartsWith(line, "Bagi baris ") && !StartsWith(line, "Baris ")
  {
    var line := "Tukar baris " + x;
    StartsWithConcat("Tukar baris ", x);
    DiffersAt(line, "Bagi baris ", 0);
    DiffersAt(line, "Baris ", 0);
  }

  /** The first words differ from the swap's in the first character and
      from the elimination's in the third. */
  lemma DivideLine(x: string)
    ensures var line := "Bagi baris " + x;
      !StartsWith(line, "Tukar baris ") && StartsWith(line, "Bagi baris ") && !StartsWith(line, "Baris ")
  {
    var line := "Bagi baris " + x;
    StartsWithConcat("Bagi baris ", x);
    DiffersAt(line, "Tukar baris ", 0);
    DiffersAt(line, "Baris ", 2);
  }

  /** The first words differ from the swap's in the first character and
      from the division's in the third. */
  lemma EliminateLine(x: string)
    ensures var line := "Baris " + x;
      !StartsWith(line, "Tukar baris ") && !StartsWith(line, "Bagi baris ") && StartsWith(line, "Baris ")
  {
    var line := "Baris " + x;
    StartsWithConcat("Baris ", x);
    DiffersAt(line, "Tukar baris ", 0);
    DiffersAt(line, "Bagi baris ", 2);
  }

  /** The strings `solve_obe` returns for a log of steps. */
  function RenderLog(steps: seq<Step>, fmt2: Renderer): (lines: seq<string>)
    ensures |lines| == |steps|
  {
    seq(|steps|, k requires 0 <= k < |steps| => Render(steps[k], fmt2))
  }

  /** Counting log lines by their first words counts the steps by kind. */
  lemma {:induction false} RenderedCounts(steps: seq<Step>, fmt2: Renderer)
    ensures CountStarting(RenderLog(steps, fmt2), "Tukar baris ") == CountSwaps(steps)
    ensures CountStarting(RenderLog(steps, fmt2), "Bagi baris ") == CountDivides(steps)
    ensures CountStarting(RenderLog(steps, fmt2), "Baris ") == CountEliminations(steps)
  {
    if |steps| > 0 {
      var front, last := steps[..|steps| - 1], steps[|steps| - 1];
      var lines := RenderLog(steps, fmt2);
      assert lines[..|lines| - 1] == RenderLog(front, fmt2);
      assert lines[|lines| - 1] == Render(last, fmt2);
      hide *;
      RenderedCounts(front, fmt2);
      RenderKind(last, fmt2);
      CountStartingLast(lines, "Tukar baris ");
      CountStartingLast(lines, "Bagi baris ");
      CountStartingLast(lines, "Baris ");
      CountsLast(steps);
    }
  }

  /** The counts of a log are those of all but its last step plus the last. */
  lemma CountsLast(s: seq<Step>)
    requires |s| > 0
    ensures CountSwaps(s) == CountSwaps(s[..|s| - 1]) + (if s[|s| - 1].Swap? then 1 else 0)
    ensures CountDivides(s) == CountDivides(s[..|s| - 1]) + (if s[|s| - 1].Divide? then 1 else 0)
    ensures CountEliminations(s) == CountEliminations(s[..|s| - 1]) + (if s[|s| - 1].Eliminate? then 1 else 0)
  {
  }

  datatype ObeError =
    | ShapeMismatch         // np.hstack refuses: A does not have len(B) rows
    | IndexOutOfRange       // M[i, i] reaches past the last column of [A | B]
    | ZeroPivot(column: nat)  // the source divides by zero here and carries on with inf/nan

  datatype Solution = Solution(x: seq<real>, steps: seq<Step>)

  // ---------------------------------------------------------------------
  // Row operations and the reference pass over one column
  // ---------------------------------------------------------------------

  /** Column `i` exists in every row. */
  predicate HasColumn(M: Matrix, i: nat)
  {
    forall r :: 0 <= r < |M| ==> i < |M[r]|
  }

  /** `M[[i, j]] = M[[j, i]]`. */
  function SwapRows(M: Matrix, i: nat, j: nat): Matrix
    requires i < |M| && j < |M|
  {
    M[i := M[j]][j := M[i]]
  }

  /** `M[i] = M[i] / p`. */
  function NormalizeRow(M: Matrix, i: nat, p: real): Matrix
    requires i < |M| && p != 0.0
  {
    M[i := DivideBy(M[i], p)]
  }

  /** The first row `j` in `i+1 .. |M|-1` with `M[j][i] != 0`, if any: the
      `for j in range(i+1, n)` search with its `break`. */
  function FirstNonzeroBelow(M: Matrix, i: nat): (j: Option<nat>)
    requires HasColumn(M, i)
    ensures j.Some? ==> i < j.value < |M| && M[j.value][i] != 0.0
    ensures j.Some? ==> forall r :: i < r < j.value ==> M[r][i] == 0.0
    ensures j.None? <==> forall r :: i < r < |M| ==> M[r][i] == 0.0
  {
    NonzeroFrom(M, i, i + 1)
  }

  function NonzeroFrom(M: Matrix, i: nat, k: nat): (j: Option<nat>)
    requires HasColumn(M, i)
    ensures j.Some? ==> k <= j.value < |M| && M[j.value][i] != 0.0
    ensures j.Some? ==> forall r :: k <= r < j.value ==> M[r][i] == 0.0
    ensures j.None? ==> forall r :: k <= r < |M| ==> M[r][i] == 0.0
    decreases |M| - k
  {
    if k >= |M| then None
    else if M[k][i] != 0.0 then Some(k)
    else NonzeroFrom(M, i, k + 1)
  }

  /** The row swapped with row `i` before pivoting: only when `M[i][i]` is
      zero, and then the first lower row that can supply a pivot. */
  function SwapPartner(M: Matrix, i: nat): Option<nat>
    requires i < |M| && HasColumn(M, i)
  {
    if M[i][i] == 0.0 then FirstNonzeroBelow(M, i) else None
  }

  /** `M` after the (possible) swap for column `i`. */
  function Swapped(M: Matrix, i: nat): (S: Matrix)
    requires i < |M| && HasColumn(M, i)
    ensures |S| == |M| && HasColumn(S, i)
  {
    match SwapPartner(M, i)
    case Some(j) => SwapRows(M, i, j)
    case None => M
  }

  /** The value row `i` is divided by in the pass for column `i`. */
  function Pivot(M: Matrix, i: nat): real
    requires i < |M| && HasColumn(M, i)
  {
    Swapped(M, i)[i][i]
  }

  /** Row `i` divided by its pivot. A zero pivot is never divided by: the
      solver stops with `ZeroPivot` before this matrix would be used. */
  function Normalized(S: Matrix, i: nat): (N: Matrix)
    requires i < |S| && HasColumn(S, i)
  {
    if S[i][i] == 0.0 then S else NormalizeRow(S, i, S[i][i])
  }

  /** The rows `r < j`, other than `i`, with `N[r][i]` times row `i`
      subtracted: the elimination loop after `j` iterations. */
  function EliminatedRows(N: Matrix, i: nat, j: nat): (E: Matrix)
    requires i < |N| && HasColumn(N, i) && |N[i]| == Cols(N) && Rectangular(N)
    ensures |E| == |N| && Rectangular(E) && Cols(E) == Cols(N)
  {
    seq(|N|, r requires 0 <= r < |N| =>
      if r < j && r != i then SubtractMultiple(N[r], N[r][i], N[i]) else N[r])
  }

  /** The log lines of the elimination loop after `j` iterations. */
  function ElimLog(N: Matrix, i: nat, j: nat): seq<Step>
    requires j <= |N| && HasColumn(N, i)
  {
    if j == 0 then []
    else ElimLog(N, i, j - 1) + (if j - 1 == i then [] else [Eliminate(j - 1, N[j - 1][i], i)])
  }

  lemma SwappedShape(M: Matrix, i: nat)
    requires Rectangular(M) && i < |M| && i < Cols(M)
    ensures Rectangular(Swapped(M, i)) && Cols(Swapped(M, i)) == Cols(M)
    ensures Rectangular(Normalized(Swapped(M, i), i)) && Cols(Normalized(Swapped(M, i), i)) == Cols(M)
  {
    var S := Swapped(M, i);
    assert forall r :: 0 <= r < |S| ==> |S[r]| == Cols(M);
    var N := Normalized(S, i);
    assert forall r :: 0 <= r < |N| ==> |N[r]| == Cols(M);
  }

  /** The whole pass for column `i`: swap, normalise, eliminate. */
  function ColumnPass(M: Matrix, i: nat): (P: Matrix)
    requires Rectangular(M) && i < |M| && i < Cols(M)
    ensures |P| == |M| && Rectangular(P) && Cols(P) == Cols(M)
  {
    SwappedShape(M, i);
    var N := Normalized(Swapped(M, i), i);
    EliminatedRows(N, i, |N|)
  }

  /** The log of the pass for column `i`. */
  function ColumnLog(M: Matrix, i: nat): seq<Step>
    requires Rectangular(M) && i < |M| && i < Cols(M)
  {
    var S := Swapped(M, i);
    (match SwapPartner(M, i) case Some(j) => [Swap(i, j)] case None => [])
    + [Divide(i, S[i][i])]
    + ElimLog(Normalized(S, i), i, |M|)
  }

  /** The working matrix after the passes for columns `0 .. k-1`. */
  function Run(W: Matrix, k: nat): (M: Matrix)
    requires Rectangular(W) && k <= |W| && k <= Cols(W)
    ensures |M| == |W| && Rectangular(M) && Cols(M) == Cols(W)
  {
    if k == 0 then W else ColumnPass(Run(W, k - 1), k - 1)
  }

  /** The log after the passes for columns `0 .. k-1`. */
  function RunLog(W: Matrix, k: nat): seq<Step>
    requires Rectangular(W) && k <= |W| && k <= Cols(W)
  {
    if k == 0 then [] else RunLog(W, k - 1) + ColumnLog(Run(W, k - 1), k - 1)
  }

  /** No pass before column `k` met a zero pivot. */
  predicate PivotsNonzero(W: Matrix, k: nat)
    requires Rectangular(W) && k <= |W| && k <= Cols(W)
  {
    forall c :: 0 <= c < k ==> PivotAt(W, c) != 0.0
  }

  /** The pivot the pass for column `c` divides by. */
  function PivotAt(W: Matrix, c: nat): real
    requires Rectangular(W) && c < |W| && c < Cols(W)
  {
    Pivot(Run(W, c), c)
  }

  /** Every row has `w` entries (also when there are no rows). */
  predicate Width(M: Matrix, w: nat)
  {
    forall r :: 0 <= r < |M| ==> |M[r]| == w
  }

  /** The last column, `M[:, -1]`. */
  function LastColumn(M: Matrix): (x: seq<real>)
    requires forall r :: 0 <= r < |M| ==> 0 < |M[r]|
    ensures |x| == |M| && forall r :: 0 <= r < |M| ==> x[r] == M[r][|M[r]| - 1]
  {
    seq(|M|, r requires 0 <= r < |M| => M[r][|M[r]| - 1])
  }

  lemma AugmentShape(A: Matrix, B: seq<real>)
    requires Rectangular(A) && |A| == |B|
    ensures Rectangular(Augment(A, B)) && Width(Augment(A, B), Cols(A) + 1)
    ensures 0 < |B| ==> Cols(Augment(A, B)) == Cols(A) + 1
  {
  }

  lemma RunWidth(W: Matrix, k: nat, w: nat)
    requires Rectangular(W) && k <= |W| && k <= Cols(W) && Width(W, w)
    ensures Width(Run(W, k), w)
  {
  }

  // ---------------------------------------------------------------------
  // What the passes preserve
  // ---------------------------------------------------------------------

  /** Columns `0 .. k-1` are standard basis vectors: column `c` is 1 in row
      `c` and 0 elsewhere. */
  predicate UnitColumns(M: Matrix, k: nat)
  {
    forall r, c :: 0 <= r < |M| && 0 <= c < k ==> c < |M[r]| && M[r][c] == (if r == c then 1.0 else 0.0)
  }

  /** `y` satisfies the equation of `row`, or with `h` its homogeneous
      version (right-hand side zero). */
  ghost predicate RowHolds(row: seq<real>, y: seq<real>, h: bool)
  {
    |row| == |y| + 1 && Dot(row[..|y|], y) == (if h then 0.0 else row[|y|])
  }

  ghost predicate Satisfies(M: Matrix, y: seq<real>, h: bool)
  {
    forall r :: 0 <= r < |M| ==> RowHolds(M[r], y, h)
  }

  /** The augmented systems `M` and `N` in `m` unknowns have the same
      solutions, and so do their homogeneous versions. */
  ghost predicate SameSolutions(M: Matrix, N: Matrix, m: nat)
  {
    forall y, h :: |y| == m ==> (Satisfies(M, y, h) <==> Satisfies(N, y, h))
  }

  lemma SameSolutionsTrans(M1: Matrix, M2: Matrix, M3: Matrix, m: nat)
    requires SameSolutions(M1, M2, m) && SameSolutions(M2, M3, m)
    ensures SameSolutions(M1, M3, m)
  {
    forall y, h | |y| == m
      ensures Satisfies(M1, y, h) <==> Satisfies(M3, y, h)
    {
      assert Satisfies(M1, y, h) <==> Satisfies(M2, y, h);
    }
  }

  lemma SwapKeepsSolutions(M: Matrix, i: nat, j: nat, m: nat)
    requires i < |M| && j < |M|
    ensures SameSolutions(M, SwapRows(M, i, j), m)
  {
    var S := SwapRows(M, i, j);
    forall y, h | |y| == m
      ensures Satisfies(M, y, h) <==> Satisfies(S, y, h)
    {
      if Satisfies(M, y, h) {
        forall r | 0 <= r < |S| ensures RowHolds(S[r], y, h) {
          if r == j { assert S[r] == M[i]; }
          else if r == i { assert S[r] == M[j]; }
          else { assert S[r] == M[r]; }
        }
      }
      if Satisfies(S, y, h) {
        forall r | 0 <= r < |M| ensures RowHolds(M[r], y, h) {
          if r == j { assert S[i] == M[r]; }
          else if r == i { assert S[j] == M[r]; }
          else { assert S[r] == M[r]; }
        }
      }
    }
  }

  /** The arithmetic behind `RowDivided`: with `dv == d/p` and `ev == e/p`
      for `p != 0`, `dv == ev` exactly when `d == e`, and `dv == 0` exactly
      when `d == 0`. */
  lemma DivideEquation(dv: real, ev: real, d: real, e: real, h: bool, p: real)
    requires p != 0.0 && dv == d / p && ev == e / p
    ensures dv == (if h then 0.0 else ev) <==> d == (if h then 0.0 else e)
  {
    assert dv * p == d;
    assert ev * p == e;
  }

  /** Dividing an equation by a non-zero number does not change its solutions. */
  lemma RowDivided(u: seq<real>, p: real, y: seq<real>, h: bool)
    requires |u| == |y| + 1 && p != 0.0
    ensures RowHolds(DivideBy(u, p), y, h) <==> RowHolds(u, y, h)
  {
    var m := |y|;
    var v := DivideBy(u, p);
    PrefixDivide(u, p, m);
    DotDivided(u[..m], y, p);
    DivideEquation(Dot(v[..m], y), v[m], Dot(u[..m], y), u[m], h, p);
  }

  /** Subtracting a multiple of a satisfied equation does not change whether
      another equation is satisfied. */
  lemma RowCombined(u: seq<real>, f: real, w: seq<real>, y: seq<real>, h: bool)
    requires |u| == |w| == |y| + 1
    requires RowHolds(w, y, h)
    ensures RowHolds(SubtractMultiple(u, f, w), y, h) <==> RowHolds(u, y, h)
  {
    var m := |y|;
    var z := SubtractMultiple(u, f, w);
    hide *;
    CombinedParts(u, f, w, y);
    RowHoldsIs(z, y, h);
    RowHoldsIs(u, y, h);
    RowHoldsIs(w, y, h);
    ScaledEqual(f, Dot(w[..m], y), w[m], h);
    CombineLinear(Dot(z[..m], y), z[m], Dot(u[..m], y), u[m], Mul(f, Dot(w[..m], y)), Mul(f, w[m]), h);
  }

  /** Both sides of `u - f * w` as combinations of the sides of `u` and `w`. */
  lemma CombinedParts(u: seq<real>, f: real, w: seq<real>, y: seq<real>)
    requires |u| == |w| == |y| + 1
    ensures var m, z := |y|, SubtractMultiple(u, f, w);
      && |z| == m + 1
      && Dot(z[..m], y) == Dot(u[..m], y) - Mul(f, Dot(w[..m], y))
      && z[m] == u[m] - Mul(f, w[m])
  {
    var m := |y|;
    var z := SubtractMultiple(u, f, w);
    var dw := Dot(w[..m], y);
    assert Mul(f, dw) == f * dw;
    PrefixSubtract(u, f, w, m);
    DotCombined(u[..m], f, w[..m], y);
    assert Dot(z[..m], y) == Dot(u[..m], y) - f * dw;
  }

  /** `f * dw` against `f * ew` when `dw == (if h then 0 else ew)`. */
  lemma ScaledEqual(f: real, dw: real, ew: real, h: bool)
    requires dw == (if h then 0.0 else ew)
    ensures Mul(f, dw) == (if h then 0.0 else Mul(f, ew))
  {
  }

  lemma CombineLinear(dz: real, ez: real, du: real, eu: real, fdw: real, few: real, h: bool)
    requires dz == du - fdw && ez == eu - few && fdw == (if h then 0.0 else few)
    ensures dz == (if h then 0.0 else ez) <==> du == (if h then 0.0 else eu)
  {
  }

  lemma RowHoldsIs(row: seq<real>, y: seq<real>, h: bool)
    requires |row| == |y| + 1
    ensures RowHolds(row, y, h) <==> Dot(row[..|y|], y) == (if h then 0.0 else row[|y|])
  {
  }

  lemma NormalizeKeepsSolutions(M: Matrix, i: nat, p: real, m: nat)
    requires i < |M| && |M[i]| == m + 1 && p != 0.0
    ensures SameSolutions(M, NormalizeRow(M, i, p), m)
  {
    var N := NormalizeRow(M, i, p);
    forall y, h | |y| == m
      ensures Satisfies(M, y, h) <==> Satisfies(N, y, h)
    {
      RowDivided(M[i], p, y, h);
      assert forall r :: 0 <= r < |M| && r != i ==> N[r] == M[r];
    }
  }

  lemma EliminateKeepsSolutions(N: Matrix, i: nat, m: nat)
    requires Rectangular(N) && i < |N| && Cols(N) == m + 1 && i < m + 1
    ensures SameSolutions(N, EliminatedRows(N, i, |N|), m)
  {
    var E := EliminatedRows(N, i, |N|);
    assert E[i] == N[i];
    forall y, h | |y| == m
      ensures Satisfies(N, y, h) <==> Satisfies(E, y, h)
    {
      if Satisfies(N, y, h) {
        forall r | 0 <= r < |E| ensures RowHolds(E[r], y, h) {
          if r != i {
            assert RowHolds(N[r], y, h) && RowHolds(N[i], y, h);
            RowCombined(N[r], N[r][i], N[i], y, h);
          }
        }
      }
      if Satisfies(E, y, h) {
        assert RowHolds(N[i], y, h) by { assert RowHolds(E[i], y, h); }
        forall r | 0 <= r < |N| ensures RowHolds(N[r], y, h) {
          if r != i {
            assert RowHolds(E[r], y, h);
            RowCombined(N[r], N[r][i], N[i], y, h);
          }
        }
      }
    }
  }

  /** One column pass keeps the solutions of the augmented system. */
  lemma ColumnPassKeepsSolutions(M: Matrix, i: nat)
    requires Rectangular(M) && i < |M| && i < Cols(M) && Pivot(M, i) != 0.0
    ensures SameSolutions(M, ColumnPass(M, i), Cols(M) - 1)
  {
    var m := Cols(M) - 1;
    var S := Swapped(M, i);
    SwappedShape(M, i);
    assert SameSolutions(M, S, m) by {
      if SwapPartner(M, i).Some? {
        SwapKeepsSolutions(M, i, SwapPartner(M, i).value, m);
      } else {
        assert S == M;
      }
    }
    var p := S[i][i];
    var N := NormalizeRow(S, i, p);
    assert N == Normalized(S, i);
    assert SameSolutions(S, N, m) by {
      NormalizeKeepsSolutions(S, i, p, m);
    }
    var E := EliminatedRows(N, i, |N|);
    assert SameSolutions(N, E, m) by {
      EliminateKeepsSolutions(N, i, m);
    }
    assert E == ColumnPass(M, i);
    SameSolutionsTrans(M, S, N, m);
    SameSolutionsTrans(M, N, E, m);
  }

  /** One column pass with a non-zero pivot turns column `i` into a unit
      column and keeps the earlier unit columns. */
  lemma ColumnPassUnit(M: Matrix, i: nat)
    requires Rectangular(M) && i < |M| && i < Cols(M) && Pivot(M, i) != 0.0
    requires UnitColumns(M, i)
    ensures UnitColumns(ColumnPass(M, i), i + 1)
  {
    var S := Swapped(M, i);
    SwappedShape(M, i);
    SwappedUnit(M, i);
    var N := NormalizeRow(S, i, S[i][i]);
    assert N == Normalized(S, i);
    NormalizedUnit(S, i, N);
    assert EliminatedRows(N, i, |N|) == ColumnPass(M, i);
    EliminatedUnit(N, i);
  }

  /** Swapping two rows at or below row `i` keeps the unit columns left of `i`. */
  lemma SwappedUnit(M: Matrix, i: nat)
    requires Rectangular(M) && i < |M| && i < Cols(M)
    requires UnitColumns(M, i)
    ensures UnitColumns(Swapped(M, i), i)
  {
    var S := Swapped(M, i);
    SwappedShape(M, i);
    if SwapPartner(M, i).Some? {
      var j := SwapPartner(M, i).value;
      forall r, c | 0 <= r < |S| && 0 <= c < i
        ensures M[r][c] == S[r][c]
      {
        if r == i || r == j {
          assert M[i][c] == 0.0 && M[j][c] == 0.0;
        }
      }
    } else {
      assert S == M;
    }
  }

  /** Dividing row `i` by a non-zero pivot gives it a 1 on the diagonal and
      leaves the zeros left of it and every other row alone. */
  lemma NormalizedUnit(S: Matrix, i: nat, N: Matrix)
    requires Rectangular(S) && i < |S| && i < Cols(S) && S[i][i] != 0.0
    requires UnitColumns(S, i) && N == Normalized(S, i)
    ensures Rectangular(N) && |N| == |S| && Cols(N) == Cols(S)
    ensures N[i][i] == 1.0
    ensures forall c :: 0 <= c < i ==> N[i][c] == 0.0
    ensures forall r :: 0 <= r < |N| && r != i ==> N[r] == S[r]
  {
    var p := S[i][i];
    var d := DivideBy(S[i], p);
    assert N == S[i := d];
    assert d[i] == p / p == 1.0;
    forall c | 0 <= c < i ensures N[i][c] == 0.0 {
      assert S[i][c] == 0.0;
      assert d[c] == S[i][c] / p;
    }
  }

  /** Eliminating column `i` with a normalised pivot row completes unit
      column `i` and keeps the unit columns left of it. */
  lemma EliminatedUnit(N: Matrix, i: nat)
    requires Rectangular(N) && i < |N| && i < Cols(N) && N[i][i] == 1.0
    requires forall c :: 0 <= c < i ==> N[i][c] == 0.0
    requires forall r, c :: 0 <= r < |N| && r != i && 0 <= c < i ==> N[r][c] == (if r == c then 1.0 else 0.0)
    ensures UnitColumns(EliminatedRows(N, i, |N|), i + 1)
  {
    var E := EliminatedRows(N, i, |N|);
    forall r, c | 0 <= r < |E| && 0 <= c < i + 1
      ensures E[r][c] == (if r == c then 1.0 else 0.0)
    {
      if r != i {
        assert E[r][c] == N[r][c] - N[r][i] * N[i][c];
      }
    }
  }

  /** One more pass applies that pass to the working matrix. */
  lemma RunStep(W: Matrix, j: nat)
    requires Rectangular(W) && j < |W| && j < Cols(W)
    ensures Run(W, j + 1) == ColumnPass(Run(W, j), j)
  {
  }

  /** After `k` passes with non-zero pivots, columns `0 .. k-1` are unit
      columns and the system has the solutions it started with. */
  lemma {:induction false} RunInvariant(W: Matrix, k: nat, m: nat)
    requires Rectangular(W) && Width(W, m + 1) && k <= |W| && k <= Cols(W)
    requires PivotsNonzero(W, k)
    ensures UnitColumns(Run(W, k), k)
    ensures SameSolutions(W, Run(W, k), m)
  {
    if k == 0 {
      assert SameSolutions(W, W, m);
    } else {
      var j: nat := k - 1;
      assert PivotsNonzero(W, j) && Pivot(Run(W, j), j) != 0.0 by {
        assert PivotAt(W, j) != 0.0;
      }
      hide *;
      RunInvariant(W, j, m);
      RunStep(W, j);
      ColumnPassUnit(Run(W, j), j);
      assert SameSolutions(Run(W, j), Run(W, j + 1), m) by {
        ColumnPassKeepsSolutions(Run(W, j), j);
      }
      SameSolutionsTrans(W, Run(W, j), Run(W, j + 1), m);
    }
  }

  // ---------------------------------------------------------------------
  // What the answer means
  // ---------------------------------------------------------------------

  /** The right-hand side `B`, or zero for the homogeneous system. */
  function Rhs(h: bool, B: seq<real>): seq<real>
  {
    if h then Zeros(|B|) else B
  }

  /** The augmented matrix `[A | B]` states `A @ y == B`. */
  lemma AugmentSatisfies(A: Matrix, B: seq<real>, y: seq<real>, h: bool)
    requires Rectangular(A) && |A| == |B| && |y| == Cols(A)
    ensures Satisfies(Augment(A, B), y, h) <==> MatVec(A, y) == Rhs(h, B)
  {
    var W := Augment(A, B);
    if Satisfies(W, y, h) {
      forall r | 0 <= r < |A| ensures MatVec(A, y)[r] == Rhs(h, B)[r] {
        assert RowHolds(W[r], y, h);
      }
    }
    if MatVec(A, y) == Rhs(h, B) {
      forall r | 0 <= r < |W| ensures RowHolds(W[r], y, h) {
        assert MatVec(A, y)[r] == Dot(A[r], y);
      }
    }
  }

  /** The augmented system `M` has exactly the solutions of `A @ y == B`,
      and its homogeneous version those of `A @ y == 0`. */
  ghost predicate Represents(A: Matrix, B: seq<real>, M: Matrix)
  {
    && Rectangular(A) && |A| == |B|
    && forall y, h :: |y| == Cols(A) ==> (MatVec(A, y) == Rhs(h, B) <==> Satisfies(M, y, h))
  }

  /** After `k` passes with non-zero pivots the working matrix has `A`'s
      shape plus one column, unit columns `0 .. k-1`, and still represents
      `A @ y == B`. */
  lemma Reduced(A: Matrix, B: seq<real>, k: nat)
    requires Rectangular(A) && |A| == |B| && k <= |B| && k <= Cols(A) + 1
    requires PivotsNonzero(Augment(A, B), k)
    ensures |Run(Augment(A, B), k)| == |B|
    ensures Width(Run(Augment(A, B), k), Cols(A) + 1) && UnitColumns(Run(Augment(A, B), k), k)
    ensures Represents(A, B, Run(Augment(A, B), k))
  {
    var W := Augment(A, B);
    AugmentShape(A, B);
    RunWidth(W, k, Cols(A) + 1);
    RunInvariant(W, k, Cols(A));
    var M := Run(W, k);
    forall y, h | |y| == Cols(A)
      ensures MatVec(A, y) == Rhs(h, B) <==> Satisfies(M, y, h)
    {
      AugmentSatisfies(A, B, y, h);
      assert Satisfies(W, y, h) <==> Satisfies(M, y, h);
    }
  }

  /** In a matrix whose first `k` columns are unit columns, row `r` restricted
      to those columns is the `r`-th basis vector (the zero vector when `r >= k`). */
  lemma UnitPrefix(M: Matrix, r: nat, k: nat)
    requires UnitColumns(M, k) && r < |M| && k <= |M[r]|
    ensures M[r][..k] == Unit(r, k)
  {
  }

  /** In a fully reduced system, row `r < n` pins `y[r]` to the last
      column (to 0 for `h`), when the unknowns beyond `n` are zero. */
  lemma ReducedRow(M: Matrix, n: nat, y: seq<real>, h: bool, r: nat)
    requires |M| == n && Width(M, |y| + 1) && UnitColumns(M, n) && r < n <= |y|
    requires forall c :: n <= c < |y| ==> y[c] == 0.0
    ensures RowHolds(M[r], y, h) <==> y[r] == (if h then 0.0 else M[r][|y|])
  {
    var m := |y|;
    DotZeroTail(M[r][..m], y, n);
    assert M[r][..m][..n] == M[r][..n];
    UnitPrefix(M, r, n);
    DotUnit(r, y[..n]);
  }

  /** Square or wide `A` (`len(B) <= cols`): once the system is reduced,
      its last column padded with zeros solves `A @ y == B`. */
  lemma SolvedSystem(A: Matrix, B: seq<real>, M: Matrix)
    requires Represents(A, B, M) && |B| <= Cols(A)
    requires |M| == |B| && Width(M, Cols(A) + 1) && UnitColumns(M, |B|)
    ensures MatVec(A, LastColumn(M) + Zeros(Cols(A) - |B|)) == B
  {
    var n, m := |B|, Cols(A);
    var z := LastColumn(M) + Zeros(m - n);
    forall r | 0 <= r < n ensures RowHolds(M[r], z, false) {
      ReducedRow(M, n, z, false, r);
    }
    assert Satisfies(M, z, false);
  }

  /** Square `A`: once the system is reduced, its last column is the only
      solution of `A @ y == B`, and `A @ y == 0` has only the trivial one. */
  lemma SquareUnique(A: Matrix, B: seq<real>, M: Matrix, y: seq<real>)
    requires Represents(A, B, M) && Cols(A) == |B| == |y|
    requires |M| == |B| && Width(M, Cols(A) + 1) && UnitColumns(M, |B|)
    ensures MatVec(A, y) == B <==> y == LastColumn(M)
    ensures MatVec(A, y) == Zeros(|A|) ==> y == Zeros(|A|)
  {
    var n := |B|;
    var x := LastColumn(M);
    forall r | 0 <= r < n
      ensures RowHolds(M[r], y, false) <==> y[r] == x[r]
      ensures RowHolds(M[r], y, true) <==> y[r] == 0.0
    {
      ReducedRow(M, n, y, false, r);
      ReducedRow(M, n, y, true, r);
    }
    if y == x {
      assert Satisfies(M, y, false);
    }
    if MatVec(A, y) == B {
      assert Satisfies(M, y, false);
    }
    if MatVec(A, y) == Zeros(|A|) {
      assert Satisfies(M, y, true);
    }
  }

  /** `A` with one column fewer than `len(B)`: once the system is reduced
      (the last pass pivots on the column of `B`), the last column is the
      last basis vector and `A @ y == B` has no solution at all. */
  lemma NarrowSystem(A: Matrix, B: seq<real>, M: Matrix)
    requires Represents(A, B, M) && |B| == Cols(A) + 1
    requires |M| == |B| && Width(M, |B|) && UnitColumns(M, |B|)
    ensures LastColumn(M) == Unit(Cols(A), |B|)
    ensures forall y :: |y| == Cols(A) ==> MatVec(A, y) != B
  {
    var m := Cols(A);
    forall y | |y| == m ensures MatVec(A, y) != B {
      assert Rhs(false, B) == B;
      if MatVec(A, y) == B {
        assert RowHolds(M[m], y, false);
        UnitPrefix(M, m, m);
        DotUnit(m, y);
        assert false;
      }
    }
  }

  /** A zero pivot at column `i` leaves column `i` zero from row `i` down. */
  lemma ZeroPivotColumn(M: Matrix, i: nat)
    requires i < |M| && HasColumn(M, i) && Pivot(M, i) == 0.0
    ensures forall r :: i <= r < |M| ==> M[r][i] == 0.0
  {
    assert M[i][i] == 0.0;
    assert FirstNonzeroBelow(M, i).None?;
  }

  /** The candidate null vector for a zero pivot at column `i`: `1` at `i`,
      `-M[c][i]` at the earlier unit columns, `0` elsewhere. */
  function KernelCandidate(M: Matrix, i: nat, m: nat): (y: seq<real>)
    requires i < m && HasColumn(M, i) && i <= |M|
    ensures |y| == m && y[i] == 1.0
  {
    seq(m, c requires 0 <= c < m => if c < i then -M[c][i] else if c == i then 1.0 else 0.0)
  }

  lemma KernelRow(M: Matrix, i: nat, m: nat, r: nat)
    requires i < m && i <= |M| && r < |M| && Width(M, m + 1) && UnitColumns(M, i)
    requires forall k :: i <= k < |M| ==> M[k][i] == 0.0
    ensures RowHolds(M[r], KernelCandidate(M, i, m), true)
  {
    var y := KernelCandidate(M, i, m);
    var u := M[r][..m];
    DotZeroTail(u, y, i + 1);
    assert u[..i + 1][..i] == M[r][..i];
    assert y[..i + 1][..i] == y[..i];
    UnitPrefix(M, r, i);
    DotUnit(r, y[..i]);
    assert Dot(u[..i + 1], y[..i + 1]) == Dot(M[r][..i], y[..i]) + M[r][i] * 1.0;
  }

  /** A system reduced up to column `i` whose column `i` is zero from row `i`
      down: `A` has a non-zero null vector. */
  lemma ZeroColumnKernel(A: Matrix, B: seq<real>, M: Matrix, i: nat)
    requires Represents(A, B, M) && i < |B| && i < Cols(A)
    requires |M| == |B| && Width(M, Cols(A) + 1) && UnitColumns(M, i)
    requires forall r :: i <= r < |M| ==> M[r][i] == 0.0
    ensures exists y :: |y| == Cols(A) && y != Zeros(Cols(A)) && MatVec(A, y) == Zeros(|A|)
  {
    var m := Cols(A);
    var y := KernelCandidate(M, i, m);
    forall r | 0 <= r < |M| ensures RowHolds(M[r], y, true) {
      KernelRow(M, i, m, r);
    }
    assert Satisfies(M, y, true);
    assert y[i] != Zeros(m)[i];
  }

  /** A zero pivot at column `i < cols(A)` means `A` has a non-zero null vector. */
  lemma ZeroPivotKernel(A: Matrix, B: seq<real>, i: nat)
    requires Rectangular(A) && |A| == |B| && i < |B| && i < Cols(A)
    requires PivotsNonzero(Augment(A, B), i)
    requires PivotAt(Augment(A, B), i) == 0.0
    ensures exists y :: |y| == Cols(A) && y != Zeros(Cols(A)) && MatVec(A, y) == Zeros(|A|)
  {
    Reduced(A, B, i);
    var M := Run(Augment(A, B), i);
    ZeroPivotColumn(M, i);
    ZeroColumnKernel(A, B, M, i);
  }

  // ---------------------------------------------------------------------
  // The log
  // ---------------------------------------------------------------------

  function CountSwaps(s: seq<Step>): nat
  {
    if |s| == 0 then 0 else CountSwaps(s[..|s| - 1]) + (if s[|s| - 1].Swap? then 1 else 0)
  }

  function CountDivides(s: seq<Step>): nat
  {
    if |s| == 0 then 0 else CountDivides(s[..|s| - 1]) + (if s[|s| - 1].Divide? then 1 else 0)
  }

  function CountEliminations(s: seq<Step>): nat
  {
    if |s| == 0 then 0 else CountEliminations(s[..|s| - 1]) + (if s[|s| - 1].Eliminate? then 1 else 0)
  }

  /** The three counts add up over a concatenation. */
  lemma {:induction false} CountsConcat(a: seq<Step>, b: seq<Step>)
    ensures CountSwaps(a + b) == CountSwaps(a) + CountSwaps(b)
    ensures CountDivides(a + b) == CountDivides(a) + CountDivides(b)
    ensures CountEliminations(a + b) == CountEliminations(a) + CountEliminations(b)
    decreases |b|
  {
    if |b| == 0 {
      assert a + b == a;
    } else {
      var b' := b[..|b| - 1];
      assert (a + b)[..|a + b| - 1] == a + b';
      assert (a + b)[|a + b| - 1] == b[|b| - 1];
      CountsConcat(a, b');
    }
  }

  /** Every entry of a log is a swap, a division or an elimination. */
  lemma {:induction false} CountsCover(s: seq<Step>)
    ensures |s| == CountSwaps(s) + CountDivides(s) + CountEliminations(s)
  {
    if |s| > 0 {
      CountsCover(s[..|s| - 1]);
    }
  }

  lemma {:induction false} ElimLogCounts(N: Matrix, i: nat, j: nat)
    requires j <= |N| && HasColumn(N, i)
    ensures CountSwaps(ElimLog(N, i, j)) == 0 && CountDivides(ElimLog(N, i, j)) == 0
    ensures CountEliminations(ElimLog(N, i, j)) == if i < j then j - 1 else j
  {
    if j > 0 {
      var L := ElimLog(N, i, j - 1);
      var t: seq<Step> := if j - 1 == i then [] else [Eliminate(j - 1, N[j - 1][i], i)];
      assert ElimLog(N, i, j) == L + t;
      assert |t| == 0 <==> j - 1 == i;
      hide *;
      ElimLogCounts(N, i, j - 1);
      CountsConcat(L, t);
      EliminationCounts(t);
    }
  }

  /** No step, or one elimination step. */
  lemma EliminationCounts(t: seq<Step>)
    requires |t| == 0 || (|t| == 1 && t[0].Eliminate?)
    ensures CountSwaps(t) == 0 && CountDivides(t) == 0 && CountEliminations(t) == |t|
  {
    if |t| == 1 {
      assert t[..0] == [];
    }
  }

  /** One pass logs one division, `n - 1` eliminations and at most one swap
      (none in the last row, where no lower row exists). */
  lemma ColumnLogCounts(M: Matrix, i: nat)
    requires Rectangular(M) && i < |M| && i < Cols(M)
    ensures CountDivides(ColumnLog(M, i)) == 1
    ensures CountEliminations(ColumnLog(M, i)) == |M| - 1
    ensures CountSwaps(ColumnLog(M, i)) <= (if i + 1 < |M| then 1 else 0)
  {
    var S := Swapped(M, i);
    SwappedShape(M, i);
    var sw: seq<Step> := match SwapPartner(M, i) case Some(j) => [Swap(i, j)] case None => [];
    var dv: seq<Step> := [Divide(i, S[i][i])];
    var el := ElimLog(Normalized(S, i), i, |M|);
    assert ColumnLog(M, i) == sw + dv + el;
    assert |sw| <= 1 && (|sw| == 1 ==> sw[0].Swap? && i + 1 < |M|);
    hide *;
    ElimLogCounts(Normalized(S, i), i, |M|);
    CountsConcat(sw, dv);
    CountsConcat(sw + dv, el);
    CountsSingle(dv[0]);
    assert dv == [dv[0]];
    if |sw| == 1 {
      CountsSingle(sw[0]);
      assert sw == [sw[0]];
    } else {
      CountsEmpty(sw);
    }
  }

  lemma CountsSingle(st: Step)
    ensures CountSwaps([st]) == (if st.Swap? then 1 else 0)
    ensures CountDivides([st]) == (if st.Divide? then 1 else 0)
    ensures CountEliminations([st]) == (if st.Eliminate? then 1 else 0)
  {
    assert [st][..0] == [];
  }

  lemma CountsEmpty(s: seq<Step>)
    requires |s| == 0
    ensures CountSwaps(s) == 0 && CountDivides(s) == 0 && CountEliminations(s) == 0
  {}

  /** `k * (n - 1)`, the eliminations of `k` passes over `n` rows, summed
      pass by pass. */
  function Eliminations(k: nat, n: int): int
  {
    if k == 0 then 0 else Eliminations(k - 1, n) + (n - 1)
  }

  lemma {:induction false} EliminationsProduct(k: nat, n: int)
    ensures Eliminations(k, n) == k * (n - 1)
  {
    if k > 0 {
      EliminationsProduct(k - 1, n);
      assert (k - 1) * (n - 1) + (n - 1) == k * (n - 1);
    }
  }

  /** One more pass appends that pass's log. */
  lemma RunLogStep(W: Matrix, j: nat)
    requires Rectangular(W) && j < |W| && j < Cols(W)
    ensures RunLog(W, j + 1) == RunLog(W, j) + ColumnLog(Run(W, j), j)
  {
  }

  /** The counts of `k - 1` passes plus those of the `k`-th. */
  lemma PassCounts(S: seq<Step>, L: seq<Step>, C: seq<Step>, k: nat, n: nat)
    requires 0 < k <= n && S == L + C
    requires CountDivides(L) + 1 == k && CountEliminations(L) == Eliminations(k - 1, n) && CountSwaps(L) < k
    requires CountDivides(C) == 1 && CountEliminations(C) == n - 1 && CountSwaps(C) <= (if k < n then 1 else 0)
    ensures CountDivides(S) == k && CountEliminations(S) == Eliminations(k, n)
    ensures CountSwaps(S) <= k && (k == n ==> CountSwaps(S) <= k - 1)
  {
    CountsConcat(L, C);
  }

  /** After `k` passes: `k` divisions, `n - 1` eliminations per pass, and at
      most `min(k, n - 1)` swaps. */
  lemma {:induction false} RunLogCounts(W: Matrix, k: nat)
    requires Rectangular(W) && k <= |W| && k <= Cols(W)
    ensures CountDivides(RunLog(W, k)) == k
    ensures CountEliminations(RunLog(W, k)) == Eliminations(k, |W|)
    ensures CountSwaps(RunLog(W, k)) <= k
    ensures 0 < k == |W| ==> CountSwaps(RunLog(W, k)) <= k - 1
  {
    if k > 0 {
      hide *;
      var j: nat := k - 1;
      RunLogCounts(W, j);
      RunLogStep(W, j);
      ColumnLogCounts(Run(W, j), j);
      PassCounts(RunLog(W, j + 1), RunLog(W, j), ColumnLog(Run(W, j), j), j + 1, |W|);
    }
  }

  // ---------------------------------------------------------------------
  // The solver
  // ---------------------------------------------------------------------

  /** The pivot search of one column: when `M[i][i]` is zero, scan the rows
      below for a non-zero entry and swap the first one up. */
  method SwapForPivot(M: Matrix, i: nat) returns (S: Matrix, log: seq<Step>)
    requires i < |M| && HasColumn(M, i)
    ensures S == Swapped(M, i)
    ensures log == match SwapPartner(M, i) case Some(j) => [Swap(i, j)] case None => []
  {
    S, log := M, [];
    if M[i][i] == 0.0 {
      var j := i + 1;
      while j < |M|
        invariant i + 1 <= j <= |M|
        invariant forall k :: i < k < j ==> M[k][i] == 0.0
      {
        if M[j][i] != 0.0 {
          assert FirstNonzeroBelow(M, i) == Some(j);
          S, log := SwapRows(M, i, j), [Swap(i, j)];
          return;
        }
        j := j + 1;
      }
    }
  }

  /** The elimination loop of one column: every row other than `i` loses
      its column-`i` entry times row `i`. */
  method EliminateColumn(N: Matrix, i: nat) returns (E: Matrix, log: seq<Step>)
    requires Rectangular(N) && i < |N| && i < Cols(N)
    ensures E == EliminatedRows(N, i, |N|) && log == ElimLog(N, i, |N|)
  {
    assert HasColumn(N, i) && |N[i]| == Cols(N);
    hide *;
    ElimStart(N, i);
    E, log := N, [];
    var j := 0;
    while j < |N|
      invariant 0 <= j <= |N|
      invariant E == EliminatedRows(N, i, j)
      invariant log == ElimLog(N, i, j)
    {
      ElimStep(N, i, j, E);
      if j != i {
        var factor := E[j][i];
        var row := SubtractMultiple(E[j], factor, E[i]);
        assert EliminatedRows(N, i, j + 1) == E[j := row];
        assert ElimLog(N, i, j + 1) == log + [Eliminate(j, factor, i)];
        E := E[j := row];
        log := log + [Eliminate(j, factor, i)];
      } else {
        assert EliminatedRows(N, i, j + 1) == E;
        assert ElimLog(N, i, j + 1) == log + [];
        SeqEmptyRight(log);
      }
      j := j + 1;
    }
  }

  /** Before the loop: nothing eliminated, nothing logged. */
  lemma ElimStart(N: Matrix, i: nat)
    requires Rectangular(N) && i < |N| && i < Cols(N)
    ensures EliminatedRows(N, i, 0) == N && ElimLog(N, i, 0) == []
  {
    var E := EliminatedRows(N, i, 0);
    assert forall r :: 0 <= r < |N| ==> E[r] == N[r];
  }

  /** One iteration of the elimination loop: row `j` still holds its
      original entries, and so does the pivot row. */
  lemma ElimStep(N: Matrix, i: nat, j: nat, E: Matrix)
    requires Rectangular(N) && i < |N| && i < Cols(N) && j < |N|
    requires E == EliminatedRows(N, i, j)
    ensures |E| == |N| && E[j] == N[j] && E[i] == N[i] && |E[j]| == Cols(N) && |E[i]| == Cols(N)
    ensures EliminatedRows(N, i, j + 1) ==
      (if j == i then E else E[j := SubtractMultiple(E[j], E[j][i], E[i])])
    ensures ElimLog(N, i, j + 1) ==
      ElimLog(N, i, j) + (if j == i then [] else [Eliminate(j, E[j][i], i)])
  {
    var F := EliminatedRows(N, i, j + 1);
    if j != i {
      assert F == E[j := SubtractMultiple(E[j], E[j][i], E[i])];
    } else {
      assert F == E;
    }
  }

  /** The pivot of pass `i` read off the matrix the passes before it left. */
  lemma PivotOfRun(W: Matrix, i: nat, M: Matrix)
    requires Rectangular(W) && i < |W| && i < Cols(W) && M == Run(W, i)
    ensures PivotAt(W, i) == Pivot(M, i)
  {
  }

  /** A non-zero pivot at pass `i` extends the run of non-zero pivots. */
  lemma PivotsExtend(W: Matrix, i: nat)
    requires Rectangular(W) && i < |W| && i < Cols(W)
    requires PivotsNonzero(W, i) && PivotAt(W, i) != 0.0
    ensures PivotsNonzero(W, i + 1)
  {
  }

  /** One iteration of the column loop: the swap, the pivot it leaves on
      the diagonal, and (when that pivot is non-zero) the division and the
      eliminations, with their log lines. */
  method PassColumn(M: Matrix, i: nat) returns (pivot: real, E: Matrix, log: seq<Step>)
    requires Rectangular(M) && i < |M| && i < Cols(M)
    ensures pivot == Pivot(M, i)
    ensures pivot != 0.0 ==> E == ColumnPass(M, i) && log == ColumnLog(M, i)
  {
    SwappedShape(M, i);
    var S, swapLog := SwapForPivot(M, i);
    pivot := S[i][i];
    if pivot == 0.0 {
      return pivot, S, swapLog;
    }
    var N := NormalizeRow(S, i, pivot);
    var elimLog;
    E, elimLog := EliminateColumn(N, i);
    log := swapLog + [Divide(i, pivot)] + elimLog;
    assert N == Normalized(S, i);
  }

  /** The column loop of `solve_obe` over the augmented matrix `W`: either
      all `n` passes, or the first pass whose pivot is zero. */
  method RunPasses(W: Matrix, n: nat) returns (M: Matrix, steps: seq<Step>, failed: Option<nat>)
    requires Rectangular(W) && n <= |W| && n <= Cols(W)
    ensures failed.None? ==> PivotsNonzero(W, n) && M == Run(W, n) && steps == RunLog(W, n)
    ensures failed.Some? ==>
      failed.value < n && PivotsNonzero(W, failed.value) && PivotAt(W, failed.value) == 0.0
  {
    M, steps := W, [];
    var i := 0;
    while i < n
      invariant 0 <= i <= n
      invariant PivotsNonzero(W, i)
      invariant M == Run(W, i)
      invariant steps == RunLog(W, i)
    {
      hide *;
      var pivot, E, log := PassColumn(M, i);
      PivotOfRun(W, i, M);
      if pivot == 0.0 {
        return M, steps, Some(i);
      }
      M, steps := E, steps + log;
      RunStep(W, i);
      RunLogStep(W, i);
      PivotsExtend(W, i);
      i := i + 1;
    }
    failed := None;
  }

  /** `solve_obe(A, B)`. The source works on a converted copy of `A`; here
      `A` is a value, so the caller's matrix cannot change. */
  method SolveObe(A: Matrix, B: seq<real>) returns (r: Result<Solution, ObeError>)
    requires Rectangular(A)
    // error cases
    ensures r == Failure(ShapeMismatch) <==> |A| != |B|
    ensures r == Failure(IndexOutOfRange) <==> |A| == |B| && |B| >= Cols(A) + 2
    ensures r.Failure? && r.error.ZeroPivot? ==>
      && |A| == |B| && r.error.column < |B| && r.error.column <= Cols(A)
      && PivotsNonzero(Augment(A, B), r.error.column)
      && PivotAt(Augment(A, B), r.error.column) == 0.0
    ensures r.Failure? && r.error.ZeroPivot? && r.error.column < Cols(A) ==>
      exists y :: |y| == Cols(A) && y != Zeros(Cols(A)) && MatVec(A, y) == Zeros(|A|)
    // the run is exactly the reference passes
    ensures r.Success? ==>
      && |A| == |B| <= Cols(A) + 1
      && PivotsNonzero(Augment(A, B), |B|)
      && Width(Run(Augment(A, B), |B|), Cols(A) + 1)
      && r.value.x == LastColumn(Run(Augment(A, B), |B|))
      && r.value.steps == RunLog(Augment(A, B), |B|)
  {
    var n := |B|;
    if |A| != n {
      return Failure(ShapeMismatch);
    }
    var m := Cols(A);
    if n >= m + 2 {
      return Failure(IndexOutOfRange);
    }
    AugmentShape(A, B);
    var W := Augment(A, B);
    var M, steps, failed := RunPasses(W, n);
    if failed.Some? {
      var i := failed.value;
      r := Failure(ZeroPivot(i));
      assert i < m ==> exists y :: |y| == m && y != Zeros(m) && MatVec(A, y) == Zeros(|A|) by {
        if i < m {
          ZeroPivotKernel(A, B, i);
        }
      }
      return;
    }
    assert Width(M, m + 1) by {
      RunWidth(W, n, m + 1);
    }
    var x := LastColumn(M);
    r := Success(Solution(x, steps));
  }

  /** What a fully reduced system says about `A @ y == B`. */
  lemma ReducedAnswer(A: Matrix, B: seq<real>, M: Matrix, x: seq<real>)
    requires Represents(A, B, M) && |B| <= Cols(A) + 1
    requires |M| == |B| && Width(M, Cols(A) + 1) && UnitColumns(M, |B|)
    requires x == LastColumn(M)
    ensures |B| <= Cols(A) ==> MatVec(A, x + Zeros(Cols(A) - |B|)) == B
    ensures Cols(A) == |B| ==> forall y :: |y| == |B| ==> (MatVec(A, y) == B <==> y == x)
    ensures Cols(A) == |B| ==> forall y :: |y| == |B| && MatVec(A, y) == Zeros(|A|) ==> y == Zeros(|A|)
    ensures Cols(A) + 1 == |B| ==> x == Unit(Cols(A), |B|) && forall y :: |y| == Cols(A) ==> MatVec(A, y) != B
  {
    if |B| <= Cols(A) {
      SolvedSystem(A, B, M);
    } else {
      NarrowSystem(A, B, M);
    }
    if Cols(A) == |B| {
      forall y | |y| == |B|
        ensures MatVec(A, y) == B <==> y == x
        ensures MatVec(A, y) == Zeros(|A|) ==> y == Zeros(|A|)
      {
        SquareUnique(A, B, M, y);
      }
    }
  }

  /** A log of `n` divisions, `n * (n - 1)` eliminations and at most `n - 1`
      swaps has between `n^2` and `n^2 + n - 1` entries. */
  lemma LogLength(steps: seq<Step>, n: nat)
    requires CountDivides(steps) == n && CountEliminations(steps) == Eliminations(n, n)
    requires CountSwaps(steps) <= n && (n > 0 ==> CountSwaps(steps) <= n - 1)
    ensures CountEliminations(steps) == n * (n - 1)
    ensures n > 0 ==> n * n <= |steps| <= n * n + n - 1
    ensures n == 0 ==> steps == []
  {
    CountsCover(steps);
    EliminationsProduct(n, n);
    assert n + n * (n - 1) == n * n;
  }

  /** What a successful `solve_obe` answer says about `A @ y == B`. */
  lemma SolveObeAnswer(A: Matrix, B: seq<real>, x: seq<real>)
    requires Rectangular(A) && |A| == |B| <= Cols(A) + 1
    requires PivotsNonzero(Augment(A, B), |B|)
    requires Width(Run(Augment(A, B), |B|), Cols(A) + 1)
    requires x == LastColumn(Run(Augment(A, B), |B|))
    ensures |B| <= Cols(A) ==> MatVec(A, x + Zeros(Cols(A) - |B|)) == B
    ensures Cols(A) == |B| ==> forall y :: |y| == |B| ==> (MatVec(A, y) == B <==> y == x)
    ensures Cols(A) == |B| ==> forall y :: |y| == |B| && MatVec(A, y) == Zeros(|A|) ==> y == Zeros(|A|)
    ensures Cols(A) + 1 == |B| ==> x == Unit(Cols(A), |B|) && forall y :: |y| == Cols(A) ==> MatVec(A, y) != B
  {
    hide *;
    AugmentShape(A, B);
    assert |Run(Augment(A, B), |B|)| == |B| && UnitColumns(Run(Augment(A, B), |B|), |B|)
      && Represents(A, B, Run(Augment(A, B), |B|)) by {
      Reduced(A, B, |B|);
    }
    ReducedAnswer(A, B, Run(Augment(A, B), |B|), x);
  }

  /** What the log of a run over `n` rows holds, whatever the pivots. */
  lemma SolveObeLog(A: Matrix, B: seq<real>, steps: seq<Step>)
    requires Rectangular(A) && |A| == |B| <= Cols(A) + 1
    requires steps == RunLog(Augment(A, B), |B|)
    ensures CountDivides(steps) == |B|
    ensures CountEliminations(steps) == |B| * (|B| - 1)
    ensures |B| > 0 ==> CountSwaps(steps) <= |B| - 1
    ensures |B| > 0 ==> |B| * |B| <= |steps| <= |B| * |B| + |B| - 1
    ensures |B| == 0 ==> steps == []
  {
    hide *;
    AugmentShape(A, B);
    RunLogCounts(Augment(A, B), |B|);
    LogLength(steps, |B|);
  }

  /** The strings of the full log: `n` lines "Bagi baris ...", `n*(n-1)`
      lines "Baris ..." and at most `n-1` lines "Tukar baris ...". */
  lemma SolveObeLines(A: Matrix, B: seq<real>, steps: seq<Step>, fmt2: Renderer)
    requires Rectangular(A) && |A| == |B| <= Cols(A) + 1
    requires steps == RunLog(Augment(A, B), |B|)
    ensures |RenderLog(steps, fmt2)| == |steps|
    ensures CountStarting(RenderLog(steps, fmt2), "Bagi baris ") == |B|
    ensures CountStarting(RenderLog(steps, fmt2), "Baris ") == |B| * (|B| - 1)
    ensures |B| > 0 ==> CountStarting(RenderLog(steps, fmt2), "Tukar baris ") <= |B| - 1
  {
    SolveObeLog(A, B, steps);
    RenderedCounts(steps, fmt2);
  }

  /** For square `A`, `solve_obe` succeeds exactly when `A @ y == 0` has
      only the trivial solution, i.e. when `A` is invertible. */
  method SolveObeSquare(A: Matrix, B: seq<real>) returns (r: Result<Solution, ObeError>)
    requires IsSquare(A) && |A| == |B|
    ensures r.Success? <==> forall y :: |y| == |A| && MatVec(A, y) == Zeros(|A|) ==> y == Zeros(|A|)
    ensures r.Success? ==> forall y :: |y| == |B| ==> (MatVec(A, y) == B <==> y == r.value.x)
  {
    r := SolveObe(A, B);
    if r.Success? {
      SolveObeAnswer(A, B, r.value.x);
    }
  }
}

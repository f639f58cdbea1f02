# Calculator-Matrix core in Dafny

This project models the computational core of a small linear-algebra calculator. It covers three parts of the program.

- **Solvers** (`matrix_utils.py`):
  - `solve_obe` is Gauss-Jordan elimination on the augmented matrix `[A | B]`. It does a zero-pivot row swap and writes a step log in Indonesian.
  - `solve_cramer` is Cramer's rule.
  - `cetak_matriks` is the matrix printer.
- **The sectioned matrix file** (`file_utils.py`): `export_matrix` writes each matrix as a `[name]` line, its rows and a blank line. `import_matrix` reads such a file back into a dict.
- **The text-area readers** (`process_window.py`): `WindowProses.parse_matrix` and `WindowProses.parse_vector`.

Numbers are exact reals. Python's `float(token)` is the parameter `parse: string -> Option<real>`, whose `None` stands for the `ValueError`. The renderings `%.2f` and `%.4f` are parameters of type `Renderer`. A renderer's output is only known to be one non-empty run of non-whitespace characters that does not start with a bracket. The determinant that `np.linalg.det` computes is defined by cofactor expansion.

Modules follow the program:

- `Results`: `Option` and `Result`.
- `PyText`: the Python string methods the code relies on, with Python's own whitespace and line-boundary sets. These are `splitlines`, `split`, `strip`, `strip("[]")`, `" ".join` and `str(int)`.
- `NumText`: the abstract `float` and renderers, and `[float(t) for t in tokens]`.
- `Matrices`: dense matrices as `seq<seq<real>>`, with dot products, row operations, column replacement and the determinant.
- `GaussJordan`: `solve_obe`. It has a functional reference (`Run`, `RunLog`) that states the state after `k` columns, and the loop program `SolveObe`, which is proved to compute exactly the reference. Further lemmas give what the answer means. The log is a list of `Step` values, and `Render` gives the string the source appends for each one.
- `Cramer`: `solve_cramer` as a loop (`SolveCramer`) and a reference (`CramerReference`). Its log is a list of `CramerStep` values, each rendered as its string by `Render`.
- `Format`: `cetak_matriks`.
- `TextParsers`: `parse_matrix` and `parse_vector`.
- `FileFormat`: `import_matrix`, `export_matrix` and the round trip between them.

Details of the solver and the printer that the model keeps:

- `solve_obe` swaps only when the diagonal entry is exactly zero, with the first lower non-zero row.
- It eliminates every other row, one column per row of `B`.
- It compares with `== 0` exactly.
- `cetak_matriks` prints integral values as integers and all others with two decimals.

## Model

| member | source | states |
|---|---|---|
| Format.FormatMatrix | matrix_utils.py:3-4 | The definition of `cetak_matriks`: the printed rows joined by line breaks. It carries no contract of its own; `FormatLines` and `FormatThenParse` state what the text means |
| Format.Cell | matrix_utils.py:4 | An entry prints as a single token: non-empty, without whitespace, and not starting with a bracket |
| Format.CellIntegral | matrix_utils.py:4 | An entry with an integral value prints as the decimal text of that integer, which reads back as exactly that value |
| Format.FormatLines | matrix_utils.py:3-4 | The printed text of a matrix has one line per row, and line `r` splits into one token per entry, the printed form of `M[r][c]` |
| Format.FormatThenParse | matrix_utils.py:3-4 | Printing a non-empty rectangular matrix and reading it back with `parse_matrix` gives a matrix of the same shape whose entries are what `float` makes of each printed entry |
| GaussJordan.FirstNonzeroBelow | matrix_utils.py:14-18 | The swap partner is the first row below `i` with a non-zero entry in column `i`, and there is none exactly when all rows below are zero there |
| GaussJordan.SwapForPivot | matrix_utils.py:13-18 | The swap step swaps with that first partner only when the diagonal is zero, and logs one `Tukar` step or nothing |
| GaussJordan.SwapKeepsSolutions | matrix_utils.py:16 | Swapping two rows keeps the solution set of the augmented system |
| GaussJordan.RowDivided | matrix_utils.py:20 | A vector satisfies a row's equation iff it satisfies the row divided by a non-zero pivot |
| GaussJordan.RowCombined | matrix_utils.py:24-25 | If `y` satisfies row `w`, then `y` satisfies `u - f*w` iff it satisfies `u` |
| GaussJordan.NormalizeKeepsSolutions | matrix_utils.py:19-20 | Dividing the pivot row by a non-zero pivot keeps the solution set |
| GaussJordan.EliminateKeepsSolutions | matrix_utils.py:22-25 | Subtracting multiples of the pivot row from every other row keeps the solution set |
| GaussJordan.EliminateColumn | matrix_utils.py:22-26 | The elimination loop yields exactly the reference matrix and log: every row other than `i` minus its column-`i` entry times row `i`, with one `Baris` step per such row |
| GaussJordan.PassColumn | matrix_utils.py:13-26 | One outer iteration returns the pivot it divides by. When that pivot is non-zero, it returns exactly the reference pass and its log |
| GaussJordan.ColumnPassKeepsSolutions | matrix_utils.py:13-26 | A full column pass with a non-zero pivot keeps the solution set |
| GaussJordan.SwappedUnit | matrix_utils.py:13-18 | The swap keeps columns `0..i-1` unit columns |
| GaussJordan.NormalizedUnit | matrix_utils.py:19-20 | After division, `M[i][i] == 1`, row `i` is still zero left of `i`, and no other row changes |
| GaussJordan.EliminatedUnit | matrix_utils.py:22-25 | After elimination, columns `0..i` are unit columns: `M[i][i] == 1` and `M[j][i] == 0` for `j != i` |
| GaussJordan.ColumnPassUnit | matrix_utils.py:13-26 | A column pass with a non-zero pivot turns unit columns `0..i-1` into unit columns `0..i` |
| GaussJordan.RunInvariant | matrix_utils.py:12-26 | After `k` passes with non-zero pivots, columns `0..k-1` are unit columns and the system has the solutions of the augmented matrix `[A B]` |
| GaussJordan.AugmentSatisfies | matrix_utils.py:10 | `y` satisfies every row of the augmented matrix `[A B]` iff `A*y == B` |
| GaussJordan.RunPasses | matrix_utils.py:12-26 | The outer loop either performs all `n` passes exactly as the reference, or stops at the first column whose pivot is zero after the swap |
| GaussJordan.SolveObe | matrix_utils.py:6-27 | Error iff the shapes differ (`hstack`), `M[i, i]` leaves the array, or a pivot is zero. On success the answer is exactly the last column after the reference passes and the log is exactly the reference log. A zero pivot in a coefficient column means `A` has a non-zero kernel vector |
| GaussJordan.ZeroPivotKernel | matrix_utils.py:19-20 | When the pivot of coefficient column `i` is still zero after the swap search, `A*y == 0` has a non-zero solution |
| GaussJordan.ColumnLogCounts | matrix_utils.py:13-26 | One pass logs exactly one `Bagi` step, `n-1` `Baris` steps and at most one `Tukar` step (none in the last column) |
| GaussJordan.RunLogCounts | matrix_utils.py:12-26 | After `k` passes the log has `k` `Bagi` steps, `k*(n-1)` `Baris` steps and at most `k` swaps (at most `n-1` when `k == n`) |
| GaussJordan.SolveObeLog | matrix_utils.py:11-26 | The full log has `n` divisions, `n*(n-1)` eliminations and at most `n-1` swaps, so `n*n <= len(steps) <= n*n + n - 1` |
| GaussJordan.SolveObeAnswer | matrix_utils.py:12-27 | The returned column (zero-padded when `A` is wider) solves `A*x == B`. For square `A` it is the only solution and `A*y == 0` only for `y == 0`. With one column too few it is the unit vector and the system has no solution |
| GaussJordan.SolveObeSquare | matrix_utils.py:6-27 | For square `A`: success iff `A*y == 0` has only the zero solution, and then the answer is the unique solution of `A*x == B` |
| GaussJordan.Render | matrix_utils.py:17-26 | The definition of the three log f-strings: `Tukar baris {i+1} dan {j+1}`, `Bagi baris {i+1} dengan {pivot:.2f}` and `Baris {j+1} - ({factor:.2f})*Baris {i+1}`. It carries no contract of its own; `RenderKind` states what tells the lines apart |
| GaussJordan.RenderKind | matrix_utils.py:17-26 | A log line starts with `Tukar baris ` iff it records a swap, with `Bagi baris ` iff it records a division, and with `Baris ` iff it records an elimination |
| GaussJordan.RenderedCounts | matrix_utils.py:17-26 | In the list of strings for a log, the lines starting with each of the three first words are exactly as many as the steps of that kind |
| GaussJordan.SolveObeLines | matrix_utils.py:11-26 | The strings `solve_obe` returns hold exactly `n` lines `Bagi baris ...`, exactly `n*(n-1)` lines `Baris ...` and at most `n-1` lines `Tukar baris ...` |
| Matrices.ReplaceColumnColumns | matrix_utils.py:43-44 | `A_i` has `B` as column `i` and every other column of `A` unchanged |
| Cramer.CramerReference | matrix_utils.py:35-48 | Fails iff `A` is not square, `det(A) == 0`, or `B` cannot be written into a column. On success `len(x) == len(B)`, the log has `len(B) + 1` lines, and the first line is `det(A)` |
| Cramer.SolveCramer | matrix_utils.py:35-48 | The loop program returns exactly the reference result: the same error, or the same answers and log lines |
| Cramer.Render | matrix_utils.py:41-47 | The definition of the two log f-strings, `det(A) = {detA:.2f}` and `det(A_{i+1}) = {detAi:.2f} → x_{i+1} = {X[i]:.2f}`, with the arrow as the source file's three characters. It carries no contract of its own; `CramerLines` states which values appear in the lines |
| Cramer.CramerLines | matrix_utils.py:41-47 | On success the strings have `len(B) + 1` lines: first the `det(A)` line with the determinant of `A`, then for each `i` the line with the determinant of `A_i` and the `x_i` that the run returns |
| Cramer.CramerQuotients | matrix_utils.py:42-46 | Each answer times `det(A)` is `det(A_i)`: `x[i] = det(A_i) / det(A)` |
| Cramer.CramerOwnColumn | matrix_utils.py:43-46 | When `B` is column `i` of `A`, `x[i] == 1` |
| Cramer.CramerSolvesSmall | matrix_utils.py:35-48 | For `n <= 2` Cramer's answer solves `A*x == B` |
| Cramer.SmallDetKernel | matrix_utils.py:36-38 | For `n <= 2` a non-zero determinant leaves only `y == 0` with `A*y == 0` |
| Cramer.CramerAgreesWithObe | matrix_utils.py:35-48 | For `n <= 2`, when Cramer succeeds, Gauss-Jordan meets no zero pivot and returns the same answer |
| Matrices.DetSmall | matrix_utils.py:36 | The 1x1 and 2x2 determinants are the familiar formulas |
| Matrices.DetIdentity | matrix_utils.py:36 | The identity matrix has determinant 1 |
| PyText.SplitLinesJoin | file_utils.py:13 | `splitlines` undoes joining break-free lines with `\n` |
| PyText.SplitLinesTerminated | file_utils.py:13 | `splitlines` of newline-terminated lines followed by more text gives those lines, then the lines of the rest |
| PyText.SplitJoin | file_utils.py:23 | `split()` undoes joining tokens with single spaces |
| PyText.LinesTokens | process_window.py:111-114 | The tokens of all lines of a text are the tokens of the text: line breaks only separate tokens |
| PyText.SplitStrip | process_window.py:99 | Stripping a line does not change its tokens |
| PyText.BlankIffNoTokens | process_window.py:99 | A line is blank after `strip()` iff `split()` finds no token in it |
| PyText.StripBracketsOfHeader | file_utils.py:20 | `"[" + name + "]"` with brackets stripped gives back `name` when `name` neither starts nor ends with a bracket |
| PyText.IntToStringRoundTrip | matrix_utils.py:4 | `str(i)` reads back as `i` |
| NumText.ParseTokens | process_window.py:102 | The comprehension succeeds iff every token parses, giving their values in order. Otherwise it fails with the first rejected token |
| NumText.ParseTokensAppend | process_window.py:111-115 | Parsing a concatenation parses each part in turn, and the first error wins |
| TextParsers.Positions | process_window.py:99 | The positions listed are, in increasing order and each once, exactly the positions of the items the filter accepts |
| TextParsers.NonBlankSelects | process_window.py:99 | `[l.strip() for l in lines if l.strip()]` holds one entry per line that is not blank after `strip()`, in order: entry `j` is the stripped line at the `j`-th such position, and no other line is kept |
| TextParsers.NonBlankTokens | process_window.py:99 | Dropping blank lines and stripping the rest keeps the tokens of the text, and every kept line has a token |
| TextParsers.ParseRows | process_window.py:102 | Row `i` is the parse of line `i`. The rows flattened are the parse of all tokens, and a failure names the first bad token of the text |
| TextParsers.WidthsSingle | process_window.py:103-104 | The set of row lengths has one element iff there is a row and all rows are as long as the first |
| TextParsers.ParseMatrix | process_window.py:98-106 | The definition of `parse_matrix`. It carries no contract of its own; `ParseMatrixNone`, `ParseMatrixRows` and `ParseMatrixErrors` state what it returns |
| TextParsers.ParseMatrixNone | process_window.py:99-101 | `parse_matrix` gives `None` iff the text is all whitespace |
| TextParsers.ParseMatrixRows | process_window.py:102-106 | On success the matrix is rectangular. It has one row per non-blank line, each the parse of that line, and at least one column |
| TextParsers.ParseMatrixErrors | process_window.py:102-105 | A bad-number error iff some token of the text does not parse, naming the first one. The column error iff all tokens parse and two non-blank lines have different token counts |
| TextParsers.ParseVector | process_window.py:108-115 | The definition of `parse_vector`. It carries no contract of its own; `ParseVectorMeaning` and `ParseVectorLineBreaks` state what it returns |
| TextParsers.VectorTokensAll | process_window.py:111-114 | The tokens collected from non-blank lines are all tokens of all lines |
| TextParsers.ParseVectorMeaning | process_window.py:108-115 | `None` iff the text is blank. Otherwise it succeeds iff every token parses, and the result is the values of all tokens in order |
| TextParsers.ParseVectorLineBreaks | process_window.py:111-115 | Replacing one whitespace character (a line break, say) by another does not change the vector |
| TextParsers.MatrixAsVector | process_window.py:98-115 | Text that reads as a matrix reads as the vector of its rows concatenated |
| FileFormat.Import | file_utils.py:10-26 | The definition of `import_matrix` on the file's text. It carries no contract of its own; the rows below from `PreambleDropped` to `ImportWellFormed` state what it returns |
| FileFormat.Lookup | file_utils.py:11 | A name has a matrix in the dict iff it is one of its keys |
| FileFormat.PutLookup | file_utils.py:19 | `matrices[name] = M` makes `name` map to `M` and leaves every other name as it was |
| FileFormat.PutNames | file_utils.py:19 | A new name goes at the end of the key order, and an existing name keeps its place |
| FileFormat.PutDistinct | file_utils.py:19 | Assignment keeps the keys distinct |
| FileFormat.ToArray | file_utils.py:19 | `np.array(rows, dtype=float)` succeeds iff all rows have the first row's length, giving the rows as a rectangular matrix. Otherwise the section fails as ragged |
| FileFormat.FeedAllConcat | file_utils.py:16-23 | Reading `a + b` reads `a`, then reads `b` from the state `a` left |
| FileFormat.FeedData | file_utils.py:22-23 | Over header-free lines, the loop skips blank lines and appends each other line's numbers as one row, failing at the first bad token |
| FileFormat.NamelessSkipped | file_utils.py:18-23 | Data lines read while the current name is empty or `None`, whose tokens all parse, are dropped when the next header comes; a rejected token among them still fails the import (`BadTokenFails`) |
| FileFormat.PreambleDropped | file_utils.py:14-23 | Data lines before the first header whose tokens all parse do not affect the result; a rejected token among them still fails the import (`BadTokenFails`) |
| FileFormat.AfterHeader | file_utils.py:17-21 | A header flushes the dict built so far and starts an empty section under the stripped name |
| FileFormat.EmptyNameDropped | file_utils.py:18-20 | A section whose stripped name is empty (`[]`) and whose tokens all parse is dropped; a rejected token in it still fails the import (`BadTokenFails`) |
| FileFormat.LastSection | file_utils.py:24-25 | The final section is stored by the flush at the end of the input |
| FileFormat.HeaderOnly | file_utils.py:24-25 | A header with no data lines stores the empty matrix |
| FileFormat.LaterReplaces | file_utils.py:19-25 | When the last section of the file repeats a name, its matrix replaces the earlier one under that name, and every other name keeps its matrix |
| FileFormat.LaterReplacesAnywhere | file_utils.py:16-25 | When a repeated name's later section is followed by further sections, none of which has that name, the final dict still maps the name to the later section's rows |
| FileFormat.BadTokenFails | file_utils.py:23 | A data line with a token `float` rejects makes the whole import fail, with no partial result |
| FileFormat.ImportWellFormed | file_utils.py:10-26 | Every imported dict has distinct, non-empty names with no bracket at either end, and rectangular matrices |
| FileFormat.Export | file_utils.py:3-8 | The definition of `export_matrix` as the text it writes. It carries no contract of its own; `ExportSplits` and `ExportImport` state what the text holds |
| FileFormat.ExportSplits | file_utils.py:3-8 | The exported text splits back into exactly the exported lines: header, rows and a blank line per matrix |
| FileFormat.ParseSaved | file_utils.py:22-23 | The lines `savetxt` writes are all non-blank data lines that read back as the matrix of the reparsed entries |
| FileFormat.FeedSection | file_utils.py:17-23 | Reading one exported section flushes the pending section and leaves its name and the reparsed rows pending |
| FileFormat.ImportSections | file_utils.py:10-26 | Reading exported sections with fresh names appends them, in order, to what the pending flush stores |
| FileFormat.ExportImport | file_utils.py:3-26 | Importing an export of matrices with distinct well-formed names gives the same names in the same order and the same shapes, each entry being what `float` makes of its `%.4f` text |

## Left out

- `solve_inverse` (matrix_utils.py:29-33) calls `np.linalg.inv`, a foreign routine. It is not modelled.
- Floating point: every value is an exact real, so the model has no rounding, `inf` or `nan`. `float(token)` and the `%.2f`/`%.4f` renderings are parameters. Their numeric behaviour is left out.
- GaussJordan.SolveObe: the source divides by a zero pivot and carries on with `inf`/`nan` values and a log line. The model stops with the error `ZeroPivot(column)` and states what the zero pivot means instead.
- Matrix values: the model's matrices are immutable values, so `solve_obe` and `solve_cramer` cannot change the caller's `A`. The source gets the same effect from `A.astype(float)` and `A.copy()`. The model also works on a value copy rather than an in-place 2-D array.
- Cramer.SolveCramer: `Ai = A.copy()` keeps the dtype of `A`, so an integer `A` would truncate `B` when it is written into a column. The program's readers always build float arrays, and the model writes `B` unchanged.
- Cramer.CramerSolvesSmall: `A*x == B` for Cramer's answer is proved only for `n <= 2`. The general case needs the adjugate identity for cofactor expansion, which is not proved here.
- Cramer.CramerAgreesWithObe: agreement with `solve_obe` is proved only for `n <= 2`, for the same reason.
- Cramer.SmallDetKernel: the kernel of a matrix with a non-zero determinant is proved trivial only for `n <= 2`.
- FileFormat.ExportImport: the round trip gives back `float(f"{x:.4f}")` for each entry, not `x` itself, because the renderings are abstract.
- FileFormat.ExportImport: the round trip requires names that are non-empty, have no line break, and neither start nor end with a bracket. It also requires matrices that are 2-D with at least one column when they have rows. Other names do not survive `strip("[]")` or `splitlines`.
- 1-D arrays: `np.savetxt` writes a 1-D array one value per line, and `import_matrix` turns an empty section into a 1-D array of shape `(0,)`. The model has only 2-D matrices, and an empty section is the matrix with no rows.
- Text mode: newline translation when the file is opened, and the file's encoding, are not modelled. The text is what `f.read()` returns.
- File names, opening and writing, and the exceptions of the file system are not modelled.
- Functions that `process_window.py` imports but `matrix_utils.py` does not define (`solve_homogeneous`, `det`, `inverse`, `rref_with_steps`) have no source and are not modelled.
- `vector_utils.py`, `quiz_utils.py` and `history.py` are not part of this model. The Qt windows, menus and event handlers, and the JSON test-case save and load, are not part of it either.

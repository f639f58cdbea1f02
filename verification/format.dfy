/** `cetak_matriks(M)` (matrix_utils.py): one line per row, the entries of
    a row separated by single spaces; an entry with an integral value is
    printed as that integer, any other with `{x:.2f}`. */
module Format {
  import opened Matrices
  import opened PyText
  import opened NumText
  import opened Results
  import TextParsers

  /** `str(int(x)) if float(x).is_integer() else f"{x:.2f}"`. */
  function Cell(x: real, fmt2: Renderer): (t: string)
    ensures IsToken(t) && !IsBracket(t[0])
  {
    if x == x.Floor as real then IntToString(x.Floor) else fmt2(x)
  }

  function Cells(row: seq<real>, fmt2: Renderer): (cells: seq<string>)
    ensures |cells| == |row|
    ensures forall k :: 0 <= k < |row| ==> cells[k] == Cell(row[k], fmt2)
  {
    seq(|row|, k requires 0 <= k < |row| => Cell(row[k], fmt2))
  }

  /** The printed lines, one per row. */
  function RowLines(M: Matrix, fmt2: Renderer): (lines: seq<string>)
    ensures |lines| == |M|
    ensures forall r :: 0 <= r < |M| ==> lines[r] == Join(" ", Cells(M[r], fmt2))
  {
    seq(|M|, r requires 0 <= r < |M| => Join(" ", Cells(M[r], fmt2)))
  }

  /** `cetak_matriks(M)`. */
  function FormatMatrix(M: Matrix, fmt2: Renderer): string
  {
    Join("\n", RowLines(M, fmt2))
  }

  /** An integral entry is printed as the integer it equals: the text reads
      back as exactly that value. */
  lemma CellIntegral(x: real, fmt2: Renderer)
    requires x == x.Floor as real
    ensures ParseInt(Cell(x, fmt2)).Some? && ParseInt(Cell(x, fmt2)).value as real == x
  {
    IntToStringRoundTrip(x.Floor);
  }

  /** Each printed line of a matrix whose rows all have entries is one
      token-only line that begins and ends with a token. */
  lemma RowLinesShape(M: Matrix, fmt2: Renderer)
    requires forall r :: 0 <= r < |M| ==> |M[r]| > 0
    ensures forall r :: 0 <= r < |M| ==>
      var l := RowLines(M, fmt2)[r];
      |l| > 0 && NoLineBreak(l) && Strip(l) == l && Split(l) == Cells(M[r], fmt2)
  {
    forall r | 0 <= r < |M|
      ensures var l := RowLines(M, fmt2)[r];
        |l| > 0 && NoLineBreak(l) && Strip(l) == l && Split(l) == Cells(M[r], fmt2)
    {
      var cells := Cells(M[r], fmt2);
      JoinTokensLine(cells);
      StripUnchanged(Join(" ", cells));
      SplitJoin(cells);
    }
  }

  /** The printed text has one line per row, and line `r` splits into one
      token per entry of row `r`, each that entry's printed form. */
  lemma FormatLines(M: Matrix, fmt2: Renderer)
    requires forall r :: 0 <= r < |M| ==> |M[r]| > 0
    ensures var lines := SplitLines(FormatMatrix(M, fmt2));
      && |lines| == |M|
      && forall r :: 0 <= r < |M| ==>
           |Split(lines[r])| == |M[r]|
           && forall c :: 0 <= c < |M[r]| ==> Split(lines[r])[c] == Cell(M[r][c], fmt2)
  {
    RowLinesShape(M, fmt2);
    SplitLinesJoin(RowLines(M, fmt2));
  }

  /** What `cetak_matriks` prints, `parse_matrix` reads back: a matrix of
      the same shape whose entries are the printed entries' values. */
  lemma FormatThenParse(M: Matrix, fmt2: Renderer, parse: Parser)
    requires Rectangular(M) && |M| > 0 && Cols(M) > 0
    requires forall x :: parse(Cell(x, fmt2)).Some?
    ensures var r := TextParsers.ParseMatrix(FormatMatrix(M, fmt2), parse);
      && r.Success? && r.value.Some?
      && |r.value.value| == |M| && Rectangular(r.value.value) && Cols(r.value.value) == Cols(M)
      && forall i, c :: 0 <= i < |M| && 0 <= c < Cols(M) ==> parse(Cell(M[i][c], fmt2)) == Some(r.value.value[i][c])
  {
    var text := FormatMatrix(M, fmt2);
    var lines := RowLines(M, fmt2);
    RowLinesShape(M, fmt2);
    SplitLinesJoin(lines);
    TextParsers.NonBlankSame(lines);
    var rows := TextParsers.ParseRows(lines, parse);
    ParseRowsAll(lines, parse, M, fmt2);
    TextParsers.WidthsSingle(rows.value);
  }

  /** Every printed line parses, into as many values as the row has entries. */
  lemma ParseRowsAll(lines: seq<string>, parse: Parser, M: Matrix, fmt2: Renderer)
    requires |lines| == |M| && forall r :: 0 <= r < |M| ==> Split(lines[r]) == Cells(M[r], fmt2)
    requires forall x :: parse(Cell(x, fmt2)).Some?
    ensures var rows := TextParsers.ParseRows(lines, parse);
      && rows.Success? && |rows.value| == |M|
      && forall r :: 0 <= r < |M| ==>
           && |rows.value[r]| == |M[r]|
           && forall c :: 0 <= c < |M[r]| ==> parse(Cell(M[r][c], fmt2)) == Some(rows.value[r][c])
  {
    var all := TokensOfLines(lines);
    AllTokensParse(lines, parse, M, fmt2);
    var rows := TextParsers.ParseRows(lines, parse);
    forall r | 0 <= r < |M|
      ensures |rows.value[r]| == |M[r]|
      ensures forall c :: 0 <= c < |M[r]| ==> parse(Cell(M[r][c], fmt2)) == Some(rows.value[r][c])
    {
      assert ParseTokens(Split(lines[r]), parse) == Success(rows.value[r]);
    }
  }

  lemma {:induction false} AllTokensParse(lines: seq<string>, parse: Parser, M: Matrix, fmt2: Renderer)
    requires |lines| == |M| && forall r :: 0 <= r < |M| ==> Split(lines[r]) == Cells(M[r], fmt2)
    requires forall x :: parse(Cell(x, fmt2)).Some?
    ensures ParseTokens(TokensOfLines(lines), parse).Success?
  {
    if |lines| > 0 {
      AllTokensParse(lines[1..], parse, M[1..], fmt2);
      var first := Split(lines[0]);
      assert ParseTokens(first, parse).Success? by {
        assert forall k :: 0 <= k < |first| ==> first[k] == Cell(M[0][k], fmt2);
      }
      ParseTokensAppend(first, TokensOfLines(lines[1..]), parse);
    }
  }
}

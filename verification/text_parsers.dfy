/** `WindowProses.parse_matrix` and `WindowProses.parse_vector`
    (process_window.py): the two readers of the text areas. Both are pure
    functions of the text; `float` is the abstract `Parser`. */
module TextParsers {
  import opened Results
  import opened Matrices
  import opened PyText
  import opened NumText

  datatype ParseError =
    | BadNumber(token: string)   // `float(x)` raised on this token
    | InconsistentColumns        // "Jumlah kolom tiap baris tidak konsisten."

  /** `idx` lists, in increasing order and each exactly once, the positions
      `k` of `xs` with `keep(xs[k])`. */
  predicate Selects<T>(xs: seq<T>, keep: T -> bool, idx: seq<nat>)
  {
    && (forall j :: 0 <= j < |idx| ==> idx[j] < |xs| && keep(xs[idx[j]]))
    && (forall j, j' :: 0 <= j < j' < |idx| ==> idx[j] < idx[j'])
    && (forall k :: 0 <= k < |xs| && keep(xs[k]) ==> k in idx)
  }

  /** The positions of the items `keep` accepts. */
  function Positions<T>(xs: seq<T>, keep: T -> bool): (idx: seq<nat>)
    ensures Selects(xs, keep, idx)
  {
    if |xs| == 0 then []
    else
      var rest := Positions(xs[1..], keep);
      PositionsStep(xs, keep, rest);
      if keep(xs[0]) then [0] + Shifted(rest) else Shifted(rest)
  }

  function Shifted(rest: seq<nat>): (s: seq<nat>)
    ensures |s| == |rest| && forall j :: 0 <= j < |rest| ==> s[j] == rest[j] + 1
  {
    seq(|rest|, j requires 0 <= j < |rest| => rest[j] + 1)
  }

  /** The positions in `xs[1..]`, moved up by one, and `0` in front when
      the first item is accepted. */
  lemma PositionsStep<T>(xs: seq<T>, keep: T -> bool, rest: seq<nat>)
    requires |xs| > 0 && Selects(xs[1..], keep, rest)
    ensures Selects(xs, keep, if keep(xs[0]) then [0] + Shifted(rest) else Shifted(rest))
  {
    ShiftedSelects(xs, keep, rest);
    if keep(xs[0]) {
      SelectsFirst(xs, keep, Shifted(rest));
    } else {
      SelectsSkip(xs, keep, Shifted(rest));
    }
  }

  lemma SelectsSkip<T>(xs: seq<T>, keep: T -> bool, sh: seq<nat>)
    requires |xs| > 0 && !keep(xs[0])
    requires forall j :: 0 <= j < |sh| ==> 0 < sh[j] < |xs| && keep(xs[sh[j]])
    requires forall j, j' :: 0 <= j < j' < |sh| ==> sh[j] < sh[j']
    requires forall k :: 1 <= k < |xs| && keep(xs[k]) ==> k in sh
    ensures Selects(xs, keep, sh)
  {
  }

  lemma SelectsFirst<T>(xs: seq<T>, keep: T -> bool, sh: seq<nat>)
    requires |xs| > 0 && keep(xs[0])
    requires forall j :: 0 <= j < |sh| ==> 0 < sh[j] < |xs| && keep(xs[sh[j]])
    requires forall j, j' :: 0 <= j < j' < |sh| ==> sh[j] < sh[j']
    requires forall k :: 1 <= k < |xs| && keep(xs[k]) ==> k in sh
    ensures Selects(xs, keep, [0] + sh)
  {
    var idx := [0] + sh;
    forall j | 0 <= j < |idx|
      ensures idx[j] < |xs| && keep(xs[idx[j]])
    {
      if j > 0 {
        assert idx[j] == sh[j - 1];
      }
    }
    forall j, j' | 0 <= j < j' < |idx|
      ensures idx[j] < idx[j']
    {
      assert idx[j'] == sh[j' - 1];
      if j > 0 {
        assert idx[j] == sh[j - 1];
      }
    }
    forall k | 0 <= k < |xs| && keep(xs[k])
      ensures k in idx
    {
      if k > 0 {
        assert k in sh;
      }
    }
  }

  /** The positions in `xs[1..]`, moved up by one, are the accepted
      positions after the first. */
  lemma ShiftedSelects<T>(xs: seq<T>, keep: T -> bool, rest: seq<nat>)
    requires |xs| > 0 && Selects(xs[1..], keep, rest)
    ensures forall j :: 0 <= j < |rest| ==> 0 < Shifted(rest)[j] < |xs| && keep(xs[Shifted(rest)[j]])
    ensures forall j, j' :: 0 <= j < j' < |rest| ==> Shifted(rest)[j] < Shifted(rest)[j']
    ensures forall k :: 1 <= k < |xs| && keep(xs[k]) ==> k in Shifted(rest)
  {
    var sh := Shifted(rest);
    forall j | 0 <= j < |sh|
      ensures sh[j] < |xs| && keep(xs[sh[j]])
    {
      assert xs[1..][rest[j]] == xs[sh[j]];
    }
    forall k | 1 <= k < |xs| && keep(xs[k])
      ensures k in sh
    {
      assert xs[1..][k - 1] == xs[k];
      var j :| 0 <= j < |rest| && rest[j] == k - 1;
      assert sh[j] == k;
    }
  }

  /** A line the comprehension keeps: not blank after `strip()`. */
  predicate IsKept(line: string) {
    Strip(line) != ""
  }

  /** `[l.strip() for l in lines if l.strip()]`. */
  function NonBlank(lines: seq<string>): (kept: seq<string>)
    ensures |kept| <= |lines|
    ensures forall k :: 0 <= k < |kept| ==> Strip(kept[k]) != ""
  {
    if |lines| == 0 then []
    else
      var rest := NonBlank(lines[1..]);
      if Strip(lines[0]) == "" then rest
      else
        StripIdempotent(lines[0]);
        [Strip(lines[0])] + rest
  }

  /** The kept lines are the non-blank lines, stripped, in order, and
      nothing else: one per position `Positions(lines, IsKept)` lists. */
  lemma {:induction false} NonBlankSelects(lines: seq<string>)
    ensures |NonBlank(lines)| == |Positions(lines, IsKept)|
    ensures forall j :: 0 <= j < |NonBlank(lines)| ==> NonBlank(lines)[j] == Strip(lines[Positions(lines, IsKept)[j]])
  {
    if |lines| > 0 {
      NonBlankSelects(lines[1..]);
      var rest, ridx := NonBlank(lines[1..]), Positions(lines[1..], IsKept);
      MapShifted(lines, Strip, rest, ridx);
      if Strip(lines[0]) == "" {
        assert NonBlank(lines) == rest;
        assert Positions(lines, IsKept) == Shifted(ridx);
      } else {
        assert NonBlank(lines) == [Strip(lines[0])] + rest;
        assert Positions(lines, IsKept) == [0] + Shifted(ridx);
        MapFirst(lines, Strip, rest, ridx);
      }
    }
  }

  /** Images of the items of `xs[1..]` are images of the items of `xs` one
      position further on. */
  lemma MapShifted<T, U>(xs: seq<T>, f: T -> U, ys: seq<U>, ridx: seq<nat>)
    requires |xs| > 0 && |ys| == |ridx|
    requires forall j :: 0 <= j < |ys| ==> ridx[j] < |xs| - 1 && ys[j] == f(xs[1..][ridx[j]])
    ensures forall j :: 0 <= j < |ys| ==> Shifted(ridx)[j] < |xs| && ys[j] == f(xs[Shifted(ridx)[j]])
  {
    forall j | 0 <= j < |ys|
      ensures Shifted(ridx)[j] < |xs| && ys[j] == f(xs[Shifted(ridx)[j]])
    {
      assert xs[1..][ridx[j]] == xs[ridx[j] + 1];
    }
  }

  /** Putting the image of the first item in front. */
  lemma MapFirst<T, U>(xs: seq<T>, f: T -> U, ys: seq<U>, ridx: seq<nat>)
    requires |xs| > 0 && |ys| == |ridx|
    requires forall j :: 0 <= j < |ys| ==> Shifted(ridx)[j] < |xs| && ys[j] == f(xs[Shifted(ridx)[j]])
    ensures forall j :: 0 <= j < |ys| + 1 ==> ([f(xs[0])] + ys)[j] == f(xs[([0] + Shifted(ridx))[j]])
  {
    forall j | 0 <= j < |ys| + 1
      ensures ([f(xs[0])] + ys)[j] == f(xs[([0] + Shifted(ridx))[j]])
    {
      if j > 0 {
        assert ([0] + Shifted(ridx))[j] == Shifted(ridx)[j - 1];
      }
    }
  }

  lemma StripIdempotent(s: string)
    requires Strip(s) != ""
    ensures Strip(Strip(s)) == Strip(s)
  {
    var t := Strip(s);
    assert LeadingCount(t, IsSpace) == 0;
    assert TrailingCount(t, IsSpace) == 0;
    assert t[0..|t|] == t;
  }

  /** Dropping blank lines and stripping the others keeps every token, in
      order: the kept lines hold exactly the tokens of all lines. */
  lemma {:induction false} NonBlankTokens(lines: seq<string>)
    ensures TokensOfLines(NonBlank(lines)) == TokensOfLines(lines)
    ensures forall k :: 0 <= k < |NonBlank(lines)| ==> |Split(NonBlank(lines)[k])| > 0
  {
    if |lines| > 0 {
      NonBlankTokens(lines[1..]);
      BlankIffNoTokens(lines[0]);
      SplitStrip(lines[0]);
      var rest := NonBlank(lines[1..]);
      if Strip(lines[0]) != "" {
        TokensOfLinesCons(Strip(lines[0]), rest);
        assert NonBlank(lines) == [Strip(lines[0])] + rest;
        forall k | 0 <= k < |NonBlank(lines)|
          ensures |Split(NonBlank(lines)[k])| > 0
        {
          if k > 0 {
            assert NonBlank(lines)[k] == rest[k - 1];
          }
        }
      }
    }
  }

  /** Lines that are already stripped and non-blank are all kept. */
  lemma {:induction false} NonBlankSame(lines: seq<string>)
    requires forall k :: 0 <= k < |lines| ==> Strip(lines[k]) == lines[k] != ""
    ensures NonBlank(lines) == lines
  {
    if |lines| > 0 {
      NonBlankSame(lines[1..]);
      assert lines == [lines[0]] + lines[1..];
    }
  }

  /** `[[float(x) for x in ln.split()] for ln in lines]`: the rows in order,
      or the first token `float` rejects, reading line after line. */
  function ParseRows(lines: seq<string>, parse: Parser): (r: Result<seq<seq<real>>, string>)
    ensures r.Success? ==> |r.value| == |lines|
    ensures r.Success? ==> forall i :: 0 <= i < |lines| ==> ParseTokens(Split(lines[i]), parse) == Success(r.value[i])
    ensures r.Success? ==> ParseTokens(TokensOfLines(lines), parse) == Success(Flatten(r.value))
    ensures r.Failure? ==> ParseTokens(TokensOfLines(lines), parse) == Failure(r.error)
  {
    if |lines| == 0 then Success([])
    else
      ParseTokensAppend(Split(lines[0]), TokensOfLines(lines[1..]), parse);
      match ParseTokens(Split(lines[0]), parse)
      case Failure(e) => Failure(e)
      case Success(row) =>
        match ParseRows(lines[1..], parse)
        case Failure(e) => Failure(e)
        case Success(rows) =>
          assert ([row] + rows)[1..] == rows;
          Success([row] + rows)
  }

  /** One step of `ParseRows`: the first line, then the others. */
  lemma ParseRowsCons(s: string, lines: seq<string>, parse: Parser)
    ensures ParseRows([s] + lines, parse) ==
      match ParseTokens(Split(s), parse)
      case Failure(t) => Failure(t)
      case Success(row) =>
        match ParseRows(lines, parse)
        case Failure(e) => Failure(e)
        case Success(rows) => Success([row] + rows)
  {
    assert ([s] + lines)[0] == s && ([s] + lines)[1..] == lines;
  }

  /** One step of `NonBlank`. */
  lemma NonBlankCons(s: string, lines: seq<string>)
    ensures NonBlank([s] + lines) ==
      if Strip(s) == "" then NonBlank(lines) else [Strip(s)] + NonBlank(lines)
  {
    assert ([s] + lines)[0] == s && ([s] + lines)[1..] == lines;
  }

  /** `{len(r) for r in mat}`. */
  function Widths(rows: seq<seq<real>>): set<nat>
  {
    set i | 0 <= i < |rows| :: |rows[i]|
  }

  /** One width exactly when there are rows and they all have the first
      row's width. */
  lemma WidthsSingle(rows: seq<seq<real>>)
    ensures |Widths(rows)| == 1 <==> |rows| > 0 && forall i :: 0 <= i < |rows| ==> |rows[i]| == |rows[0]|
  {
    var W := Widths(rows);
    if |rows| == 0 {
      assert W == {};
    } else if forall i :: 0 <= i < |rows| ==> |rows[i]| == |rows[0]| {
      assert W == {|rows[0]|};
    } else {
      var i :| 0 <= i < |rows| && |rows[i]| != |rows[0]|;
      assert |rows[0]| in W && |rows[i]| in W;
      assert |rows[i]| in W - {|rows[0]|};
      assert |W - {|rows[0]|}| >= 1;
    }
  }

  /** `parse_matrix(txt)`: `None` for text without a non-blank line; else
      the rows of the non-blank lines, which must all have the same number
      of entries. */
  function ParseMatrix(txt: string, parse: Parser): (r: Result<Option<Matrix>, ParseError>)
  {
    var lines := NonBlank(SplitLines(txt));
    if |lines| == 0 then Success(None)
    else
      match ParseRows(lines, parse)
      case Failure(t) => Failure(BadNumber(t))
      case Success(mat) =>
        if |Widths(mat)| != 1 then Failure(InconsistentColumns) else Success(Some(mat))
  }

  /** `for ln in lines: if ln.strip(): vals.extend(ln.split())`. */
  function VectorTokens(lines: seq<string>): seq<string>
  {
    if |lines| == 0 then []
    else (if Strip(lines[0]) != "" then Split(lines[0]) else []) + VectorTokens(lines[1..])
  }

  /** `parse_vector(txt)`: `None` for blank text, else every token of every
      line as one vector. */
  function ParseVector(txt: string, parse: Parser): (r: Result<Option<seq<real>>, string>)
  {
    if Strip(txt) == "" then Success(None)
    else
      match ParseTokens(VectorTokens(SplitLines(txt)), parse)
      case Failure(t) => Failure(t)
      case Success(v) => Success(Some(v))
  }

  /** Blank lines hold no token, so skipping them adds nothing. */
  lemma {:induction false} VectorTokensAll(lines: seq<string>)
    ensures VectorTokens(lines) == TokensOfLines(lines)
  {
    if |lines| > 0 {
      VectorTokensAll(lines[1..]);
      BlankIffNoTokens(lines[0]);
    }
  }

  /** The kept lines of a text are none exactly when the text is all
      whitespace. */
  lemma NonBlankOfText(txt: string)
    ensures TokensOfLines(NonBlank(SplitLines(txt))) == Split(txt)
    ensures |NonBlank(SplitLines(txt))| == 0 <==> AllSpace(txt)
  {
    var lines := NonBlank(SplitLines(txt));
    NonBlankTokens(SplitLines(txt));
    LinesTokens(txt);
    SplitAllSpace(txt);
    if |lines| > 0 {
      assert |Split(lines[0])| > 0;
      assert TokensOfLines(lines) == Split(lines[0]) + TokensOfLines(lines[1..]);
    }
  }

  /** `parse_matrix` answers `None` exactly for text that is all whitespace. */
  lemma ParseMatrixNone(txt: string, parse: Parser)
    ensures ParseMatrix(txt, parse) == Success(None) <==> AllSpace(txt)
  {
    NonBlankOfText(txt);
  }

  /** A matrix from `parse_matrix` is rectangular with at least one column;
      it has one row per non-blank line, and row `i` holds the values of
      that line's tokens. Read row after row, it holds the values of all
      tokens of the text. */
  lemma ParseMatrixRows(txt: string, parse: Parser)
    requires ParseMatrix(txt, parse).Success? && ParseMatrix(txt, parse).value.Some?
    ensures var M := ParseMatrix(txt, parse).value.value;
      var lines := NonBlank(SplitLines(txt));
      && Rectangular(M) && |M| == |lines| > 0 && Cols(M) >= 1
      && (forall i :: 0 <= i < |M| ==> ParseTokens(Split(lines[i]), parse) == Success(M[i]))
      && ParseTokens(Split(txt), parse) == Success(Flatten(M))
  {
    var M := ParseMatrix(txt, parse).value.value;
    var lines := NonBlank(SplitLines(txt));
    NonBlankOfText(txt);
    NonBlankTokens(SplitLines(txt));
    WidthsSingle(M);
    assert |Split(lines[0])| > 0;
  }

  /** `parse_matrix` fails on a bad number exactly when some token of the
      text is not a number, and then names the first such token; it fails
      on the column count exactly when every token is a number but two
      non-blank lines hold different numbers of tokens. */
  lemma ParseMatrixErrors(txt: string, parse: Parser)
    ensures var r := ParseMatrix(txt, parse);
      var lines := NonBlank(SplitLines(txt));
      && (r.Failure? && r.error.BadNumber? <==> ParseTokens(Split(txt), parse).Failure?)
      && (r.Failure? && r.error.BadNumber? ==> r.error.token == ParseTokens(Split(txt), parse).error)
      && (r == Failure(InconsistentColumns) <==>
            ParseTokens(Split(txt), parse).Success?
            && exists i :: 0 <= i < |lines| && |Split(lines[i])| != |Split(lines[0])|)
  {
    var r := ParseMatrix(txt, parse);
    var lines := NonBlank(SplitLines(txt));
    NonBlankOfText(txt);
    SplitAllSpace(txt);
    if |lines| > 0 {
      var pr := ParseRows(lines, parse);
      if pr.Success? {
        WidthsSingle(pr.value);
        forall i | 0 <= i < |lines|
          ensures |pr.value[i]| == |Split(lines[i])|
        {
          assert ParseTokens(Split(lines[i]), parse) == Success(pr.value[i]);
        }
      }
    }
  }

  /** `parse_vector` reads the tokens of the whole text: `None` exactly for
      all-whitespace text, otherwise the values of all tokens in order or
      the first token `float` rejects. */
  lemma ParseVectorMeaning(txt: string, parse: Parser)
    ensures var r := ParseVector(txt, parse);
      && (r == Success(None) <==> AllSpace(txt))
      && (!AllSpace(txt) ==> (r.Success? <==> ParseTokens(Split(txt), parse).Success?))
      && (r.Success? && r.value.Some? ==>
            |Split(txt)| > 0 && ParseTokens(Split(txt), parse) == Success(r.value.value))
      && (r.Failure? ==> ParseTokens(Split(txt), parse) == Failure(r.error))
  {
    VectorTokensAll(SplitLines(txt));
    LinesTokens(txt);
    SplitAllSpace(txt);
  }

  /** Line breaks do not matter to `parse_vector`: any whitespace character
      between two pieces of text may stand in for any other. */
  lemma ParseVectorLineBreaks(a: string, b: string, c: char, d: char, parse: Parser)
    requires IsSpace(c) && IsSpace(d)
    ensures ParseVector(a + [c] + b, parse) == ParseVector(a + [d] + b, parse)
  {
    var s, t := a + [c] + b, a + [d] + b;
    SplitAround(a, c, b);
    SplitAround(a, d, b);
    SplitAllSpace(s);
    SplitAllSpace(t);
    ParseVectorMeaning(s, parse);
    ParseVectorMeaning(t, parse);
  }

  /** Text that `parse_matrix` reads as a matrix reads under `parse_vector`
      as that matrix's entries, row after row. */
  lemma MatrixAsVector(txt: string, parse: Parser)
    requires ParseMatrix(txt, parse).Success? && ParseMatrix(txt, parse).value.Some?
    ensures ParseVector(txt, parse) == Success(Some(Flatten(ParseMatrix(txt, parse).value.value)))
  {
    ParseMatrixRows(txt, parse);
    ParseMatrixNone(txt, parse);
    ParseVectorMeaning(txt, parse);
  }
}

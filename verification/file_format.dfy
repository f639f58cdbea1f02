/** `export_matrix` and `import_matrix` (file_utils.py): the sectioned text
    file that stores named matrices. A section is a `[name]` header line,
    one line per row with the entries separated by blanks, and (on export)
    one blank line. Files are text: the model reads and writes the text,
    and `float` / `%.4f` are the abstract `Parser` / `Renderer`. */
module FileFormat {
  import opened Results
  import opened Matrices
  import opened PyText
  import opened NumText
  import TextParsers

  datatype ImportError =
    | BadNumber(token: string)  // `float(x)` raised on this token
    | Ragged(name: string)      // `np.array(rows, dtype=float)` refused this section's rows

  /** The `matrices` dict: its items in insertion order. */
  type Entries = seq<(string, Matrix)>

  function Names(d: Entries): (names: seq<string>)
    ensures |names| == |d| && forall k :: 0 <= k < |d| ==> names[k] == d[k].0
  {
    seq(|d|, k requires 0 <= k < |d| => d[k].0)
  }

  predicate DistinctNames(d: Entries) {
    forall i, j :: 0 <= i < j < |d| ==> d[i].0 != d[j].0
  }

  /** `d.get(name)`. */
  function Lookup(d: Entries, name: string): (m: Option<Matrix>)
    ensures m.Some? <==> name in Names(d)
  {
    if |d| == 0 then None
    else
      assert Names(d) == [d[0].0] + Names(d[1..]);
      if d[0].0 == name then Some(d[0].1) else Lookup(d[1..], name)
  }

  /** `d[name] = M`. */
  function Put(d: Entries, name: string, M: Matrix): Entries
  {
    if |d| == 0 then [(name, M)]
    else if d[0].0 == name then [(name, M)] + d[1..]
    else [d[0]] + Put(d[1..], name, M)
  }

  /** After `d[name] = M`, `name` maps to `M` and every other name to what
      it mapped to before. */
  lemma {:induction false} PutLookup(d: Entries, name: string, M: Matrix)
    ensures Lookup(Put(d, name, M), name) == Some(M)
    ensures forall n :: n != name ==> Lookup(Put(d, name, M), n) == Lookup(d, n)
  {
    if |d| > 0 && d[0].0 != name {
      PutLookup(d[1..], name, M);
      var e := Put(d, name, M);
      assert e[0] == d[0] && e[1..] == Put(d[1..], name, M);
    } else if |d| > 0 {
      var e := Put(d, name, M);
      assert e[0] == (name, M) && e[1..] == d[1..];
    }
  }

  /** A name already present keeps its place. */
  lemma {:induction false} PutPresent(d: Entries, name: string, M: Matrix)
    requires name in Names(d)
    ensures Names(Put(d, name, M)) == Names(d)
  {
    assert d == [d[0]] + d[1..];
    NamesCons(d[0], d[1..]);
    if d[0].0 == name {
      NamesCons((name, M), d[1..]);
    } else {
      assert name in Names(d[1..]);
      PutPresent(d[1..], name, M);
      hide *;
      NamesCons(d[0], Put(d[1..], name, M));
    }
  }

  lemma NamesCons(x: (string, Matrix), d: Entries)
    ensures Names([x] + d) == [x.0] + Names(d)
  {
  }

  /** A new name goes last. */
  lemma {:induction false} PutAbsent(d: Entries, name: string, M: Matrix)
    requires name !in Names(d)
    ensures Put(d, name, M) == d + [(name, M)]
  {
    if |d| > 0 {
      assert d == [d[0]] + d[1..];
      assert Put(d, name, M) == [d[0]] + Put(d[1..], name, M) by {
        NamesCons(d[0], d[1..]);
      }
      hide *;
      NamesCons(d[0], d[1..]);
      PutAbsent(d[1..], name, M);
      SeqAssoc([d[0]], d[1..], [(name, M)]);
    }
  }

  /** The names after `d[name] = M`. */
  lemma PutNames(d: Entries, name: string, M: Matrix)
    ensures Names(Put(d, name, M)) == if name in Names(d) then Names(d) else Names(d) + [name]
  {
    if name in Names(d) {
      PutPresent(d, name, M);
    } else {
      PutAbsent(d, name, M);
      assert Names(d + [(name, M)]) == Names(d) + [name];
    }
  }

  /** Keys of a dict stay distinct. */
  lemma PutDistinct(d: Entries, name: string, M: Matrix)
    requires DistinctNames(d)
    ensures DistinctNames(Put(d, name, M))
  {
    PutNames(d, name, M);
    var e := Put(d, name, M);
    forall i, j | 0 <= i < j < |e| ensures e[i].0 != e[j].0 {
      assert Names(e)[i] == e[i].0 && Names(e)[j] == e[j].0;
    }
  }

  // ---------------------------------------------------------------------
  // import_matrix
  // ---------------------------------------------------------------------

  /** `line.startswith("[") and line.endswith("]")`. */
  predicate IsHeader(line: string) {
    |line| > 0 && line[0] == '[' && line[|line| - 1] == ']'
  }

  /** The loop's variables: `current_name` (`None` and `""` are both false
      and behave alike, so both are `""`), `current_data` and `matrices`. */
  datatype Reader = Reader(name: string, rows: seq<seq<real>>, found: Entries)

  const Start := Reader("", [], [])

  /** `np.array(rows, dtype=float)`: the rows as a 2-D array, refused when
      they differ in length. No rows give the empty array. */
  function ToArray(rows: seq<seq<real>>, name: string): (r: Result<Matrix, ImportError>)
    ensures r.Success? <==> forall i :: 0 <= i < |rows| ==> |rows[i]| == |rows[0]|
    ensures r.Success? ==> r.value == rows && Rectangular(r.value)
    ensures r.Failure? ==> r.error == Ragged(name)
  {
    TextParsers.WidthsSingle(rows);
    assert |rows| == 0 ==> TextParsers.Widths(rows) == {};
    assert |rows| > 0 ==> |rows[0]| in TextParsers.Widths(rows);
    if |TextParsers.Widths(rows)| <= 1 then Success(rows) else Failure(Ragged(name))
  }

  /** `if current_name: matrices[current_name] = np.array(current_data, dtype=float)`. */
  function Flush(rd: Reader): Result<Entries, ImportError>
  {
    if rd.name == "" then Success(rd.found)
    else
      match ToArray(rd.rows, rd.name)
      case Failure(e) => Failure(e)
      case Success(M) => Success(Put(rd.found, rd.name, M))
  }

  /** One turn of the loop over the lines. */
  function Feed(rd: Reader, line: string, parse: Parser): Result<Reader, ImportError>
  {
    if IsHeader(line) then
      match Flush(rd)
      case Failure(e) => Failure(e)
      case Success(found) => Success(Reader(StripBrackets(line), [], found))
    else if Strip(line) != "" then
      match ParseTokens(Split(line), parse)
      case Failure(t) => Failure(BadNumber(t))
      case Success(row) => Success(Reader(rd.name, rd.rows + [row], rd.found))
    else Success(rd)
  }

  /** The loop: the lines one after the other, stopping at the first error. */
  function FeedAll(rd: Reader, lines: seq<string>, parse: Parser): Result<Reader, ImportError>
    decreases |lines|
  {
    if |lines| == 0 then Success(rd)
    else
      match Feed(rd, lines[0], parse)
      case Failure(e) => Failure(e)
      case Success(next) => FeedAll(next, lines[1..], parse)
  }

  /** The loop from `rd`, then the flush after it. */
  function ImportFrom(rd: Reader, lines: seq<string>, parse: Parser): Result<Entries, ImportError>
  {
    match FeedAll(rd, lines, parse)
    case Failure(e) => Failure(e)
    case Success(last) => Flush(last)
  }

  /** `import_matrix` on a file whose text is `text`. */
  function Import(text: string, parse: Parser): Result<Entries, ImportError>
  {
    ImportFrom(Start, SplitLines(text), parse)
  }

  /** Reading `a + b` reads `a`, then goes on with `b` from where `a` left
      the loop's variables. */
  lemma {:induction false} FeedAllConcat(rd: Reader, a: seq<string>, b: seq<string>, parse: Parser)
    ensures FeedAll(rd, a + b, parse) ==
      match FeedAll(rd, a, parse)
      case Failure(e) => Failure(e)
      case Success(next) => FeedAll(next, b, parse)
    decreases |a|
  {
    if |a| == 0 {
      assert a + b == b;
    } else {
      assert (a + b)[0] == a[0] && (a + b)[1..] == a[1..] + b;
      match Feed(rd, a[0], parse)
      case Failure(_) =>
      case Success(next) => FeedAllConcat(next, a[1..], b, parse);
    }
  }

  /** What lines without headers do to the loop's variables: add the rows
      of their non-blank lines to the current section, or stop at the first
      token `float` rejects. The name and the stored matrices stay. */
  function DataResult(rd: Reader, body: seq<string>, parse: Parser): Result<Reader, ImportError>
  {
    match TextParsers.ParseRows(TextParsers.NonBlank(body), parse)
    case Failure(t) => Failure(BadNumber(t))
    case Success(R) => Success(Reader(rd.name, rd.rows + R, rd.found))
  }

  /** The loop over lines without headers does what `DataResult` says. */
  lemma {:induction false} FeedData(rd: Reader, body: seq<string>, parse: Parser)
    requires forall k :: 0 <= k < |body| ==> !IsHeader(body[k])
    ensures FeedAll(rd, body, parse) == DataResult(rd, body, parse)
    decreases |body|
  {
    if |body| == 0 {
      assert rd.rows + [] == rd.rows;
    } else {
      var l, rest := body[0], body[1..];
      assert body == [l] + rest;
      assert !IsHeader(l);
      if Strip(l) == "" {
        FeedData(rd, rest, parse);
        hide *;
        FeedDataBlank(rd, l, rest, parse);
      } else if ParseTokens(Split(l), parse).Failure? {
        var t := ParseTokens(Split(l), parse).error;
        hide *;
        FeedDataBad(rd, l, rest, t, parse);
      } else {
        var row := ParseTokens(Split(l), parse).value;
        FeedData(Reader(rd.name, rd.rows + [row], rd.found), rest, parse);
        hide *;
        FeedDataRow(rd, l, rest, row, parse);
      }
    }
  }

  lemma FeedDataBlank(rd: Reader, l: string, rest: seq<string>, parse: Parser)
    requires !IsHeader(l) && Strip(l) == ""
    requires FeedAll(rd, rest, parse) == DataResult(rd, rest, parse)
    ensures FeedAll(rd, [l] + rest, parse) == DataResult(rd, [l] + rest, parse)
  {
    assert ([l] + rest)[0] == l && ([l] + rest)[1..] == rest;
    TextParsers.NonBlankCons(l, rest);
  }

  lemma FeedDataBad(rd: Reader, l: string, rest: seq<string>, t: string, parse: Parser)
    requires !IsHeader(l) && Strip(l) != "" && ParseTokens(Split(l), parse) == Failure(t)
    ensures FeedAll(rd, [l] + rest, parse) == DataResult(rd, [l] + rest, parse)
  {
    assert ([l] + rest)[0] == l && ([l] + rest)[1..] == rest;
    TextParsers.NonBlankCons(l, rest);
    SplitStrip(l);
    TextParsers.ParseRowsCons(Strip(l), TextParsers.NonBlank(rest), parse);
  }

  lemma FeedDataRow(rd: Reader, l: string, rest: seq<string>, row: seq<real>, parse: Parser)
    requires !IsHeader(l) && Strip(l) != "" && ParseTokens(Split(l), parse) == Success(row)
    requires var next := Reader(rd.name, rd.rows + [row], rd.found);
      FeedAll(next, rest, parse) == DataResult(next, rest, parse)
    ensures FeedAll(rd, [l] + rest, parse) == DataResult(rd, [l] + rest, parse)
  {
    hide *;
    FeedDataStep(rd, l, rest, row, parse);
    DataResultRow(rd, l, rest, row, parse);
  }

  lemma FeedDataStep(rd: Reader, l: string, rest: seq<string>, row: seq<real>, parse: Parser)
    requires !IsHeader(l) && Strip(l) != "" && ParseTokens(Split(l), parse) == Success(row)
    ensures FeedAll(rd, [l] + rest, parse) == FeedAll(Reader(rd.name, rd.rows + [row], rd.found), rest, parse)
  {
    assert ([l] + rest)[0] == l && ([l] + rest)[1..] == rest;
  }

  lemma DataResultRow(rd: Reader, l: string, rest: seq<string>, row: seq<real>, parse: Parser)
    requires Strip(l) != "" && ParseTokens(Split(l), parse) == Success(row)
    ensures DataResult(rd, [l] + rest, parse) == DataResult(Reader(rd.name, rd.rows + [row], rd.found), rest, parse)
  {
    hide TextParsers.ParseRows, TextParsers.NonBlank, ParseTokens, Split, Strip;
    TextParsers.NonBlankCons(l, rest);
    SplitStrip(l);
    TextParsers.ParseRowsCons(Strip(l), TextParsers.NonBlank(rest), parse);
    if TextParsers.ParseRows(TextParsers.NonBlank(rest), parse).Success? {
      var R := TextParsers.ParseRows(TextParsers.NonBlank(rest), parse).value;
      assert rd.rows + [row] + R == rd.rows + ([row] + R);
    }
  }

  /** While the current name is empty, the rows gathered so far make no
      difference: they are dropped at the next header or at the end. */
  lemma {:induction false} NamelessRows(r1: Reader, r2: Reader, lines: seq<string>, parse: Parser)
    requires r1.name == "" && r2.name == "" && r1.found == r2.found
    ensures ImportFrom(r1, lines, parse) == ImportFrom(r2, lines, parse)
    decreases |lines|
  {
    if |lines| > 0 {
      var l := lines[0];
      if !IsHeader(l) && Strip(l) != "" && ParseTokens(Split(l), parse).Success? {
        var row := ParseTokens(Split(l), parse).value;
        NamelessRows(Reader("", r1.rows + [row], r1.found), Reader("", r2.rows + [row], r2.found), lines[1..], parse);
      } else if !IsHeader(l) && Strip(l) == "" {
        NamelessRows(r1, r2, lines[1..], parse);
      }
    }
  }

  /** Data lines read while the current name is empty, whose tokens all
      parse, are dropped: reading them and then `rest` gives what reading
      `rest` alone gives. A rejected token still fails the import
      (`BadTokenFails`). */
  lemma NamelessSkipped(rd: Reader, body: seq<string>, rest: seq<string>, parse: Parser)
    requires rd.name == ""
    requires forall k :: 0 <= k < |body| ==> !IsHeader(body[k])
    requires TextParsers.ParseRows(TextParsers.NonBlank(body), parse).Success?
    ensures ImportFrom(rd, body + rest, parse) == ImportFrom(rd, rest, parse)
  {
    FeedData(rd, body, parse);
    FeedAllConcat(rd, body, rest, parse);
    assert FeedAll(rd, body, parse) == DataResult(rd, body, parse);
    var R := TextParsers.ParseRows(TextParsers.NonBlank(body), parse).value;
    NamelessRows(Reader("", rd.rows + R, rd.found), rd, rest, parse);
  }

  /** Data lines before the first header whose tokens all parse are
      dropped; a rejected token among them still fails the import. */
  lemma PreambleDropped(body: seq<string>, rest: seq<string>, parse: Parser)
    requires forall k :: 0 <= k < |body| ==> !IsHeader(body[k])
    requires TextParsers.ParseRows(TextParsers.NonBlank(body), parse).Success?
    ensures ImportFrom(Start, body + rest, parse) == ImportFrom(Start, rest, parse)
  {
    NamelessSkipped(Start, body, rest, parse);
  }

  /** Reading `a + b` is reading `a`, then `b` from where `a` stopped. */
  lemma ImportFromConcat(rd: Reader, a: seq<string>, b: seq<string>, parse: Parser)
    ensures ImportFrom(rd, a + b, parse) ==
      match FeedAll(rd, a, parse)
      case Failure(e) => Failure(e)
      case Success(next) => ImportFrom(next, b, parse)
  {
    FeedAllConcat(rd, a, b, parse);
  }

  /** After a header line the current name is the header's name. */
  lemma AfterHeader(a: seq<string>, h: string, parse: Parser)
    requires IsHeader(h)
    ensures FeedAll(Start, a + [h], parse) ==
      match ImportFrom(Start, a, parse)
      case Failure(e) => Failure(e)
      case Success(F) => Success(Reader(StripBrackets(h), [], F))
  {
    FeedAllConcat(Start, a, [h], parse);
  }

  /** A section headed `[]` (or `[[]]`, ...) whose tokens all parse is
      dropped with its data lines; a rejected token in it still fails the
      import. */
  lemma EmptyNameDropped(a: seq<string>, h: string, body: seq<string>, rest: seq<string>, parse: Parser)
    requires IsHeader(h) && StripBrackets(h) == ""
    requires forall k :: 0 <= k < |body| ==> !IsHeader(body[k])
    requires TextParsers.ParseRows(TextParsers.NonBlank(body), parse).Success?
    ensures ImportFrom(Start, a + [h] + body + rest, parse) == ImportFrom(Start, a + [h] + rest, parse)
  {
    hide *;
    SeqAssoc(a + [h], body, rest);
    ImportFromConcat(Start, a + [h], body + rest, parse);
    ImportFromConcat(Start, a + [h], rest, parse);
    AfterHeader(a, h, parse);
    if ImportFrom(Start, a, parse).Success? {
      NamelessSkipped(Reader("", [], ImportFrom(Start, a, parse).value), body, rest, parse);
    }
  }

  /** The section at the end of the file is stored by the flush after the
      loop: the rows of its data lines under its name, replacing an earlier
      section of the same name in place, or the first error on the way. */
  lemma LastSection(a: seq<string>, h: string, body: seq<string>, parse: Parser)
    requires IsHeader(h) && StripBrackets(h) != ""
    requires forall k :: 0 <= k < |body| ==> !IsHeader(body[k])
    ensures ImportFrom(Start, a + [h] + body, parse) ==
      match ImportFrom(Start, a, parse)
      case Failure(e) => Failure(e)
      case Success(F) => SectionResult(StripBrackets(h), F, body, parse)
  {
    hide *;
    ImportFromConcat(Start, a + [h], body, parse);
    AfterHeader(a, h, parse);
    if ImportFrom(Start, a, parse).Success? {
      SectionBody(StripBrackets(h), ImportFrom(Start, a, parse).value, body, parse);
    }
  }

  /** What a section named `name` with data lines `body` does to the
      stored items `F` when it is flushed: the first rejected token, the
      refused ragged rows, or the rows stored under `name`. */
  function SectionResult(name: string, F: Entries, body: seq<string>, parse: Parser): Result<Entries, ImportError>
  {
    match TextParsers.ParseRows(TextParsers.NonBlank(body), parse)
    case Failure(t) => Failure(BadNumber(t))
    case Success(R) =>
      match ToArray(R, name)
      case Failure(e) => Failure(e)
      case Success(M) => Success(Put(F, name, M))
  }

  /** A section's data lines read under a non-empty name, then flushed. */
  lemma SectionBody(name: string, F: Entries, body: seq<string>, parse: Parser)
    requires name != ""
    requires forall k :: 0 <= k < |body| ==> !IsHeader(body[k])
    ensures ImportFrom(Reader(name, [], F), body, parse) ==
      SectionResult(name, F, body, parse)
  {
    FeedData(Reader(name, [], F), body, parse);
    if TextParsers.ParseRows(TextParsers.NonBlank(body), parse).Success? {
      var R := TextParsers.ParseRows(TextParsers.NonBlank(body), parse).value;
      assert [] + R == R;
    }
  }

  /** A header with no data lines after it stores the empty matrix. */
  lemma HeaderOnly(a: seq<string>, h: string, parse: Parser)
    requires IsHeader(h) && StripBrackets(h) != ""
    requires ImportFrom(Start, a, parse).Success?
    ensures ImportFrom(Start, a + [h], parse) == Success(Put(ImportFrom(Start, a, parse).value, StripBrackets(h), []))
  {
    LastSection(a, h, [], parse);
    assert a + [h] + [] == a + [h];
    assert TextParsers.NonBlank([]) == [];
  }

  /** A name read twice, with its later section last in the file, keeps
      that section; every other name keeps what the earlier lines stored. */
  lemma LaterReplaces(a: seq<string>, h: string, body: seq<string>, parse: Parser)
    requires IsHeader(h) && StripBrackets(h) != ""
    requires forall k :: 0 <= k < |body| ==> !IsHeader(body[k])
    requires ImportFrom(Start, a + [h] + body, parse).Success?
    ensures ImportFrom(Start, a, parse).Success?
    ensures TextParsers.ParseRows(TextParsers.NonBlank(body), parse).Success?
    ensures var e := ImportFrom(Start, a + [h] + body, parse).value;
      && Lookup(e, StripBrackets(h)) == Some(TextParsers.ParseRows(TextParsers.NonBlank(body), parse).value)
      && forall n :: n != StripBrackets(h) ==> Lookup(e, n) == Lookup(ImportFrom(Start, a, parse).value, n)
  {
    LastSection(a, h, body, parse);
    var F := ImportFrom(Start, a, parse).value;
    var R := TextParsers.ParseRows(TextParsers.NonBlank(body), parse).value;
    PutLookup(F, StripBrackets(h), R);
  }

  /** A name read twice keeps its later section to the end of the file, as
      long as no section after it has that name again: the sections after
      it, with other names, leave that name's matrix alone. */
  lemma LaterReplacesAnywhere(a: seq<string>, h: string, body: seq<string>, h2: string, more: seq<string>, parse: Parser)
    requires IsHeader(h) && StripBrackets(h) != ""
    requires forall k :: 0 <= k < |body| ==> !IsHeader(body[k])
    requires IsHeader(h2) && StripBrackets(h2) != StripBrackets(h)
    requires forall k :: 0 <= k < |more| && IsHeader(more[k]) ==> StripBrackets(more[k]) != StripBrackets(h)
    requires ImportFrom(Start, a + [h] + body + [h2] + more, parse).Success?
    ensures TextParsers.ParseRows(TextParsers.NonBlank(body), parse).Success?
    ensures Lookup(ImportFrom(Start, a + [h] + body + [h2] + more, parse).value, StripBrackets(h)) ==
      Some(TextParsers.ParseRows(TextParsers.NonBlank(body), parse).value)
  {
    var pre := a + [h] + body;
    ImportFromConcat(Start, pre + [h2], more, parse);
    AfterHeader(pre, h2, parse);
    LaterReplaces(a, h, body, parse);
    var rd := Reader(StripBrackets(h2), [], ImportFrom(Start, pre, parse).value);
    OtherSectionsKeep(rd, more, StripBrackets(h), parse);
  }

  /** Reading lines whose headers all differ from `n`, from a state whose
      current name is not `n`, leaves what `n` maps to unchanged. */
  lemma {:induction false} OtherSectionsKeep(rd: Reader, lines: seq<string>, n: string, parse: Parser)
    requires rd.name != n
    requires forall k :: 0 <= k < |lines| && IsHeader(lines[k]) ==> StripBrackets(lines[k]) != n
    requires ImportFrom(rd, lines, parse).Success?
    ensures Lookup(ImportFrom(rd, lines, parse).value, n) == Lookup(rd.found, n)
    decreases |lines|
  {
    if |lines| == 0 {
      FlushKeeps(rd, n);
    } else {
      ImportFromConcat(rd, [lines[0]], lines[1..], parse);
      assert [lines[0]] + lines[1..] == lines;
      assert FeedAll(rd, [lines[0]], parse) == Feed(rd, lines[0], parse) by {
        assert [lines[0]][1..] == [];
      }
      var next := Feed(rd, lines[0], parse).value;
      forall k | 0 <= k < |lines[1..]| && IsHeader(lines[1..][k])
        ensures StripBrackets(lines[1..][k]) != n
      {
        assert lines[1..][k] == lines[k + 1];
      }
      OtherSectionsKeep(next, lines[1..], n, parse);
      if IsHeader(lines[0]) {
        FlushKeeps(rd, n);
      }
    }
  }

  /** Flushing a section named other than `n` leaves what `n` maps to. */
  lemma FlushKeeps(rd: Reader, n: string)
    requires rd.name != n && Flush(rd).Success?
    ensures Lookup(Flush(rd).value, n) == Lookup(rd.found, n)
  {
    if rd.name != "" {
      PutLookup(rd.found, rd.name, ToArray(rd.rows, rd.name).value);
    }
  }

  /** A data line with a token `float` rejects makes the whole import fail:
      nothing is returned. */
  lemma {:induction false} BadTokenFails(rd: Reader, lines: seq<string>, k: nat, parse: Parser)
    requires k < |lines| && !IsHeader(lines[k]) && Strip(lines[k]) != ""
    requires ParseTokens(Split(lines[k]), parse).Failure?
    ensures FeedAll(rd, lines, parse).Failure?
    ensures ImportFrom(rd, lines, parse).Failure?
    decreases k
  {
    hide Flush, Put, StripBrackets, ParseTokens, Split, Strip;
    if k > 0 {
      match Feed(rd, lines[0], parse)
      case Failure(_) =>
      case Success(next) => BadTokenFails(next, lines[1..], k - 1, parse);
    }
  }

  /** A stored name: non-empty, no bracket at either end. */
  predicate StoredName(name: string) {
    name != "" && !IsBracket(name[0]) && !IsBracket(name[|name| - 1])
  }

  /** What the loop keeps true of its variables: the pending name is empty
      or storable, and the stored items have distinct stored names and
      rectangular matrices. */
  predicate WellFormed(d: Entries) {
    && DistinctNames(d)
    && forall k :: 0 <= k < |d| ==> StoredName(d[k].0) && Rectangular(d[k].1)
  }

  predicate GoodReader(rd: Reader) {
    (rd.name == "" || StoredName(rd.name)) && WellFormed(rd.found)
  }

  /** Every item of `d[name] = M` is an item of `d` or the new one. */
  lemma {:induction false} PutItems(d: Entries, name: string, M: Matrix)
    ensures forall k :: 0 <= k < |Put(d, name, M)| ==> Put(d, name, M)[k] in d || Put(d, name, M)[k] == (name, M)
  {
    if |d| > 0 && d[0].0 != name {
      PutItems(d[1..], name, M);
      var e := Put(d, name, M);
      forall k | 0 <= k < |e| ensures e[k] in d || e[k] == (name, M) {
        if k > 0 {
          assert e[k] == Put(d[1..], name, M)[k - 1];
        }
      }
    } else if |d| > 0 {
      var e := Put(d, name, M);
      forall k | 0 <= k < |e| ensures e[k] in d || e[k] == (name, M) {
        if k > 0 {
          assert e[k] == d[k];
        }
      }
    }
  }

  lemma FlushWellFormed(rd: Reader)
    requires GoodReader(rd) && Flush(rd).Success?
    ensures WellFormed(Flush(rd).value)
  {
    if rd.name != "" {
      var M := ToArray(rd.rows, rd.name).value;
      PutDistinct(rd.found, rd.name, M);
      PutItems(rd.found, rd.name, M);
    }
  }

  lemma {:induction false} FeedAllWellFormed(rd: Reader, lines: seq<string>, parse: Parser)
    requires GoodReader(rd) && FeedAll(rd, lines, parse).Success?
    ensures GoodReader(FeedAll(rd, lines, parse).value)
    decreases |lines|
  {
    if |lines| > 0 {
      var l := lines[0];
      if IsHeader(l) {
        FlushWellFormed(rd);
      }
      FeedAllWellFormed(Feed(rd, l, parse).value, lines[1..], parse);
    }
  }

  /** Every imported dict has distinct, non-empty names with no bracket at
      either end, and rectangular matrices. */
  lemma ImportWellFormed(text: string, parse: Parser)
    requires Import(text, parse).Success?
    ensures WellFormed(Import(text, parse).value)
  {
    var lines := SplitLines(text);
    FeedAllWellFormed(Start, lines, parse);
    FlushWellFormed(FeedAll(Start, lines, parse).value);
  }

  // ---------------------------------------------------------------------
  // export_matrix
  // ---------------------------------------------------------------------

  /** The `%.4f` renderings of a row's entries. */
  function Rendered(row: seq<real>, fmt4: Renderer): (cells: seq<string>)
    ensures |cells| == |row| && forall c :: 0 <= c < |row| ==> cells[c] == fmt4(row[c])
  {
    seq(|row|, c requires 0 <= c < |row| => fmt4(row[c]))
  }

  /** The lines `np.savetxt(f, M, fmt="%.4f")` writes for a 2-D array. */
  function SaveTxt(M: Matrix, fmt4: Renderer): (lines: seq<string>)
    ensures |lines| == |M| && forall r :: 0 <= r < |M| ==> lines[r] == Join(" ", Rendered(M[r], fmt4))
  {
    seq(|M|, r requires 0 <= r < |M| => Join(" ", Rendered(M[r], fmt4)))
  }

  /** The lines written for one item: header, rows, blank line. */
  function Section(name: string, M: Matrix, fmt4: Renderer): seq<string>
  {
    ["[" + name + "]"] + SaveTxt(M, fmt4) + [""]
  }

  function ExportLines(d: Entries, fmt4: Renderer): seq<string>
  {
    if |d| == 0 then [] else Section(d[0].0, d[0].1, fmt4) + ExportLines(d[1..], fmt4)
  }

  /** The text `export_matrix` writes: every line ends with `"\n"`. */
  function Export(d: Entries, fmt4: Renderer): string
  {
    Terminated(ExportLines(d, fmt4))
  }

  // ---------------------------------------------------------------------
  // Properties
  // ---------------------------------------------------------------------

  /** A name that survives `[name]` and `strip("[]")`: non-empty (an empty
      name is false and never stored), no bracket at either end, and on
      one line. */
  predicate GoodName(name: string) {
    && name != ""
    && !IsBracket(name[0]) && !IsBracket(name[|name| - 1])
    && NoLineBreak(name)
  }

  /** A 2-D array `savetxt` writes on as many lines as it has rows. */
  predicate Storable(M: Matrix) {
    Rectangular(M) && (|M| == 0 || Cols(M) > 0)
  }

  predicate Exportable(d: Entries) {
    && DistinctNames(d)
    && forall k :: 0 <= k < |d| ==> GoodName(d[k].0) && Storable(d[k].1)
  }

  /** An entry read back: the number `float` makes of its `%.4f` text. */
  function Reparse(x: real, fmt4: Renderer, parse: Parser): (v: real)
    requires forall y :: parse(fmt4(y)).Some?
    ensures parse(fmt4(x)) == Some(v)
  {
    parse(fmt4(x)).value
  }

  function RereadRow(row: seq<real>, fmt4: Renderer, parse: Parser): (R: seq<real>)
    requires forall y :: parse(fmt4(y)).Some?
    ensures |R| == |row| && forall c :: 0 <= c < |row| ==> parse(fmt4(row[c])) == Some(R[c])
  {
    seq(|row|, c requires 0 <= c < |row| => Reparse(row[c], fmt4, parse))
  }

  /** A matrix read back entry by entry. */
  function Reread(M: Matrix, fmt4: Renderer, parse: Parser): (R: Matrix)
    requires forall y :: parse(fmt4(y)).Some?
    ensures |R| == |M| && forall r :: 0 <= r < |M| ==> R[r] == RereadRow(M[r], fmt4, parse)
  {
    seq(|M|, r requires 0 <= r < |M| => RereadRow(M[r], fmt4, parse))
  }

  function RereadAll(d: Entries, fmt4: Renderer, parse: Parser): (e: Entries)
    requires forall x :: parse(fmt4(x)).Some?
    ensures |e| == |d|
    ensures forall k :: 0 <= k < |d| ==> e[k] == (d[k].0, Reread(d[k].1, fmt4, parse))
  {
    seq(|d|, k requires 0 <= k < |d| => (d[k].0, Reread(d[k].1, fmt4, parse)))
  }

  /** A row written by `savetxt`: one line, and for a row with entries,
      its own strip, splitting back into the rendered entries. */
  lemma RowLine(row: seq<real>, fmt4: Renderer)
    ensures NoLineBreak(Join(" ", Rendered(row, fmt4)))
    ensures |row| > 0 ==> var l := Join(" ", Rendered(row, fmt4));
      l != "" && Strip(l) == l && Split(l) == Rendered(row, fmt4)
  {
    var cells := Rendered(row, fmt4);
    if |row| > 0 {
      JoinTokensLine(cells);
      StripUnchanged(Join(" ", cells));
      SplitJoin(cells);
    }
  }

  /** No line written for `d` holds a line break when no name does. */
  lemma {:induction false} ExportLinesNoBreak(d: Entries, fmt4: Renderer)
    requires forall k :: 0 <= k < |d| ==> NoLineBreak(d[k].0)
    ensures forall i :: 0 <= i < |ExportLines(d, fmt4)| ==> NoLineBreak(ExportLines(d, fmt4)[i])
  {
    if |d| > 0 {
      ExportLinesNoBreak(d[1..], fmt4);
      var name, M := d[0].0, d[0].1;
      assert NoLineBreak(name);
      var header := "[" + name + "]";
      assert NoLineBreak(header) by {
        forall i | 0 <= i < |header| ensures !IsLineBreak(header[i]) {
          if 0 < i < |header| - 1 {
            assert header[i] == name[i - 1];
          }
        }
      }
      forall r | 0 <= r < |M| ensures NoLineBreak(SaveTxt(M, fmt4)[r]) {
        RowLine(M[r], fmt4);
      }
      var S := Section(name, M, fmt4);
      assert forall i :: 0 <= i < |S| ==> NoLineBreak(S[i]) by {
        forall i | 0 <= i < |S| ensures NoLineBreak(S[i]) {
          if 0 < i < |S| - 1 {
            assert S[i] == SaveTxt(M, fmt4)[i - 1];
          }
        }
      }
      var E := ExportLines(d, fmt4);
      assert E == S + ExportLines(d[1..], fmt4);
      forall i | 0 <= i < |E| ensures NoLineBreak(E[i]) {
        if i >= |S| {
          assert E[i] == ExportLines(d[1..], fmt4)[i - |S|];
        }
      }
    }
  }

  /** `splitlines` on the written file gives back the written lines: the
      blank line after each section is kept, no empty line is added at
      the end. */
  lemma ExportSplits(d: Entries, fmt4: Renderer)
    requires forall k :: 0 <= k < |d| ==> NoLineBreak(d[k].0)
    ensures SplitLines(Export(d, fmt4)) == ExportLines(d, fmt4)
  {
    var lines := ExportLines(d, fmt4);
    ExportLinesNoBreak(d, fmt4);
    SplitLinesTerminated(lines, "");
    assert Terminated(lines) + "" == Terminated(lines);
    assert SplitLines("") == [];
  }

  /** Every row has at least one entry: `savetxt` writes no blank line. */
  predicate RowsFilled(M: Matrix) {
    forall r :: 0 <= r < |M| ==> |M[r]| > 0
  }

  /** The rows `savetxt` writes are all kept and read back by
      `[float(x) for x in line.split()]` as the matrix read back. */
  lemma ParseSaved(M: Matrix, fmt4: Renderer, parse: Parser)
    requires Storable(M)
    requires forall y :: parse(fmt4(y)).Some?
    ensures TextParsers.NonBlank(SaveTxt(M, fmt4)) == SaveTxt(M, fmt4)
    ensures TextParsers.ParseRows(SaveTxt(M, fmt4), parse) == Success(Reread(M, fmt4, parse))
  {
    assert RowsFilled(M) by {
      forall r | 0 <= r < |M| ensures |M[r]| > 0 {
        assert |M[r]| == Cols(M);
      }
    }
    var lines := SaveTxt(M, fmt4);
    forall r | 0 <= r < |M| ensures Strip(lines[r]) == lines[r] != "" {
      RowLine(M[r], fmt4);
    }
    TextParsers.NonBlankSame(lines);
    ParseSavedRows(M, fmt4, parse);
  }

  lemma {:induction false} ParseSavedRows(M: Matrix, fmt4: Renderer, parse: Parser)
    requires RowsFilled(M)
    requires forall y :: parse(fmt4(y)).Some?
    ensures TextParsers.ParseRows(SaveTxt(M, fmt4), parse) == Success(Reread(M, fmt4, parse))
    decreases |M|
  {
    if |M| == 0 {
      assert SaveTxt(M, fmt4) == [];
    } else {
      assert RowsFilled(M[1..]) by {
        assert forall r :: 0 <= r < |M[1..]| ==> M[1..][r] == M[r + 1];
      }
      assert |M[0]| > 0;
      ParseSavedRows(M[1..], fmt4, parse);
      hide *;
      SavedCons(M, fmt4, parse);
      RowParses(M[0], fmt4, parse);
      TextParsers.ParseRowsCons(Join(" ", Rendered(M[0], fmt4)), SaveTxt(M[1..], fmt4), parse);
    }
  }

  lemma SavedCons(M: Matrix, fmt4: Renderer, parse: Parser)
    requires |M| > 0
    requires forall y :: parse(fmt4(y)).Some?
    ensures SaveTxt(M, fmt4) == [Join(" ", Rendered(M[0], fmt4))] + SaveTxt(M[1..], fmt4)
    ensures Reread(M, fmt4, parse) == [RereadRow(M[0], fmt4, parse)] + Reread(M[1..], fmt4, parse)
  {
    SaveTxtCons(M, fmt4);
    RereadCons(M, fmt4, parse);
  }

  lemma SaveTxtCons(M: Matrix, fmt4: Renderer)
    requires |M| > 0
    ensures SaveTxt(M, fmt4) == [Join(" ", Rendered(M[0], fmt4))] + SaveTxt(M[1..], fmt4)
  {
    var a, b := SaveTxt(M, fmt4), [Join(" ", Rendered(M[0], fmt4))] + SaveTxt(M[1..], fmt4);
    assert |a| == |b|;
    forall r | 0 <= r < |a| ensures a[r] == b[r] {
      if r > 0 {
        assert M[r] == M[1..][r - 1];
      }
    }
  }

  lemma RereadCons(M: Matrix, fmt4: Renderer, parse: Parser)
    requires |M| > 0
    requires forall y :: parse(fmt4(y)).Some?
    ensures Reread(M, fmt4, parse) == [RereadRow(M[0], fmt4, parse)] + Reread(M[1..], fmt4, parse)
  {
    var a, b := Reread(M, fmt4, parse), [RereadRow(M[0], fmt4, parse)] + Reread(M[1..], fmt4, parse);
    assert |a| == |b|;
    forall r | 0 <= r < |a| ensures a[r] == b[r] {
      if r > 0 {
        assert M[r] == M[1..][r - 1];
      }
    }
  }

  /** One written row reads back as the row read back. */
  lemma RowParses(row: seq<real>, fmt4: Renderer, parse: Parser)
    requires |row| > 0
    requires forall y :: parse(fmt4(y)).Some?
    ensures ParseTokens(Split(Join(" ", Rendered(row, fmt4))), parse) == Success(RereadRow(row, fmt4, parse))
  {
    var cells := Rendered(row, fmt4);
    RowLine(row, fmt4);
    forall k | 0 <= k < |cells| ensures parse(cells[k]).Some? {
      var v := Reparse(row[k], fmt4, parse);
      assert cells[k] == fmt4(row[k]);
    }
    var p := ParseTokens(cells, parse);
    assert p.value == RereadRow(row, fmt4, parse);
  }

  /** Reading one written section from a reader whose pending section
      flushes: the name is the section's and the rows are the matrix read
      back. */
  lemma FeedSection(rd: Reader, name: string, M: Matrix, fmt4: Renderer, parse: Parser)
    requires GoodName(name) && Storable(M)
    requires forall y :: parse(fmt4(y)).Some?
    requires Flush(rd).Success?
    ensures FeedAll(rd, Section(name, M, fmt4), parse) ==
      Success(Reader(name, Reread(M, fmt4, parse), Flush(rd).value))
  {
    var rows := SaveTxt(M, fmt4);
    var start := Reader(name, [], Flush(rd).value);
    var full := Reader(name, Reread(M, fmt4, parse), Flush(rd).value);
    SectionParts(name, M, fmt4);
    HeaderStep(rd, name, rows + [""], parse);
    SavedNoHeader(M, fmt4);
    ParseSaved(M, fmt4, parse);
    hide *;
    FeedAllConcat(start, rows, [""], parse);
    FeedData(start, rows, parse);
    BlankStep(full, parse);
    DataResultSaved(start, M, fmt4, parse);
  }

  /** The header line flushes the pending section and names the next. */
  lemma HeaderStep(rd: Reader, name: string, rest: seq<string>, parse: Parser)
    requires GoodName(name) && Flush(rd).Success?
    ensures FeedAll(rd, ["[" + name + "]"] + rest, parse) == FeedAll(Reader(name, [], Flush(rd).value), rest, parse)
  {
    var header := "[" + name + "]";
    StripBracketsOfHeader(name);
    assert Feed(rd, header, parse) == Success(Reader(name, [], Flush(rd).value));
    assert ([header] + rest)[0] == header && ([header] + rest)[1..] == rest;
  }

  /** The section's lines: header, rows, blank line. */
  lemma SectionParts(name: string, M: Matrix, fmt4: Renderer)
    ensures Section(name, M, fmt4) == ["[" + name + "]"] + (SaveTxt(M, fmt4) + [""])
  {
  }

  /** No row written by `savetxt` looks like a header. */
  lemma SavedNoHeader(M: Matrix, fmt4: Renderer)
    ensures forall k :: 0 <= k < |M| ==> !IsHeader(SaveTxt(M, fmt4)[k])
  {
    forall k | 0 <= k < |M| ensures !IsHeader(SaveTxt(M, fmt4)[k]) {
      if |M[k]| > 0 {
        JoinHead(Rendered(M[k], fmt4));
      }
    }
  }

  lemma BlankStep(rd: Reader, parse: Parser)
    ensures FeedAll(rd, [""], parse) == Success(rd)
  {
    assert Strip("") == "";
  }

  lemma DataResultSaved(rd: Reader, M: Matrix, fmt4: Renderer, parse: Parser)
    requires rd.rows == []
    requires forall y :: parse(fmt4(y)).Some?
    requires TextParsers.NonBlank(SaveTxt(M, fmt4)) == SaveTxt(M, fmt4)
    requires TextParsers.ParseRows(SaveTxt(M, fmt4), parse) == Success(Reread(M, fmt4, parse))
    ensures DataResult(rd, SaveTxt(M, fmt4), parse) == Success(Reader(rd.name, Reread(M, fmt4, parse), rd.found))
  {
    assert [] + Reread(M, fmt4, parse) == Reread(M, fmt4, parse);
  }

  /** `sep.join(parts)` begins with the first part. */
  lemma JoinHead(parts: seq<string>)
    requires |parts| > 0 && |parts[0]| > 0
    ensures |Join(" ", parts)| > 0 && Join(" ", parts)[0] == parts[0][0]
  {
  }

  /** Reading the sections written for `d` after entries `Flush(rd)` that
      share no name with `d` stores every item of `d` after them, in order. */
  lemma {:induction false} ImportSections(rd: Reader, d: Entries, fmt4: Renderer, parse: Parser)
    requires Exportable(d)
    requires forall y :: parse(fmt4(y)).Some?
    requires Flush(rd).Success?
    requires forall k :: 0 <= k < |d| ==> d[k].0 !in Names(Flush(rd).value)
    ensures ImportFrom(rd, ExportLines(d, fmt4), parse) ==
      Success(Flush(rd).value + RereadAll(d, fmt4, parse))
    decreases |d|
  {
    var F := Flush(rd).value;
    if |d| == 0 {
      assert F + RereadAll(d, fmt4, parse) == F;
    } else {
      var next := Reader(d[0].0, Reread(d[0].1, fmt4, parse), F);
      SectionStep(rd, d, fmt4, parse);
      ImportSections(next, d[1..], fmt4, parse);
      hide *;
      SectionsJoin(F, d, fmt4, parse);
    }
  }

  /** The first section of the file: after it the reader holds the first
      item, and flushing it appends that item. */
  lemma SectionStep(rd: Reader, d: Entries, fmt4: Renderer, parse: Parser)
    requires Exportable(d) && |d| > 0
    requires forall y :: parse(fmt4(y)).Some?
    requires Flush(rd).Success?
    requires forall k :: 0 <= k < |d| ==> d[k].0 !in Names(Flush(rd).value)
    ensures var F := Flush(rd).value;
      var R := Reread(d[0].1, fmt4, parse);
      var next := Reader(d[0].0, R, F);
      && ImportFrom(rd, ExportLines(d, fmt4), parse) == ImportFrom(next, ExportLines(d[1..], fmt4), parse)
      && Flush(next) == Success(F + [(d[0].0, R)])
      && Exportable(d[1..])
      && forall k :: 0 <= k < |d[1..]| ==> d[1..][k].0 !in Names(F + [(d[0].0, R)])
  {
    var F := Flush(rd).value;
    var R := Reread(d[0].1, fmt4, parse);
    assert GoodName(d[0].0) && Storable(d[0].1) && d[0].0 !in Names(F);
    hide *;
    SectionFeed(rd, d, fmt4, parse);
    FlushNew(F, d[0].0, d[0].1, fmt4, parse);
    RestFresh(F, d, R);
  }

  lemma SectionFeed(rd: Reader, d: Entries, fmt4: Renderer, parse: Parser)
    requires |d| > 0 && GoodName(d[0].0) && Storable(d[0].1)
    requires forall y :: parse(fmt4(y)).Some?
    requires Flush(rd).Success?
    ensures ImportFrom(rd, ExportLines(d, fmt4), parse) ==
      ImportFrom(Reader(d[0].0, Reread(d[0].1, fmt4, parse), Flush(rd).value), ExportLines(d[1..], fmt4), parse)
  {
    assert ExportLines(d, fmt4) == Section(d[0].0, d[0].1, fmt4) + ExportLines(d[1..], fmt4);
    hide *;
    FeedSection(rd, d[0].0, d[0].1, fmt4, parse);
    FeedAllConcat(rd, Section(d[0].0, d[0].1, fmt4), ExportLines(d[1..], fmt4), parse);
  }

  /** Flushing a read-back section under a new name appends it. */
  lemma FlushNew(F: Entries, name: string, M: Matrix, fmt4: Renderer, parse: Parser)
    requires GoodName(name) && Storable(M) && name !in Names(F)
    requires forall y :: parse(fmt4(y)).Some?
    ensures Flush(Reader(name, Reread(M, fmt4, parse), F)) == Success(F + [(name, Reread(M, fmt4, parse))])
  {
    var R := Reread(M, fmt4, parse);
    assert forall r :: 0 <= r < |R| ==> |R[r]| == |M[r]|;
    assert forall r :: 0 <= r < |M| ==> |M[r]| == Cols(M);
    PutAbsent(F, name, R);
  }

  lemma RestFresh(F: Entries, d: Entries, R: Matrix)
    requires Exportable(d) && |d| > 0
    requires forall k :: 0 <= k < |d| ==> d[k].0 !in Names(F)
    ensures Exportable(d[1..])
    ensures forall k :: 0 <= k < |d[1..]| ==> d[1..][k].0 !in Names(F + [(d[0].0, R)])
  {
    var rest := d[1..];
    assert forall k :: 0 <= k < |rest| ==> rest[k] == d[k + 1];
    assert Names(F + [(d[0].0, R)]) == Names(F) + [d[0].0];
  }

  lemma SectionsJoin(F: Entries, d: Entries, fmt4: Renderer, parse: Parser)
    requires |d| > 0
    requires forall y :: parse(fmt4(y)).Some?
    ensures (F + [(d[0].0, Reread(d[0].1, fmt4, parse))]) + RereadAll(d[1..], fmt4, parse)
      == F + RereadAll(d, fmt4, parse)
  {
    assert RereadAll(d, fmt4, parse) == [(d[0].0, Reread(d[0].1, fmt4, parse))] + RereadAll(d[1..], fmt4, parse);
  }

  /** Writing a dict and reading the file back gives the same names in the
      same order, matrices of the same shapes, and each entry the number
      `float` makes of its `%.4f` text. */
  lemma ExportImport(d: Entries, fmt4: Renderer, parse: Parser)
    requires Exportable(d)
    requires forall y :: parse(fmt4(y)).Some?
    ensures Import(Export(d, fmt4), parse) == Success(RereadAll(d, fmt4, parse))
    ensures Names(Import(Export(d, fmt4), parse).value) == Names(d)
    ensures forall k :: 0 <= k < |d| ==>
      var M, R := d[k].1, Import(Export(d, fmt4), parse).value[k].1;
      && |R| == |M|
      && forall r :: 0 <= r < |M| ==>
           |R[r]| == |M[r]| && forall c :: 0 <= c < |M[r]| ==> parse(fmt4(M[r][c])) == Some(R[r][c])
  {
    ExportSplits(d, fmt4);
    assert Flush(Start) == Success([]);
    ImportSections(Start, d, fmt4, parse);
    assert [] + RereadAll(d, fmt4, parse) == RereadAll(d, fmt4, parse);
  }
}

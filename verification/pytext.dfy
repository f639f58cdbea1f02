/** The Python `str` operations the parsers and formatters are built from:
    `splitlines()`, `split()` with no separator, `strip()` / `strip(chars)`,
    `sep.join(parts)` and `str(int)`. */
module PyText {
  import opened Results

  /** The characters for which Python's `str.isspace` holds: the separators of
      `split()` and the characters `strip()` removes. */
  predicate IsSpace(c: char) {
    || c == ' ' || c == '\t' || c == '\n' || c == '\r'
    || c == '\U{B}' || c == '\U{C}'
    || ('\U{1C}' <= c <= '\U{1F}')
    || c == '\U{85}' || c == '\U{A0}' || c == '\U{1680}'
    || ('\U{2000}' <= c <= '\U{200A}')
    || c == '\U{2028}' || c == '\U{2029}' || c == '\U{202F}'
    || c == '\U{205F}' || c == '\U{3000}'
  }

  /** The line boundaries of `str.splitlines()` (a `\r\n` pair is one boundary). */
  predicate IsLineBreak(c: char) {
    || c == '\n' || c == '\r' || c == '\U{B}' || c == '\U{C}'
    || c == '\U{1C}' || c == '\U{1D}' || c == '\U{1E}' || c == '\U{85}'
    || c == '\U{2028}' || c == '\U{2029}'
  }

  predicate NoLineBreak(s: string) {
    forall i :: 0 <= i < |s| ==> !IsLineBreak(s[i])
  }

  predicate NoSpace(s: string) {
    forall i :: 0 <= i < |s| ==> !IsSpace(s[i])
  }

  predicate AllSpace(s: string) {
    forall i :: 0 <= i < |s| ==> IsSpace(s[i])
  }

  /** Concatenation is associative; stated once so proofs can hide the
      sequence theory and still regroup. */
  lemma SeqAssoc<T>(x: seq<T>, y: seq<T>, z: seq<T>)
    ensures x + (y + z) == (x + y) + z
  {}

  lemma SeqEmptyRight<T>(x: seq<T>)
    ensures x + [] == x
  {}

  /** A piece of text that `split()` keeps whole: non-empty, no whitespace. */
  predicate IsToken(t: string) {
    |t| > 0 && NoSpace(t)
  }

  /** `line.startswith(p)`. */
  predicate StartsWith(line: string, p: string) {
    |p| <= |line| && line[..|p|] == p
  }

  /** A concatenation starts with its first part. */
  lemma StartsWithConcat(p: string, x: string)
    ensures StartsWith(p + x, p)
    ensures forall k :: 0 <= k < |p| ==> (p + x)[k] == p[k]
  {
    assert (p + x)[..|p|] == p;
  }

  /** One differing character rules a prefix out. */
  lemma DiffersAt(line: string, p: string, k: nat)
    requires k < |p| && k < |line| && line[k] != p[k]
    ensures !StartsWith(line, p)
  {
    if |p| <= |line| {
      assert line[..|p|][k] == line[k];
    }
  }

  /** How many of `lines` start with `p`. */
  function CountStarting(lines: seq<string>, p: string): nat
  {
    if |lines| == 0 then 0
    else CountStarting(lines[..|lines| - 1], p) + (if StartsWith(lines[|lines| - 1], p) then 1 else 0)
  }

  lemma CountStartingLast(lines: seq<string>, p: string)
    requires |lines| > 0
    ensures CountStarting(lines, p) ==
      CountStarting(lines[..|lines| - 1], p) + (if StartsWith(lines[|lines| - 1], p) then 1 else 0)
  {
  }

  // ---------------------------------------------------------------------
  // splitlines
  // ---------------------------------------------------------------------

  /** Index of the first line boundary in `s`, or `|s|` when there is none. */
  function LineEnd(s: string): (k: nat)
    ensures k <= |s|
    ensures forall i :: 0 <= i < k ==> !IsLineBreak(s[i])
    ensures k < |s| ==> IsLineBreak(s[k])
  {
    if |s| == 0 || IsLineBreak(s[0]) then 0 else 1 + LineEnd(s[1..])
  }

  /** Length of the boundary that starts at `s[k]`: two for `\r\n`, else one. */
  function BreakLength(s: string, k: nat): nat
    requires k < |s|
  {
    if s[k] == '\r' && k + 1 < |s| && s[k + 1] == '\n' then 2 else 1
  }

  /** `s.splitlines()`: the text between line boundaries, in order; a boundary
      at the very end does not open an empty last line, and `""` has no lines. */
  function SplitLines(s: string): (lines: seq<string>)
    ensures forall k :: 0 <= k < |lines| ==> NoLineBreak(lines[k])
    ensures |s| > 0 <==> |lines| > 0
    decreases |s|
  {
    if |s| == 0 then []
    else
      var k := LineEnd(s);
      if k == |s| then [s]
      else [s[..k]] + SplitLines(s[k + BreakLength(s, k)..])
  }

  /** Every line followed by `"\n"`: the text written by one
      `write(line + "\n")` per line. */
  function Terminated(lines: seq<string>): string
  {
    if |lines| == 0 then "" else lines[0] + "\n" + Terminated(lines[1..])
  }

  lemma LineEndBefore(l: string, rest: string)
    requires NoLineBreak(l)
    requires |rest| > 0 && IsLineBreak(rest[0])
    ensures LineEnd(l + rest) == |l|
  {
    if |l| > 0 {
      assert (l + rest)[1..] == l[1..] + rest;
      LineEndBefore(l[1..], rest);
    }
  }

  lemma LineEndWhole(l: string)
    requires NoLineBreak(l)
    ensures LineEnd(l) == |l|
  {
    if |l| > 0 {
      LineEndWhole(l[1..]);
    }
  }

  /** A line without boundaries followed by `"\n"` is split off as one line. */
  lemma SplitLinesCons(l: string, rest: string)
    requires NoLineBreak(l)
    ensures SplitLines(l + "\n" + rest) == [l] + SplitLines(rest)
  {
    var s := l + "\n" + rest;
    assert s == l + ("\n" + rest);
    LineEndBefore(l, "\n" + rest);
    assert s[..|l|] == l;
    assert s[|l|] == '\n';
    assert s[|l| + 1..] == rest;
  }

  /** Terminated lines split back into exactly those lines: `splitlines`
      undoes `write(line + "\n")`. */
  lemma {:induction false} SplitLinesTerminated(lines: seq<string>, tail: string)
    requires forall k :: 0 <= k < |lines| ==> NoLineBreak(lines[k])
    ensures SplitLines(Terminated(lines) + tail) == lines + SplitLines(tail)
  {
    if |lines| == 0 {
      assert Terminated(lines) + tail == tail;
    } else {
      var rest := Terminated(lines[1..]) + tail;
      calc {
        SplitLines(Terminated(lines) + tail);
        { assert Terminated(lines) + tail == lines[0] + "\n" + rest; }
        SplitLines(lines[0] + "\n" + rest);
        { SplitLinesCons(lines[0], rest); }
        [lines[0]] + SplitLines(rest);
        { SplitLinesTerminated(lines[1..], tail); }
        [lines[0]] + (lines[1..] + SplitLines(tail));
        { assert lines == [lines[0]] + lines[1..]; }
        lines + SplitLines(tail);
      }
    }
  }

  lemma SplitLinesSingle(l: string)
    requires NoLineBreak(l) && |l| > 0
    ensures SplitLines(l) == [l]
  {
    LineEndWhole(l);
  }

  // ---------------------------------------------------------------------
  // join
  // ---------------------------------------------------------------------

  /** `sep.join(parts)`. */
  function Join(sep: string, parts: seq<string>): string
  {
    if |parts| == 0 then ""
    else if |parts| == 1 then parts[0]
    else parts[0] + sep + Join(sep, parts[1..])
  }

  /** `"\n".join(lines)` splits back into `lines` when the last one is not
      empty (an empty last line would vanish into the final boundary). */
  lemma {:induction false} SplitLinesJoin(lines: seq<string>)
    requires forall k :: 0 <= k < |lines| ==> NoLineBreak(lines[k])
    requires |lines| > 0 ==> |lines[|lines| - 1]| > 0
    ensures SplitLines(Join("\n", lines)) == lines
  {
    if |lines| == 1 {
      SplitLinesSingle(lines[0]);
    } else if |lines| > 1 {
      SplitLinesJoin(lines[1..]);
      SplitLinesJoinStep(lines);
    }
  }

  /** The step of `SplitLinesJoin`: the first line, then the rest. */
  lemma SplitLinesJoinStep(lines: seq<string>)
    requires |lines| > 1 && NoLineBreak(lines[0])
    requires SplitLines(Join("\n", lines[1..])) == lines[1..]
    ensures SplitLines(Join("\n", lines)) == lines
  {
    assert Join("\n", lines) == lines[0] + "\n" + Join("\n", lines[1..]);
    SplitLinesCons(lines[0], Join("\n", lines[1..]));
    assert lines == [lines[0]] + lines[1..];
  }

  // ---------------------------------------------------------------------
  // split()
  // ---------------------------------------------------------------------

  /** Index of the first whitespace character in `s`, or `|s|`. */
  function RunEnd(s: string): (k: nat)
    ensures k <= |s|
    ensures forall i :: 0 <= i < k ==> !IsSpace(s[i])
    ensures k < |s| ==> IsSpace(s[k])
  {
    if |s| == 0 || IsSpace(s[0]) then 0 else 1 + RunEnd(s[1..])
  }

  /** `s.split()`: the maximal runs of non-whitespace characters, in order. */
  function Split(s: string): (tokens: seq<string>)
    ensures forall k :: 0 <= k < |tokens| ==> IsToken(tokens[k])
    decreases |s|
  {
    if |s| == 0 then []
    else if IsSpace(s[0]) then Split(s[1..])
    else
      var k := RunEnd(s);
      [s[..k]] + Split(s[k..])
  }

  lemma {:induction false} RunEndBefore(t: string, rest: string)
    requires NoSpace(t)
    requires |rest| == 0 || IsSpace(rest[0])
    ensures RunEnd(t + rest) == |t|
  {
    hide IsSpace;
    var s := t + rest;
    if |t| == 0 {
      assert s == rest;
    } else {
      assert s[0] == t[0] && s[1..] == t[1..] + rest;
      assert !IsSpace(t[0]);
      assert NoSpace(t[1..]) by {
        forall i | 0 <= i < |t[1..]| ensures !IsSpace(t[1..][i]) {
          assert t[1..][i] == t[i + 1];
        }
      }
      RunEndBefore(t[1..], rest);
    }
  }

  /** A token followed by nothing or by whitespace is split off whole. */
  lemma SplitTokenFirst(t: string, rest: string)
    requires IsToken(t)
    requires |rest| == 0 || IsSpace(rest[0])
    ensures Split(t + rest) == [t] + Split(rest)
  {
    RunEndBefore(t, rest);
    assert (t + rest)[..|t|] == t;
    assert (t + rest)[|t|..] == rest;
  }

  /** `split()` undoes `" ".join(tokens)` for whitespace-free non-empty tokens. */
  lemma {:induction false} SplitJoin(tokens: seq<string>)
    requires forall k :: 0 <= k < |tokens| ==> IsToken(tokens[k])
    ensures Split(Join(" ", tokens)) == tokens
  {
    if |tokens| == 1 {
      SplitTokenFirst(tokens[0], "");
      assert tokens[0] + "" == tokens[0];
    } else if |tokens| > 1 {
      var rest := " " + Join(" ", tokens[1..]);
      assert Join(" ", tokens) == tokens[0] + rest;
      SplitTokenFirst(tokens[0], rest);
      assert rest[1..] == Join(" ", tokens[1..]);
      SplitJoin(tokens[1..]);
      assert tokens == [tokens[0]] + tokens[1..];
    }
  }

  /** Tokens joined by single spaces make one line that begins and ends
      with a token character. */
  lemma {:induction false} JoinTokensLine(tokens: seq<string>)
    requires |tokens| > 0 && forall k :: 0 <= k < |tokens| ==> IsToken(tokens[k])
    ensures var j := Join(" ", tokens);
      |j| > 0 && NoLineBreak(j) && !IsSpace(j[0]) && !IsSpace(j[|j| - 1])
  {
    if |tokens| > 1 {
      JoinTokensLine(tokens[1..]);
      var rest := Join(" ", tokens[1..]);
      var j := Join(" ", tokens);
      assert j == tokens[0] + " " + rest;
      assert j[0] == tokens[0][0];
      assert j[|j| - 1] == rest[|rest| - 1];
      forall i | 0 <= i < |j|
        ensures !IsLineBreak(j[i])
      {
        if i < |tokens[0]| {
          assert j[i] == tokens[0][i];
        } else if i > |tokens[0]| {
          assert j[i] == rest[i - |tokens[0]| - 1];
        }
      }
    }
  }

  /** A whitespace character separates: splitting around it is splitting
      both sides. */
  lemma {:induction false} SplitAround(a: string, w: char, b: string)
    requires IsSpace(w)
    ensures Split(a + [w] + b) == Split(a) + Split(b)
    decreases |a|
  {
    if |a| == 0 {
      var s := a + [w] + b;
      assert s == [w] + b;
      assert s[1..] == b;
    } else if IsSpace(a[0]) {
      SplitAround(a[1..], w, b);
      SplitAroundSpace(a, w, b);
    } else {
      SplitAround(a[RunEnd(a)..], w, b);
      SplitAroundToken(a, w, b);
    }
  }

  /** The step of `SplitAround` past a leading whitespace character. */
  lemma SplitAroundSpace(a: string, w: char, b: string)
    requires |a| > 0 && IsSpace(a[0])
    requires Split(a[1..] + [w] + b) == Split(a[1..]) + Split(b)
    ensures Split(a + [w] + b) == Split(a) + Split(b)
  {
    var s := a + [w] + b;
    assert s[0] == a[0] && s[1..] == a[1..] + [w] + b;
    hide *;
    SplitSpaceHead(s);
    SplitSpaceHead(a);
  }

  /** Leading whitespace is skipped. */
  lemma SplitSpaceHead(s: string)
    requires |s| > 0 && IsSpace(s[0])
    ensures Split(s) == Split(s[1..])
  {}

  /** The first run of a string that starts with a token is a token, and
      it ends the string or is followed by whitespace. */
  lemma RunParts(a: string)
    requires |a| > 0 && !IsSpace(a[0])
    ensures IsToken(a[..RunEnd(a)])
    ensures RunEnd(a) == |a| || IsSpace(a[RunEnd(a)..][0])
  {
    var k := RunEnd(a);
    assert a[RunEnd(a)..] == [] || a[RunEnd(a)..][0] == a[k];
  }

  /** `a` around its element at `k`. */
  lemma CutAt<T>(a: seq<T>, k: nat)
    requires k < |a|
    ensures a == a[..k] + [a[k]] + a[k + 1..]
  {
    assert a == a[..k] + a[k..];
    assert a[k..] == [a[k]] + a[k + 1..];
  }

  /** `a` cut at `i` and at `j`. */
  lemma CutTwice<T>(a: seq<T>, i: nat, j: nat)
    requires i <= j <= |a|
    ensures a == a[..i] + (a[i..j] + a[j..])
  {
    assert a[i..] == a[i..j] + a[j..];
    assert a == a[..i] + a[i..];
  }

  /** Cutting `a` at `k` and regrouping `a + [w] + b` around the cut. */
  lemma CutParts<T>(a: seq<T>, k: nat, w: T, b: seq<T>)
    requires k <= |a|
    ensures a == a[..k] + a[k..]
    ensures a + [w] + b == a[..k] + (a[k..] + [w] + b)
  {
    var t, u := a[..k], a[k..];
    assert a == t + u;
    SeqAssoc(t, u, [w]);
    SeqAssoc(t, u + [w], b);
  }

  /** The step of `SplitAround` past a leading token. */
  lemma SplitAroundToken(a: string, w: char, b: string)
    requires IsSpace(w) && |a| > 0 && !IsSpace(a[0])
    requires Split(a[RunEnd(a)..] + [w] + b) == Split(a[RunEnd(a)..]) + Split(b)
    ensures Split(a + [w] + b) == Split(a) + Split(b)
  {
    hide *;
    var k := RunEnd(a);
    RunParts(a);
    CutParts(a, k, w, b);
    var t, u := a[..k], a[k..];
    SplitTokenFirst(t, u + [w] + b);
    SplitTokenFirst(t, u);
    SeqAssoc([t], Split(u), Split(b));
  }

  /** `Split` on a string that starts with a token. */
  lemma SplitToken(s: string)
    requires |s| > 0 && !IsSpace(s[0])
    ensures Split(s) == [s[..RunEnd(s)]] + Split(s[RunEnd(s)..])
  {}

  lemma {:induction false} SplitAllSpace(s: string)
    ensures AllSpace(s) <==> Split(s) == []
    decreases |s|
  {
    if |s| > 0 {
      if IsSpace(s[0]) {
        SplitAllSpace(s[1..]);
        if AllSpace(s[1..]) {
          assert AllSpace(s);
        }
      } else {
        assert !AllSpace(s);
      }
    }
  }

  lemma {:induction false} SplitSpacePrefix(p: string, x: string)
    requires AllSpace(p)
    ensures Split(p + x) == Split(x)
    decreases |p|
  {
    if |p| > 0 {
      assert (p + x)[1..] == p[1..] + x;
      SplitSpacePrefix(p[1..], x);
    } else {
      assert p + x == x;
    }
  }

  lemma SplitSpaceSuffix(x: string, q: string)
    requires AllSpace(q)
    ensures Split(x + q) == Split(x)
  {
    if |q| == 0 {
      assert x + q == x;
    } else {
      assert x + q == x + [q[0]] + q[1..];
      SplitAround(x, q[0], q[1..]);
      SplitAllSpace(q[1..]);
    }
  }

  /** The tokens of a sequence of lines, line after line. */
  function TokensOfLines(lines: seq<string>): seq<string>
  {
    if |lines| == 0 then [] else Split(lines[0]) + TokensOfLines(lines[1..])
  }

  lemma TokensOfLinesAppend(a: seq<string>, b: seq<string>)
    ensures TokensOfLines(a + b) == TokensOfLines(a) + TokensOfLines(b)
  {
    if |a| > 0 {
      assert (a + b)[1..] == a[1..] + b;
      TokensOfLinesAppend(a[1..], b);
    } else {
      assert a + b == b;
    }
  }

  /** Line boundaries are whitespace: splitting into lines and then each
      line into tokens gives the tokens of the whole text. */
  lemma {:induction false} LinesTokens(s: string)
    ensures TokensOfLines(SplitLines(s)) == Split(s)
    decreases |s|
  {
    if |s| > 0 && LineEnd(s) < |s| {
      var k := LineEnd(s);
      var rest := s[k + BreakLength(s, k)..];
      LinesTokens(rest);
      LinesTokensStep(s, k, rest);
    }
  }

  /** The step of `LinesTokens` across the first line boundary. */
  lemma LinesTokensStep(s: string, k: nat, rest: string)
    requires |s| > 0 && k == LineEnd(s) && k < |s| && rest == s[k + BreakLength(s, k)..]
    requires TokensOfLines(SplitLines(rest)) == Split(rest)
    ensures TokensOfLines(SplitLines(s)) == Split(s)
  {
    SplitLinesStep(s, k, rest);
    TokensOfLinesCons(s[..k], SplitLines(rest));
    SplitAtBreak(s, k, rest);
  }

  /** A line boundary separates tokens like any other whitespace. */
  lemma SplitAtBreak(s: string, k: nat, rest: string)
    requires |s| > 0 && k == LineEnd(s) && k < |s| && rest == s[k + BreakLength(s, k)..]
    ensures Split(s) == Split(s[..k]) + Split(rest)
  {
    var tail := s[k + 1..];
    assert IsSpace(s[k]);
    if BreakLength(s, k) == 2 {
      assert AllSpace([s[k + 1]]);
    }
    hide *;
    CutAt(s, k);
    SplitAround(s[..k], s[k], tail);
    if BreakLength(s, k) == 2 {
      CutAt(tail, 0);
      SplitSpacePrefix([s[k + 1]], rest);
    }
  }

  /** `SplitLines` on a text with a line boundary at `k`: the first line,
      then the lines after the boundary. */
  lemma SplitLinesStep(s: string, k: nat, rest: string)
    requires |s| > 0 && k == LineEnd(s) && k < |s| && rest == s[k + BreakLength(s, k)..]
    ensures SplitLines(s) == [s[..k]] + SplitLines(rest)
  {}

  lemma TokensOfLinesCons(l: string, lines: seq<string>)
    ensures TokensOfLines([l] + lines) == Split(l) + TokensOfLines(lines)
  {
    assert ([l] + lines)[1..] == lines;
  }

  // ---------------------------------------------------------------------
  // strip
  // ---------------------------------------------------------------------

  /** Length of the longest prefix of `s` made of characters `drop` selects. */
  function LeadingCount(s: string, drop: char -> bool): (k: nat)
    ensures k <= |s|
    ensures forall i :: 0 <= i < k ==> drop(s[i])
    ensures k < |s| ==> !drop(s[k])
  {
    if |s| == 0 || !drop(s[0]) then 0 else 1 + LeadingCount(s[1..], drop)
  }

  /** Length of the longest suffix of `s` made of characters `drop` selects. */
  function TrailingCount(s: string, drop: char -> bool): (k: nat)
    ensures k <= |s|
    ensures forall i :: |s| - k <= i < |s| ==> drop(s[i])
    ensures k < |s| ==> !drop(s[|s| - 1 - k])
  {
    if |s| == 0 || !drop(s[|s| - 1]) then 0
    else 1 + TrailingCount(s[..|s| - 1], drop)
  }

  /** `s.strip(chars)`, with `drop` saying which characters are in `chars`:
      what is left of `s` once its leading and trailing such characters go. */
  function StripBy(s: string, drop: char -> bool): (r: string)
    ensures |r| == 0 <==> forall i :: 0 <= i < |s| ==> drop(s[i])
    ensures |r| > 0 ==> !drop(r[0]) && !drop(r[|r| - 1])
  {
    var i := LeadingCount(s, drop);
    if i == |s| then ""
    else s[i..|s| - TrailingCount(s, drop)]
  }

  /** `s.strip()`. */
  function Strip(s: string): string
  {
    StripBy(s, IsSpace)
  }

  /** A line is blank (`not line.strip()`) exactly when it holds no token. */
  lemma BlankIffNoTokens(s: string)
    ensures Strip(s) == "" <==> Split(s) == []
  {
    SplitAllSpace(s);
  }

  /** Text that neither begins nor ends with whitespace is its own strip. */
  lemma StripUnchanged(s: string)
    requires |s| > 0 && !IsSpace(s[0]) && !IsSpace(s[|s| - 1])
    ensures Strip(s) == s
  {
    assert LeadingCount(s, IsSpace) == 0;
    assert TrailingCount(s, IsSpace) == 0;
    assert s[0..|s|] == s;
  }

  /** Stripping a line does not change its tokens. */
  lemma SplitStrip(s: string)
    ensures Split(Strip(s)) == Split(s)
  {
    var i := LeadingCount(s, IsSpace);
    if i == |s| {
      assert AllSpace(s);
      SplitAllSpace(s);
      SplitAllSpace(Strip(s));
    } else {
      var j := |s| - TrailingCount(s, IsSpace);
      var p, m, q := s[..i], s[i..j], s[j..];
      assert Strip(s) == m;
      assert AllSpace(p);
      assert AllSpace(q);
      hide *;
      CutTwice(s, i, j);
      SplitSpacePrefix(p, m + q);
      SplitSpaceSuffix(m, q);
    }
  }

  predicate IsBracket(c: char) {
    c == '[' || c == ']'
  }

  /** `s.strip("[]")`. */
  function StripBrackets(s: string): string
  {
    StripBy(s, IsBracket)
  }

  /** Stripping brackets off `"[" + name + "]"` gives back `name` exactly when
      `name` neither starts nor ends with a bracket. */
  lemma StripBracketsOfHeader(name: string)
    requires |name| == 0 || (!IsBracket(name[0]) && !IsBracket(name[|name| - 1]))
    ensures StripBrackets("[" + name + "]") == name
  {
    var s := "[" + name + "]";
    if |name| == 0 {
      assert forall i :: 0 <= i < |s| ==> IsBracket(s[i]);
    } else {
      assert LeadingCount(s[1..], IsBracket) == 0;
      assert LeadingCount(s, IsBracket) == 1;
      assert s[..|s| - 1][..|s| - 2] == s[..|s| - 2];
      assert TrailingCount(s[..|s| - 1], IsBracket) == 0;
      assert TrailingCount(s, IsBracket) == 1;
      assert s[1..|s| - 1] == name;
    }
  }

  // ---------------------------------------------------------------------
  // str(int)
  // ---------------------------------------------------------------------

  predicate IsDigit(c: char) {
    '0' <= c <= '9'
  }

  function DigitChar(d: nat): (c: char)
    requires d < 10
    ensures IsDigit(c)
  {
    ('0' as int + d) as char
  }

  /** Decimal digits of `n`, most significant first, no leading zeros. */
  function NatToString(n: nat): (s: string)
    ensures |s| > 0 && forall i :: 0 <= i < |s| ==> IsDigit(s[i])
    ensures |s| > 1 ==> s[0] != '0'
  {
    if n < 10 then [DigitChar(n)]
    else NatToString(n / 10) + [DigitChar(n % 10)]
  }

  /** `str(i)` for a Python `int`: its digits, with `-` in front when negative. */
  function IntToString(i: int): (s: string)
    ensures IsToken(s) && !IsBracket(s[0])
  {
    if i < 0 then "-" + NatToString(-i) else NatToString(i)
  }

  /** The value of a string of decimal digits: the reference reading of
      what `NatToString` writes. */
  function DigitsValue(s: string): nat
    requires forall i :: 0 <= i < |s| ==> IsDigit(s[i])
  {
    if |s| == 0 then 0
    else 10 * DigitsValue(s[..|s| - 1]) + DigitValue(s[|s| - 1])
  }

  function DigitValue(c: char): nat
    requires IsDigit(c)
  {
    c as int - '0' as int
  }

  /** Reads an optionally negated run of decimal digits, as `int(s)` does on
      such text. */
  function ParseInt(s: string): Option<int>
  {
    if |s| > 1 && s[0] == '-' && forall i :: 1 <= i < |s| ==> IsDigit(s[i]) then
      Some(0 - DigitsValue(s[1..]) as int)
    else if |s| > 0 && forall i :: 0 <= i < |s| ==> IsDigit(s[i]) then
      Some(DigitsValue(s))
    else
      None
  }

  lemma {:induction false} NatToStringValue(n: nat)
    ensures DigitsValue(NatToString(n)) == n
  {
    var s := NatToString(n);
    if n >= 10 {
      NatToStringValue(n / 10);
      assert s[..|s| - 1] == NatToString(n / 10);
    }
  }

  /** `str(int)` and `int(str)` are inverse: every integer prints as text
      that reads back as that integer. */
  lemma IntToStringRoundTrip(i: int)
    ensures ParseInt(IntToString(i)) == Some(i)
  {
    var s := IntToString(i);
    if i < 0 {
      NatToStringValue(-i);
      assert s[1..] == NatToString(-i);
    } else {
      NatToStringValue(i);
    }
  }
}

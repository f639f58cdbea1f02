/** The two numeric text conversions the program leaves to Python, kept
    abstract: `float(token)` and the fixed-point renderings `%.2f` / `%.4f`.
    Their numeric behaviour (rounding, `nan`, `inf`) is not modelled; every
    operation that uses them takes them as parameters. */
module NumText {
  import opened Results
  import opened PyText

  /** A fixed-point rendering such as `f"{x:.2f}"` or `"%.4f" % x`. All that
      is assumed is what such output always looks like: one non-empty run of
      non-whitespace characters that does not start with a bracket. */
  type Renderer = f: real -> string | forall x :: IsToken(f(x)) && !IsBracket(f(x)[0])
    witness (x: real) => "0"

  /** `float(token)`: the number the token denotes, or `None` where Python
      raises `ValueError`. */
  type Parser = string -> Option<real>

  /** `[float(t) for t in tokens]`: every value, or the first token that
      `float` rejects (the comprehension stops at the first exception). */
  function ParseTokens(tokens: seq<string>, parse: Parser): (r: Result<seq<real>, string>)
    ensures r.Success? <==> forall k :: 0 <= k < |tokens| ==> parse(tokens[k]).Some?
    ensures r.Success? ==> |r.value| == |tokens|
    ensures r.Success? ==> forall k :: 0 <= k < |tokens| ==> parse(tokens[k]) == Some(r.value[k])
    ensures r.Failure? ==> exists k :: FirstRejected(tokens, parse, k) && tokens[k] == r.error
  {
    if |tokens| == 0 then Success([])
    else
      match parse(tokens[0])
      case None =>
        assert FirstRejected(tokens, parse, 0);
        Failure(tokens[0])
      case Some(v) =>
        match ParseTokens(tokens[1..], parse)
        case Failure(e) =>
          var k :| FirstRejected(tokens[1..], parse, k) && tokens[1..][k] == e;
          assert FirstRejected(tokens, parse, k + 1);
          Failure(e)
        case Success(vs) => Success([v] + vs)
  }

  /** Parsing a concatenation parses the first part, then the second; the
      first rejected token wins. */
  lemma {:induction false} ParseTokensAppend(a: seq<string>, b: seq<string>, parse: Parser)
    ensures ParseTokens(a, parse).Failure? ==> ParseTokens(a + b, parse) == ParseTokens(a, parse)
    ensures ParseTokens(a, parse).Success? && ParseTokens(b, parse).Failure? ==>
      ParseTokens(a + b, parse) == ParseTokens(b, parse)
    ensures ParseTokens(a, parse).Success? && ParseTokens(b, parse).Success? ==>
      ParseTokens(a + b, parse) == Success(ParseTokens(a, parse).value + ParseTokens(b, parse).value)
  {
    if |a| == 0 {
      assert a + b == b;
      assert ParseTokens(a, parse) == Success([]);
      if ParseTokens(b, parse).Success? {
        assert [] + ParseTokens(b, parse).value == ParseTokens(b, parse).value;
      }
    } else {
      var c := a + b;
      assert c[0] == a[0] && c[1..] == a[1..] + b;
      hide *;
      ParseTokensAppend(a[1..], b, parse);
      ParseTokensCons(a, parse);
      ParseTokensCons(c, parse);
      if ParseTokens(a, parse).Success? && ParseTokens(b, parse).Success? {
        var va, vb := ParseTokens(a[1..], parse).value, ParseTokens(b, parse).value;
        SeqAssoc([parse(a[0]).value], va, vb);
      }
    }
  }

  /** One step of `ParseTokens`: the first token, then the rest. */
  lemma ParseTokensCons(s: seq<string>, parse: Parser)
    requires |s| > 0
    ensures parse(s[0]).None? ==> ParseTokens(s, parse) == Failure(s[0])
    ensures parse(s[0]).Some? && ParseTokens(s[1..], parse).Failure? ==>
      ParseTokens(s, parse) == ParseTokens(s[1..], parse)
    ensures parse(s[0]).Some? && ParseTokens(s[1..], parse).Success? ==>
      ParseTokens(s, parse) == Success([parse(s[0]).value] + ParseTokens(s[1..], parse).value)
  {}

  /** `tokens[k]` is the first token `float` rejects. */
  predicate FirstRejected(tokens: seq<string>, parse: Parser, k: int)
  {
    && 0 <= k < |tokens|
    && parse(tokens[k]).None?
    && forall i :: 0 <= i < k ==> parse(tokens[i]).Some?
  }
}

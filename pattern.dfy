/**
 * `matchesPattern` from src/common/matches-pattern.ts.
 *
 * The source rewrites a route pattern into a regular expression with three
 * `replace` calls (`:name` to `([^/]+)`, `*` to `.*`, `/` escaped) and tests
 * the whole path against it. Here the rewrite is a tokeniser and the regular
 * expression's language is the predicate `Matches`.
 */
module Pattern {

  /** One piece of a compiled route pattern. */
  datatype Token =
    | Lit(c: char)         // a character matched as itself
    | AnyChar              // a literal `.`, which the regex reads as "any character"
    | Param(name: string)  // `:name`, compiled to `([^/]+)`
    | Star                 // `*`, compiled to `.*`

  /** The characters JavaScript's `.` does not match (no `s` flag). */
  predicate IsLineTerminator(c: char) {
    c == '\n' || c == '\r' || c == '\U{2028}' || c == '\U{2029}'
  }

  predicate NoLineTerminator(s: string) {
    forall i :: 0 <= i < |s| ==> !IsLineTerminator(s[i])
  }

  /** What `[^/]+` matches: a non-empty run of characters other than `/`. */
  predicate IsSegment(s: string) {
    |s| > 0 && '/' !in s
  }

  /** The length of the longest `/`-free prefix of `s`. */
  function SegmentLength(s: string): (n: nat)
    ensures n <= |s|
    ensures '/' !in s[..n]
    ensures n < |s| ==> s[n] == '/'
  {
    if s == [] || s[0] == '/' then 0
    else
      var n := 1 + SegmentLength(s[1..]);
      assert s[..n] == [s[0]] + s[1..][..n - 1];
      n
  }

  /** The length of the longest prefix of `s` free of line terminators. */
  function LineLength(s: string): (n: nat)
    ensures n <= |s|
    ensures NoLineTerminator(s[..n])
    ensures n < |s| ==> IsLineTerminator(s[n])
  {
    if s == [] || IsLineTerminator(s[0]) then 0
    else
      var n := 1 + LineLength(s[1..]);
      assert s[..n] == [s[0]] + s[1..][..n - 1];
      n
  }

  /** The pattern text a token stands for. */
  function TokenText(t: Token): string {
    match t
    case Lit(c) => [c]
    case AnyChar => "."
    case Param(name) => ":" + name
    case Star => "*"
  }

  /** The pattern text a token sequence stands for. */
  function Source(ts: seq<Token>): string {
    if ts == [] then "" else TokenText(ts[0]) + Source(ts[1..])
  }

  /**
   * Every parameter name is non-empty and `/`-free, and every parameter is
   * followed by `/` or by the end of the pattern (the name runs up to the
   * next `/`).
   */
  predicate WellFormed(ts: seq<Token>) {
    forall i :: 0 <= i < |ts| && ts[i].Param? ==>
      IsSegment(ts[i].name) && (i + 1 == |ts| || ts[i + 1] == Lit('/'))
  }

  /**
   * The rewrite of lines 2-5: a `:` followed by at least one non-`/`
   * character starts a parameter whose name runs up to the next `/`; `*` is
   * the wildcard; `.` is a regex metacharacter; everything else, including a
   * `:` before `/` or at the end, is literal. Each character yields at most
   * one token.
   */
  function Tokenize(p: string): (ts: seq<Token>)
    ensures |ts| <= |p|
    decreases |p|
  {
    if p == [] then []
    else if p[0] == ':' && SegmentLength(p[1..]) > 0 then
      var n := SegmentLength(p[1..]);
      [Param(p[1..n + 1])] + Tokenize(p[n + 1..])
    else
      var t := if p[0] == '*' then Star else if p[0] == '.' then AnyChar else Lit(p[0]);
      [t] + Tokenize(p[1..])
  }

  /**
   * Parameter names are non-empty and `/`-free, and each parameter is
   * followed by `/` or by the end of the pattern.
   */
  lemma {:induction false} TokenizeWellFormed(p: string)
    ensures WellFormed(Tokenize(p))
    ensures p != [] && p[0] == '/' ==> Tokenize(p) != [] && Tokenize(p)[0] == Lit('/')
    decreases |p|
  {
    if p != [] {
      var ts := Tokenize(p);
      if p[0] == ':' && SegmentLength(p[1..]) > 0 {
        var n := SegmentLength(p[1..]);
        var rest := p[n + 1..];
        TokenizeWellFormed(rest);
        assert rest != [] ==> rest[0] == '/';
        assert ts == [Param(p[1..n + 1])] + Tokenize(rest);
      } else {
        TokenizeWellFormed(p[1..]);
        assert ts[1..] == Tokenize(p[1..]);
      }
    }
  }

  /** Tokenising loses nothing: the tokens spell the pattern back. */
  lemma {:induction false} TokenizeRoundTrip(p: string)
    ensures Source(Tokenize(p)) == p
    decreases |p|
  {
    if p != [] {
      if p[0] == ':' && SegmentLength(p[1..]) > 0 {
        var n := SegmentLength(p[1..]);
        TokenizeParamStep(p, n);
        TokenizeRoundTrip(p[n + 1..]);
        SpellParam(p, n, Tokenize(p[n + 1..]));
      } else {
        TokenizeCharStep(p);
        TokenizeRoundTrip(p[1..]);
        SpellChar(p, Tokenize(p[1..]));
      }
    }
  }

  /** A parameter token followed by tokens spelling the rest spells the whole pattern. */
  lemma SpellParam(p: string, n: nat, ts: seq<Token>)
    requires n + 1 <= |p| && p[0] == ':'
    requires Source(ts) == p[n + 1..]
    ensures Source([Param(p[1..n + 1])] + ts) == p
  {
    SourceCons(Param(p[1..n + 1]), ts);
    SplitAt(p, 1, n + 1);
    assert p[..1] == ":";
  }

  /** The single-character token of `p[0]` followed by tokens spelling the rest spells `p`. */
  lemma SpellChar(p: string, ts: seq<Token>)
    requires p != [] && Source(ts) == p[1..]
    ensures Source([if p[0] == '*' then Star else if p[0] == '.' then AnyChar else Lit(p[0])] + ts) == p
  {
    var t := if p[0] == '*' then Star else if p[0] == '.' then AnyChar else Lit(p[0]);
    SourceCons(t, ts);
    assert TokenText(t) == [p[0]];
    assert p == [p[0]] + p[1..];
  }

  lemma SourceCons(t: Token, ts: seq<Token>)
    ensures Source([t] + ts) == TokenText(t) + Source(ts)
  {
    assert ([t] + ts)[0] == t && ([t] + ts)[1..] == ts;
  }

  lemma SplitAt(p: string, i: nat, j: nat)
    requires i <= j <= |p|
    ensures p == p[..i] + p[i..j] + p[j..]
  {
  }

  /**
   * The language of the anchored regular expression `^...$` built from the
   * tokens: a literal matches itself, `.` one non-line-terminator character,
   * `([^/]+)` a segment and `.*` any line-terminator-free text.
   */
  predicate Matches(ts: seq<Token>, s: string)
    decreases |ts|
  {
    if ts == [] then s == []
    else match ts[0]
      case Lit(c) => |s| > 0 && s[0] == c && Matches(ts[1..], s[1..])
      case AnyChar => |s| > 0 && !IsLineTerminator(s[0]) && Matches(ts[1..], s[1..])
      case Param(_) => exists k :: 1 <= k <= |s| && '/' !in s[..k] && Matches(ts[1..], s[k..])
      case Star => exists k :: 0 <= k <= |s| && NoLineTerminator(s[..k]) && Matches(ts[1..], s[k..])
  }

  /** `matchesPattern(url, pattern)`. */
  predicate MatchesPattern(url: string, pattern: string) {
    Matches(Tokenize(pattern), url)
  }

  /** A pattern with no `:`, `*` or `.`: every character is a literal. */
  predicate IsLiteral(p: string) {
    forall i :: 0 <= i < |p| ==> p[i] != ':' && p[i] != '*' && p[i] != '.'
  }

  lemma SegmentLengthAppend(a: string, q: string)
    requires q == [] || q[0] == '/'
    ensures SegmentLength(a + q) == SegmentLength(a)
  {
    if a != [] && a[0] != '/' {
      assert (a + q)[1..] == a[1..] + q;
      SegmentLengthAppend(a[1..], q);
    } else if a == [] {
      assert a + q == q;
    }
  }

  /** One step of `Tokenize` on a pattern that starts with a parameter. */
  lemma TokenizeParamStep(p: string, n: nat)
    requires p != [] && p[0] == ':' && n == SegmentLength(p[1..]) > 0
    ensures n + 1 <= |p|
    ensures Tokenize(p) == [Param(p[1..n + 1])] + Tokenize(p[n + 1..])
  {
  }

  /** One step of `Tokenize` on a pattern that does not start with a parameter. */
  lemma TokenizeCharStep(p: string)
    requires p != [] && !(p[0] == ':' && SegmentLength(p[1..]) > 0)
    ensures Tokenize(p) == [if p[0] == '*' then Star else if p[0] == '.' then AnyChar else Lit(p[0])] + Tokenize(p[1..])
  {
  }

  /**
   * Tokenising distributes over concatenation at a `/` boundary: a
   * parameter name never runs across a `/`.
   */
  lemma {:induction false} TokenizeAppend(p: string, q: string)
    requires q == [] || q[0] == '/'
    ensures Tokenize(p + q) == Tokenize(p) + Tokenize(q)
    decreases |p|, 1
  {
    if p == [] {
      assert p + q == q;
    } else if p[0] == ':' && SegmentLength(p[1..]) > 0 {
      TokenizeAppendParam(p, q);
    } else {
      TokenizeAppendChar(p, q);
    }
  }

  lemma {:induction false} TokenizeAppendParam(p: string, q: string)
    requires q == [] || q[0] == '/'
    requires p != [] && p[0] == ':' && SegmentLength(p[1..]) > 0
    ensures Tokenize(p + q) == Tokenize(p) + Tokenize(q)
    decreases |p|, 0
  {
    var n := SegmentLength(p[1..]);
    TokenizeParamStep(p, n);
    var head, rest := [Param(p[1..n + 1])], p[n + 1..];
    TokenizeParamAppendStep(p, q, n);
    TokenizeAppend(rest, q);
    Reassociate(Tokenize(p + q), Tokenize(p), head, Tokenize(rest), Tokenize(rest + q), Tokenize(q));
  }

  /** The parameter at the head of `p` is also the parameter at the head of `p + q`. */
  lemma TokenizeParamAppendStep(p: string, q: string, n: nat)
    requires q == [] || q[0] == '/'
    requires p != [] && p[0] == ':' && n == SegmentLength(p[1..]) > 0
    ensures n + 1 <= |p|
    ensures Tokenize(p + q) == [Param(p[1..n + 1])] + Tokenize(p[n + 1..] + q)
  {
    var pq := p + q;
    assert pq[0] == ':' && pq[1..] == p[1..] + q;
    SegmentLengthAppend(p[1..], q);
    TokenizeParamStep(pq, n);
    assert pq[1..n + 1] == p[1..n + 1];
    SliceOfAppend(p, q, n + 1);
  }

  lemma Reassociate<T>(xy: seq<T>, x: seq<T>, h: seq<T>, r: seq<T>, ry: seq<T>, y: seq<T>)
    requires xy == h + ry && x == h + r && ry == r + y
    ensures xy == x + y
  {
  }

  lemma SliceOfAppend(p: string, q: string, k: nat)
    requires k <= |p|
    ensures (p + q)[k..] == p[k..] + q
  {
  }

  lemma {:induction false} TokenizeAppendChar(p: string, q: string)
    requires q == [] || q[0] == '/'
    requires p != [] && !(p[0] == ':' && SegmentLength(p[1..]) > 0)
    ensures Tokenize(p + q) == Tokenize(p) + Tokenize(q)
    decreases |p|, 0
  {
    var pq := p + q;
    var head := [if p[0] == '*' then Star else if p[0] == '.' then AnyChar else Lit(p[0])];
    assert Tokenize(pq) == head + Tokenize(p[1..] + q) by {
      assert pq[0] == p[0];
      SliceOfAppend(p, q, 1);
      SegmentLengthAppend(p[1..], q);
      TokenizeCharStep(pq);
    }
    assert Tokenize(p) == head + Tokenize(p[1..]) by {
      TokenizeCharStep(p);
    }
    TokenizeAppend(p[1..], q);
    Reassociate(Tokenize(pq), Tokenize(p), head, Tokenize(p[1..]), Tokenize(p[1..] + q), Tokenize(q));
  }

  /** Matching is compositional: matched pieces concatenate. */
  lemma {:induction false} MatchesAppend(t1: seq<Token>, t2: seq<Token>, s1: string, s2: string)
    requires Matches(t1, s1) && Matches(t2, s2)
    ensures Matches(t1 + t2, s1 + s2)
    decreases |t1|
  {
    if t1 == [] {
      assert t1 + t2 == t2 && s1 + s2 == s2;
    } else {
      var k := FirstTokenLength(t1, s1);
      MatchesAppend(t1[1..], t2, s1[k..], s2);
      MatchesAppendStep(t1, t2, s1, s2, k);
    }
  }

  /** The text `u` is what the single token `t` consumes in a match. */
  predicate TokenMatches(t: Token, u: string) {
    match t
    case Lit(c) => u == [c]
    case AnyChar => |u| == 1 && !IsLineTerminator(u[0])
    case Param(_) => |u| >= 1 && '/' !in u
    case Star => NoLineTerminator(u)
  }

  /** How much of `s` a token sequence's first token takes in some match. */
  ghost function FirstTokenLength(ts: seq<Token>, s: string): (k: nat)
    requires ts != [] && Matches(ts, s)
    ensures k <= |s| && Matches(ts[1..], s[k..]) && TokenMatches(ts[0], s[..k])
  {
    match ts[0]
    case Lit(_) => assert s[..1] == [s[0]]; 1
    case AnyChar => 1
    case Param(_) => var k :| 1 <= k <= |s| && '/' !in s[..k] && Matches(ts[1..], s[k..]); k
    case Star => var k :| 0 <= k <= |s| && NoLineTerminator(s[..k]) && Matches(ts[1..], s[k..]); k
  }

  /** A first token consuming `s[..k]` and the rest matching `s[k..]` make a match of `s`. */
  lemma MatchesFromFirst(ts: seq<Token>, s: string, k: nat)
    requires ts != [] && k <= |s| && TokenMatches(ts[0], s[..k]) && Matches(ts[1..], s[k..])
    ensures Matches(ts, s)
  {
    match ts[0]
    case Lit(c) =>
      assert s[0] == s[..k][0];
    case AnyChar =>
      assert s[0] == s[..k][0];
    case Param(_) =>
    case Star =>
  }

  /** The first token's share of `s1` is also its share of `s1 + s2`. */
  lemma MatchesAppendStep(t1: seq<Token>, t2: seq<Token>, s1: string, s2: string, k: nat)
    requires t1 != [] && k <= |s1| && TokenMatches(t1[0], s1[..k])
    requires Matches(t1[1..] + t2, s1[k..] + s2)
    ensures Matches(t1 + t2, s1 + s2)
  {
    var ts, s := t1 + t2, s1 + s2;
    assert ts[0] == t1[0] && ts[1..] == t1[1..] + t2;
    assert s[..k] == s1[..k] && s[k..] == s1[k..] + s2;
    MatchesFromFirst(ts, s, k);
  }

  /**
   * A purely literal pattern matches exactly the identical path and nothing
   * else: the regular expression is anchored at both ends.
   */
  lemma {:induction false} LiteralPatternMatchesExactly(p: string, s: string)
    requires IsLiteral(p)
    ensures MatchesPattern(s, p) <==> s == p
    decreases |p|
  {
    if p != [] {
      assert IsLiteral(p[1..]) by {
        forall i | 0 <= i < |p[1..]| ensures p[1..][i] != ':' && p[1..][i] != '*' && p[1..][i] != '.' {
          assert p[1..][i] == p[i + 1];
        }
      }
      var ts := Tokenize(p);
      assert p[0] != ':' && p[0] != '*' && p[0] != '.';
      assert ts == [Lit(p[0])] + Tokenize(p[1..]);
      assert ts[1..] == Tokenize(p[1..]);
      if |s| > 0 {
        LiteralPatternMatchesExactly(p[1..], s[1..]);
        assert s == p <==> s[0] == p[0] && s[1..] == p[1..] by {
          if s[0] == p[0] && s[1..] == p[1..] {
            assert s == [s[0]] + s[1..] && p == [p[0]] + p[1..];
          }
        }
      }
    }
  }

  /** A lone parameter token matches exactly the segments. */
  lemma MatchesParamAlone(name: string, s: string)
    ensures Matches([Param(name)], s) <==> IsSegment(s)
  {
    var ts := [Param(name)];
    assert ts[0] == Param(name) && ts[1..] == [];
    if IsSegment(s) {
      assert s[..|s|] == s && s[|s|..] == [];
      assert Matches(ts[1..], s[|s|..]);
    }
    if Matches(ts, s) {
      var k :| 1 <= k <= |s| && '/' !in s[..k] && Matches(ts[1..], s[k..]);
      assert |s[k..]| == 0;
      assert s[..k] == s;
    }
  }

  /** A `:name` pattern matches exactly the non-empty `/`-free paths. */
  lemma ParamPatternMatchesSegment(name: string, s: string)
    requires IsSegment(name)
    ensures Tokenize(":" + name) == [Param(name)]
    ensures MatchesPattern(s, ":" + name) <==> IsSegment(s)
  {
    var p := ":" + name;
    assert p[1..] == name;
    assert SegmentLength(name) == |name|;
    assert p[|name| + 1..] == [];
    assert p[1..|name| + 1] == name;
    TokenizeParamStep(p, SegmentLength(p[1..]));
    MatchesParamAlone(name, s);
  }

  /** `*` matches any text without a line terminator, `/` included. */
  lemma StarPatternMatchesAnyText(s: string)
    ensures Tokenize("*") == [Star]
    ensures MatchesPattern(s, "*") <==> NoLineTerminator(s)
  {
    assert "*"[1..] == [];
    TokenizeCharStep("*");
    var ts := [Star];
    assert ts[0] == Star && ts[1..] == [];
    if NoLineTerminator(s) {
      assert s[..|s|] == s && s[|s|..] == [];
      assert Matches(ts[1..], s[|s|..]);
    }
    if Matches(ts, s) {
      var k :| 0 <= k <= |s| && NoLineTerminator(s[..k]) && Matches(ts[1..], s[k..]);
      assert |s[k..]| == 0;
      assert s[..k] == s;
    }
  }

  /** A literal `.` is not escaped: it matches any one character. */
  lemma DotMatchesAnyCharacter(s: string)
    ensures Tokenize(".") == [AnyChar]
    ensures MatchesPattern(s, ".") <==> |s| == 1 && !IsLineTerminator(s[0])
  {
    assert "."[1..] == [];
    TokenizeCharStep(".");
    var ts := [AnyChar];
    assert ts[0] == AnyChar && ts[1..] == [];
  }

  /** `/:name` compiles to a literal `/` and one parameter. */
  lemma TokenizeSlashParam(name: string)
    requires IsSegment(name)
    ensures Tokenize("/:" + name) == [Lit('/'), Param(name)]
  {
    var p := "/:" + name;
    assert p[0] == '/' && p[1..] == ":" + name;
    TokenizeCharStep(p);
    ParamPatternMatchesSegment(name, name);
  }

  /** A single-segment route `/:name` matches `/` followed by one segment. */
  lemma SlashParamPattern(name: string, s: string)
    requires IsSegment(name)
    ensures MatchesPattern(s, "/:" + name) <==> |s| > 0 && s[0] == '/' && IsSegment(s[1..])
  {
    TokenizeSlashParam(name);
    var ts := [Lit('/'), Param(name)];
    assert ts[0] == Lit('/') && ts[1..] == [Param(name)];
    MatchesParamAlone(name, if |s| > 0 then s[1..] else s);
  }

  /** The literal cases of src/common/matches-pattern.test.ts. */
  lemma LiteralPatternExamples()
    ensures MatchesPattern("/random-endpoint", "/random-endpoint")
    ensures !MatchesPattern("/random-endpoint", "/404")
  {
    LiteralExample("/random-endpoint", "/random-endpoint");
    LiteralExample("/404", "/random-endpoint");
  }

  lemma LiteralExample(p: string, s: string)
    requires p == "/random-endpoint" || p == "/404"
    ensures MatchesPattern(s, p) <==> s == p
  {
    assert IsLiteral(p);
    LiteralPatternMatchesExactly(p, s);
  }

  /** A literal prefix followed by `/:name` matches that prefix, `/` and a segment. */
  lemma LiteralThenParam(lit: string, name: string, seg: string)
    requires IsLiteral(lit) && IsSegment(name) && IsSegment(seg)
    ensures MatchesPattern(lit + "/" + seg, lit + "/:" + name)
  {
    var q := "/:" + name;
    LiteralPatternMatchesExactly(lit, lit);
    TokenizeAppend(lit, q);
    SlashParamPattern(name, "/" + seg);
    assert ("/" + seg)[1..] == seg;
    MatchesAppend(Tokenize(lit), Tokenize(q), lit, "/" + seg);
    assert lit + "/" + seg == lit + ("/" + seg);
    assert lit + "/:" + name == lit + q;
  }

  /** The parameter case of src/common/matches-pattern.test.ts. */
  lemma ParamPatternExample()
    ensures MatchesPattern("/random-endpoint/abc123", "/random-endpoint/:with-param")
  {
    var lit := "/random-endpoint";
    assert lit + "/" + "abc123" == "/random-endpoint/abc123";
    assert lit + "/:" + "with-param" == "/random-endpoint/:with-param";
    assert IsLiteral(lit) && IsSegment("with-param") && IsSegment("abc123");
    LiteralThenParam(lit, "with-param", "abc123");
  }

  /** A parameter cannot span a `/` (src/common/get-handler-for-url.test.ts:26). */
  lemma ParamCannotSpanSlash()
    ensures !MatchesPattern("/this/will/not/match", "/:x")
  {
    var s := "/this/will/not/match";
    assert s[1..][4] == '/';
    assert !IsSegment(s[1..]);
    assert IsSegment("x");
    SlashParamPattern("x", s);
  }
}

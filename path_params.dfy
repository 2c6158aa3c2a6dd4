/**
 * `extractPathParams` from src/common/extract-params.ts (the runtime
 * function, lines 5-23).
 *
 * The source compiles the pattern as `matchesPattern` does, except that `*`
 * becomes the capturing group `(.*)`, runs the regular expression on the
 * path and binds the i-th parameter name to the i-th capture group.
 */
module PathParams {
  import opened Wrappers
  import opened Pattern

  /** The tokens that open a capture group, in order: `([^/]+)` and `(.*)`. */
  function Groups(ts: seq<Token>): (gs: seq<Token>)
    ensures |gs| <= |ts|
    ensures forall i :: 0 <= i < |gs| ==> gs[i].Param? || gs[i].Star?
  {
    if ts == [] then []
    else (if ts[0].Param? || ts[0].Star? then [ts[0]] else []) + Groups(ts[1..])
  }

  /** The names of the parameter tokens, in order. */
  function Names(ts: seq<Token>): (ns: seq<string>)
    ensures |ns| <= |Groups(ts)|
  {
    if ts == [] then []
    else (if ts[0].Param? then [ts[0].name] else []) + Names(ts[1..])
  }

  lemma {:induction false} NamesAppend(a: seq<Token>, b: seq<Token>)
    ensures Names(a + b) == Names(a) + Names(b)
  {
    if a != [] {
      assert (a + b)[0] == a[0] && (a + b)[1..] == a[1..] + b;
      NamesAppend(a[1..], b);
      var h := if a[0].Param? then [a[0].name] else [];
      assert Names(a) == h + Names(a[1..]);
      assert Names(a + b) == h + Names(a[1..] + b);
      Reassociate(Names(a + b), Names(a), h, Names(a[1..]), Names(a[1..] + b), Names(b));
    } else {
      assert a + b == b;
    }
  }

  /** Line 6: every `:name` of the pattern, in order, without its `:`. */
  function ParamNames(pattern: string): seq<string> {
    Names(Tokenize(pattern))
  }

  /**
   * One capture per group; a parameter captures a segment and a wildcard
   * text without line terminators.
   */
  predicate Fits(gs: seq<Token>, caps: seq<string>) {
    |caps| == |gs| &&
    forall i :: 0 <= i < |caps| ==>
      (gs[i].Param? ==> IsSegment(caps[i])) && (gs[i].Star? ==> NoLineTerminator(caps[i]))
  }

  lemma FitsCons(g: Token, cap: string, gs: seq<Token>, caps: seq<string>)
    requires Fits(gs, caps)
    requires g.Param? ==> IsSegment(cap)
    requires g.Star? ==> NoLineTerminator(cap)
    ensures Fits([g] + gs, [cap] + caps)
  {
    var gs', caps' := [g] + gs, [cap] + caps;
    forall i | 0 <= i < |caps'|
      ensures (gs'[i].Param? ==> IsSegment(caps'[i])) && (gs'[i].Star? ==> NoLineTerminator(caps'[i]))
    {
      if i > 0 {
        assert gs'[i] == gs[i - 1] && caps'[i] == caps[i - 1];
      }
    }
  }

  /**
   * What the regular expression's backtracking search captures: `Some` of
   * the capture groups' texts (the match array without its whole-match
   * entry), or `None` when the path does not match. Both `([^/]+)` and
   * `(.*)` are greedy, so each group first takes as much as its class
   * allows and gives characters back one at a time.
   */
  function Captures(ts: seq<Token>, s: string): (r: Option<seq<string>>)
    ensures r.Some? ==> Fits(Groups(ts), r.value)
    decreases |ts|, 1, 0
  {
    if ts == [] then (if s == [] then Some([]) else None)
    else match ts[0]
      case Lit(c) => if |s| > 0 && s[0] == c then Captures(ts[1..], s[1..]) else None
      case AnyChar => if |s| > 0 && !IsLineTerminator(s[0]) then Captures(ts[1..], s[1..]) else None
      case Param(_) => var n := SegmentLength(s); if n == 0 then None else Backtrack(ts, s, n, 1)
      case Star => Backtrack(ts, s, LineLength(s), 0)
  }

  /**
   * The group opened by `ts[0]` takes `s[..k]`; if the rest cannot match,
   * it gives back one character and tries again, down to `s[..lo]`.
   */
  function Backtrack(ts: seq<Token>, s: string, k: nat, lo: nat): (r: Option<seq<string>>)
    requires ts != [] && (ts[0].Param? || ts[0].Star?)
    requires lo <= k <= |s|
    requires ts[0].Param? ==> 1 <= lo && k <= SegmentLength(s)
    requires ts[0].Star? ==> k <= LineLength(s)
    ensures r.Some? ==> Fits(Groups(ts), r.value)
    decreases |ts|, 0, k
  {
    match Captures(ts[1..], s[k..])
    case Some(caps) =>
      assert ts[0].Param? ==> IsSegment(s[..k]) by {
        if ts[0].Param? {
          assert s[..k] == s[..SegmentLength(s)][..k];
        }
      }
      assert ts[0].Star? ==> NoLineTerminator(s[..k]) by {
        if ts[0].Star? {
          assert s[..k] == s[..LineLength(s)][..k];
        }
      }
      assert Groups(ts) == [ts[0]] + Groups(ts[1..]);
      FitsCons(ts[0], s[..k], Groups(ts[1..]), caps);
      Some([s[..k]] + caps)
    case None => if k == lo then None else Backtrack(ts, s, k - 1, lo)
  }

  lemma SegmentPrefix(s: string, k: nat)
    requires k <= |s|
    ensures '/' !in s[..k] <==> k <= SegmentLength(s)
  {
    var n := SegmentLength(s);
    if k <= n {
      assert s[..k] == s[..n][..k];
    } else {
      assert s[..k][n] == '/';
    }
  }

  lemma LinePrefix(s: string, k: nat)
    requires k <= |s|
    ensures NoLineTerminator(s[..k]) <==> k <= LineLength(s)
  {
    var n := LineLength(s);
    if k <= n {
      assert s[..k] == s[..n][..k];
    } else {
      assert s[..k][n] == s[n];
    }
  }

  /**
   * The capturing search succeeds on exactly the paths the pattern's
   * language contains: adding capture groups does not change what matches.
   */
  lemma {:induction false} CapturesIffMatches(ts: seq<Token>, s: string)
    ensures Captures(ts, s).Some? <==> Matches(ts, s)
    decreases |ts|, 1, 0
  {
    if ts != [] {
      match ts[0]
      case Lit(c) =>
        if |s| > 0 { CapturesIffMatches(ts[1..], s[1..]); }
      case AnyChar =>
        if |s| > 0 { CapturesIffMatches(ts[1..], s[1..]); }
      case Param(_) =>
        var n := SegmentLength(s);
        forall k | 1 <= k <= |s| ensures '/' !in s[..k] <==> k <= n {
          SegmentPrefix(s, k);
        }
        if n > 0 {
          BacktrackIffMatches(ts, s, n, 1);
        }
      case Star =>
        var n := LineLength(s);
        forall k | 0 <= k <= |s| ensures NoLineTerminator(s[..k]) <==> k <= n {
          LinePrefix(s, k);
        }
        BacktrackIffMatches(ts, s, n, 0);
    }
  }

  /** Backtracking from `k` down to `lo` tries every split in that range. */
  lemma {:induction false} BacktrackIffMatches(ts: seq<Token>, s: string, k: nat, lo: nat)
    requires ts != [] && (ts[0].Param? || ts[0].Star?)
    requires lo <= k <= |s|
    requires ts[0].Param? ==> 1 <= lo && k <= SegmentLength(s)
    requires ts[0].Star? ==> k <= LineLength(s)
    ensures Backtrack(ts, s, k, lo).Some? <==> exists j :: lo <= j <= k && Matches(ts[1..], s[j..])
    decreases |ts|, 0, k
  {
    CapturesIffMatches(ts[1..], s[k..]);
    if k > lo {
      BacktrackIffMatches(ts, s, k - 1, lo);
    }
  }

  /**
   * Lines 17-20: the names are assigned in order, so when a name occurs
   * twice the later capture overwrites the earlier one. The keys are
   * exactly the names, and a name is bound to the capture at the index of
   * its last occurrence.
   */
  function Bind(names: seq<string>, caps: seq<string>): (m: map<string, string>)
    requires |names| <= |caps|
    ensures forall k :: k in m <==> k in names
    ensures forall i :: 0 <= i < |names| && names[i] !in names[i + 1..] ==> m[names[i]] == caps[i]
    ensures forall k :: k in m ==> exists i :: 0 <= i < |names| && names[i] == k && m[k] == caps[i]
    decreases |names|
  {
    if names == [] then map[]
    else
      var last := |names| - 1;
      var prev := Bind(names[..last], caps);
      BindExtend(names, caps, prev);
      prev[names[last] := caps[last]]
  }

  /** The last assignment of `Bind` keeps every earlier last-occurrence binding. */
  lemma BindExtend(names: seq<string>, caps: seq<string>, prev: map<string, string>)
    requires 0 < |names| <= |caps|
    requires forall k :: k in prev <==> k in names[..|names| - 1]
    requires forall i :: 0 <= i < |names| - 1 && names[i] !in names[..|names| - 1][i + 1..] ==> prev[names[i]] == caps[i]
    requires forall k :: k in prev ==> exists i :: 0 <= i < |names| - 1 && names[i] == k && prev[k] == caps[i]
    ensures var m := prev[names[|names| - 1] := caps[|names| - 1]];
      (forall k :: k in m <==> k in names) &&
      (forall i :: 0 <= i < |names| && names[i] !in names[i + 1..] ==> m[names[i]] == caps[i]) &&
      (forall k :: k in m ==> exists i :: 0 <= i < |names| && names[i] == k && m[k] == caps[i])
  {
    var last := |names| - 1;
    assert names == names[..last] + [names[last]];
    var m := prev[names[last] := caps[last]];
    forall i | 0 <= i < |names| && names[i] !in names[i + 1..]
      ensures m[names[i]] == caps[i]
    {
      if i < last {
        assert names[last] in names[i + 1..];
        assert names[..last][i + 1..] == names[i + 1..last];
        assert names[i] !in names[..last][i + 1..];
      }
    }
  }

  /** One more name bound: the assignment of `Bind` for the name at `i`. */
  lemma BindPrefixStep(names: seq<string>, caps: seq<string>, i: nat)
    requires i < |names| <= |caps|
    ensures Bind(names[..i + 1], caps) == Bind(names[..i], caps)[names[i] := caps[i]]
  {
    assert names[..i + 1][..i] == names[..i];
  }

  /**
   * What `extractPathParams(path, pattern)` returns: `None` (`undefined`)
   * when the path does not match or the pattern has no parameter, and
   * otherwise the names bound to the capture groups by index.
   */
  function PathParams(path: string, pattern: string): Option<map<string, string>> {
    var ts := Tokenize(pattern);
    var names := Names(ts);
    match Captures(ts, path)
    case None => None
    case Some(caps) => if |names| == 0 then None else Some(Bind(names, caps))
  }

  /** `extractPathParams`, with the `forEach` loop of lines 17-20. */
  method ExtractPathParams(path: string, pattern: string) returns (params: Option<map<string, string>>)
    ensures params == PathParams(path, pattern)
  {
    var paramNames := ParamNames(pattern);
    var found := Captures(Tokenize(pattern), path);
    if found.None? {
      return None;
    }
    if |paramNames| == 0 {
      return None;
    }
    // `match[index + 1]`: entry 0 of the match array is the whole match.
    var groups := found.value;
    var acc: map<string, string> := map[];
    for index := 0 to |paramNames|
      invariant acc == Bind(paramNames[..index], groups)
    {
      BindPrefixStep(paramNames, groups, index);
      acc := acc[paramNames[index] := groups[index]];
    }
    assert paramNames[..|paramNames|] == paramNames;
    return Some(acc);
  }

  /**
   * A result is returned exactly when the path matches the pattern (as
   * `matchesPattern` decides it) and the pattern has a parameter.
   */
  lemma PathParamsDefinedIff(path: string, pattern: string)
    ensures PathParams(path, pattern).Some? <==> MatchesPattern(path, pattern) && |ParamNames(pattern)| > 0
  {
    CapturesIffMatches(Tokenize(pattern), path);
  }

  /** The keys of a result are exactly the pattern's parameter names. */
  lemma PathParamsKeys(path: string, pattern: string)
    ensures PathParams(path, pattern).Some? ==>
      forall k :: k in PathParams(path, pattern).value <==> k in ParamNames(pattern)
  {
  }

  /** With no `*`, a pattern's capture groups are exactly its parameters. */
  lemma {:induction false} GroupsWithoutStar(ts: seq<Token>)
    requires forall i :: 0 <= i < |ts| ==> !ts[i].Star?
    ensures |Groups(ts)| == |Names(ts)|
    ensures forall i :: 0 <= i < |Groups(ts)| ==> Groups(ts)[i] == Param(Names(ts)[i])
  {
    if ts != [] {
      GroupsWithoutStar(ts[1..]);
    }
  }

  lemma {:induction false} TokenizeWithoutStar(p: string)
    requires '*' !in p
    ensures forall i :: 0 <= i < |Tokenize(p)| ==> !Tokenize(p)[i].Star?
    decreases |p|
  {
    if p != [] {
      if p[0] == ':' && SegmentLength(p[1..]) > 0 {
        var n := SegmentLength(p[1..]);
        assert p[n + 1..] <= p[n + 1..];
        assert forall c :: c in p[n + 1..] ==> c in p;
        TokenizeWithoutStar(p[n + 1..]);
        TokenizeParamStep(p, n);
      } else {
        assert forall c :: c in p[1..] ==> c in p;
        TokenizeWithoutStar(p[1..]);
        TokenizeCharStep(p);
      }
    }
  }

  /**
   * Without a `*` in the pattern, the i-th capture belongs to the i-th
   * parameter: every capture, and so every bound value, is a non-empty
   * `/`-free segment, and each name is bound to the capture of its last
   * occurrence.
   */
  lemma PathParamsWithoutStar(path: string, pattern: string)
    requires '*' !in pattern
    ensures Captures(Tokenize(pattern), path).Some? ==>
      var caps := Captures(Tokenize(pattern), path).value;
      |caps| == |ParamNames(pattern)| && forall i :: 0 <= i < |caps| ==> IsSegment(caps[i])
    ensures PathParams(path, pattern).Some? ==>
      var m := PathParams(path, pattern).value;
      var names := ParamNames(pattern);
      (forall k :: k in m ==> IsSegment(m[k])) &&
      (forall i :: 0 <= i < |names| && names[i] !in names[i + 1..] ==>
        m[names[i]] == Captures(Tokenize(pattern), path).value[i])
  {
    var ts := Tokenize(pattern);
    TokenizeWithoutStar(pattern);
    GroupsWithoutStar(ts);
    if Captures(ts, path).Some? {
      var caps := Captures(ts, path).value;
      assert forall i :: 0 <= i < |caps| ==> Groups(ts)[i].Param?;
    }
  }

  /** No `*` comes before a parameter: every wildcard group follows the last parameter. */
  predicate NoStarBeforeParam(ts: seq<Token>) {
    forall i, j :: 0 <= i < j < |ts| && ts[i].Star? ==> !ts[j].Param?
  }

  lemma {:induction false} NamesWithoutParam(ts: seq<Token>)
    requires forall i :: 0 <= i < |ts| ==> !ts[i].Param?
    ensures Names(ts) == []
  {
    if ts != [] {
      NamesWithoutParam(ts[1..]);
    }
  }

  /** When no `*` precedes a parameter, the first groups are the parameters, in order. */
  lemma {:induction false} GroupsParamsFirst(ts: seq<Token>)
    requires NoStarBeforeParam(ts)
    ensures forall i :: 0 <= i < |Names(ts)| ==> Groups(ts)[i] == Param(Names(ts)[i])
  {
    if ts != [] {
      var rest := ts[1..];
      assert NoStarBeforeParam(rest) by {
        forall i, j | 0 <= i < j < |rest| && rest[i].Star? ensures !rest[j].Param? {
          assert rest[i] == ts[i + 1] && rest[j] == ts[j + 1];
        }
      }
      GroupsParamsFirst(rest);
      if ts[0].Star? {
        assert Names(rest) == [] by {
          forall j | 0 <= j < |rest| ensures !rest[j].Param? {
            assert rest[j] == ts[j + 1];
          }
          NamesWithoutParam(rest);
        }
        assert Names(ts) == [] + Names(rest);
      } else if ts[0].Param? {
        assert Groups(ts) == [ts[0]] + Groups(rest);
        assert Names(ts) == [ts[0].name] + Names(rest);
      } else {
        assert Groups(ts) == [] + Groups(rest);
        assert Names(ts) == [] + Names(rest);
      }
    }
  }

  /**
   * When no `*` comes before a parameter (a `*` after the last one shifts
   * nothing), the i-th capture belongs to the i-th
   * parameter: the captures of the parameters are segments, every bound
   * value is a segment, and each name is bound to the capture of its last
   * occurrence.
   */
  lemma PathParamsNoStarBeforeParam(path: string, pattern: string)
    requires NoStarBeforeParam(Tokenize(pattern))
    ensures Captures(Tokenize(pattern), path).Some? ==>
      var caps := Captures(Tokenize(pattern), path).value;
      |ParamNames(pattern)| <= |caps| && forall i :: 0 <= i < |ParamNames(pattern)| ==> IsSegment(caps[i])
    ensures PathParams(path, pattern).Some? ==>
      var m := PathParams(path, pattern).value;
      var names := ParamNames(pattern);
      (forall k :: k in m ==> IsSegment(m[k])) &&
      (forall i :: 0 <= i < |names| && names[i] !in names[i + 1..] ==>
        m[names[i]] == Captures(Tokenize(pattern), path).value[i])
  {
    var ts := Tokenize(pattern);
    GroupsParamsFirst(ts);
    if Captures(ts, path).Some? {
      var caps := Captures(ts, path).value;
      assert forall i :: 0 <= i < |Names(ts)| ==> Groups(ts)[i].Param?;
    }
  }

  /**
   * `/` followed by a parameter consumes `/` and the whole next segment,
   * then leaves the rest of the path to the rest of the pattern.
   */
  lemma CapturesSlashParam(name: string, rest: seq<Token>, seg: string, tail: string, caps: seq<string>)
    requires IsSegment(seg)
    requires tail == [] || tail[0] == '/'
    requires Captures(rest, tail) == Some(caps)
    ensures Captures([Lit('/'), Param(name)] + rest, "/" + seg + tail) == Some([seg] + caps)
  {
    assert [Lit('/'), Param(name)] + rest == [Lit('/')] + ([Param(name)] + rest);
    assert "/" + seg + tail == "/" + (seg + tail);
    CapturesWholeSegment(name, rest, seg, tail, caps);
    CapturesLiteral('/', [Param(name)] + rest, seg + tail);
  }

  /** A literal token consumes the same character and nothing else. */
  lemma CapturesLiteral(c: char, ts: seq<Token>, s: string)
    ensures Captures([Lit(c)] + ts, [c] + s) == Captures(ts, s)
  {
    assert ([Lit(c)] + ts)[1..] == ts && ([c] + s)[1..] == s;
  }

  /** A parameter first takes the whole segment; when the rest then matches, that is its capture. */
  lemma CapturesWholeSegment(name: string, rest: seq<Token>, seg: string, tail: string, caps: seq<string>)
    requires IsSegment(seg)
    requires tail == [] || tail[0] == '/'
    requires Captures(rest, tail) == Some(caps)
    ensures Captures([Param(name)] + rest, seg + tail) == Some([seg] + caps)
  {
    var ts := [Param(name)] + rest;
    var s := seg + tail;
    var n := |seg|;
    assert SegmentLength(s) == n by {
      SegmentLengthAppend(seg, tail);
      assert SegmentLength(seg) == n;
    }
    assert ts[1..] == rest && s[n..] == tail && s[..n] == seg;
  }

  /** The case of src/common/extract-params.test.ts. */
  lemma ExtractParamsExample()
    ensures PathParams("/123/456/789", "/:a/:b/:c") == Some(map["a" := "123", "b" := "456", "c" := "789"])
  {
    assert "/:a/:b/:c" == "/:" + "a" + ("/:" + "b" + ("/:" + "c"));
    assert "/123/456/789" == "/" + "123" + ("/" + "456" + ("/" + "789" + ""));
    ThreeParams("a", "b", "c", "123", "456", "789");
  }

  /** Three `/:name` routes in a row bind three segments, one each. */
  lemma ThreeParams(a: string, b: string, c: string, x: string, y: string, z: string)
    requires IsSegment(a) && IsSegment(b) && IsSegment(c)
    requires IsSegment(x) && IsSegment(y) && IsSegment(z)
    ensures PathParams("/" + x + ("/" + y + ("/" + z + "")), "/:" + a + ("/:" + b + ("/:" + c)))
      == Some(map[a := x, b := y, c := z])
  {
    BindThree(a, b, c, x, y, z);
    assert PathParams("/" + x + ("/" + y + ("/" + z + "")), "/:" + a + ("/:" + b + ("/:" + c)))
      == Some(Bind([a, b, c], [x, y, z])) by {
      CapturesThree(a, b, c, x, y, z);
      NamesThree(a, b, c);
    }
  }

  /** Three names are bound one capture each, in order. */
  lemma BindThree(a: string, b: string, c: string, x: string, y: string, z: string)
    ensures Bind([a, b, c], [x, y, z]) == map[a := x, b := y, c := z]
  {
    var caps := [x, y, z];
    assert [a, b, c][..2] == [a, b] && [a, b][..1] == [a] && [a][..0] == [];
    assert Bind([a], caps) == map[a := x];
    assert Bind([a, b], caps) == map[a := x, b := y];
  }

  function ThreeParamTokens(a: string, b: string, c: string): seq<Token> {
    [Lit('/'), Param(a)] + ([Lit('/'), Param(b)] + ([Lit('/'), Param(c)] + []))
  }

  lemma TokenizeThree(a: string, b: string, c: string)
    requires IsSegment(a) && IsSegment(b) && IsSegment(c)
    ensures Tokenize("/:" + a + ("/:" + b + ("/:" + c))) == ThreeParamTokens(a, b, c)
  {
    TokenizeSlashParam(a);
    TokenizeSlashParam(b);
    TokenizeSlashParam(c);
    TokenizeAppend("/:" + b, "/:" + c);
    TokenizeAppend("/:" + a, "/:" + b + ("/:" + c));
    assert [Lit('/'), Param(c)] + [] == [Lit('/'), Param(c)];
  }

  lemma CapturesThree(a: string, b: string, c: string, x: string, y: string, z: string)
    requires IsSegment(a) && IsSegment(b) && IsSegment(c)
    requires IsSegment(x) && IsSegment(y) && IsSegment(z)
    ensures Captures(Tokenize("/:" + a + ("/:" + b + ("/:" + c))), "/" + x + ("/" + y + ("/" + z + ""))) == Some([x, y, z])
  {
    CapturesOfThreeParamTokens(a, b, c, x, y, z);
    TokenizeThree(a, b, c);
  }

  lemma CapturesOfThreeParamTokens(a: string, b: string, c: string, x: string, y: string, z: string)
    requires IsSegment(x) && IsSegment(y) && IsSegment(z)
    ensures Captures(ThreeParamTokens(a, b, c), "/" + x + ("/" + y + ("/" + z + ""))) == Some([x, y, z])
  {
    assert [z] + [] == [z] && [y] + [z] == [y, z] && [x] + [y, z] == [x, y, z];
    assert Captures([], "") == Some([]);
    CapturesSlashParam(c, [], z, "", []);
    CapturesSlashParam(b, [Lit('/'), Param(c)] + [], y, "/" + z + "", [z]);
    CapturesSlashParam(a, [Lit('/'), Param(b)] + ([Lit('/'), Param(c)] + []), x, "/" + y + ("/" + z + ""), [y, z]);
  }

  lemma NamesThree(a: string, b: string, c: string)
    requires IsSegment(a) && IsSegment(b) && IsSegment(c)
    ensures ParamNames("/:" + a + ("/:" + b + ("/:" + c))) == [a, b, c]
  {
    NamesOfThreeParamTokens(a, b, c);
    TokenizeThree(a, b, c);
  }

  lemma NamesOfThreeParamTokens(a: string, b: string, c: string)
    ensures Names(ThreeParamTokens(a, b, c)) == [a, b, c]
  {
    var tb := [Lit('/'), Param(b)];
    var tc := [Lit('/'), Param(c)];
    assert ThreeParamTokens(a, b, c) == [Lit('/'), Param(a)] + (tb + tc);
    NamesSlashParam(a);
    NamesSlashParam(b);
    NamesSlashParam(c);
    NamesAppend(tb, tc);
    NamesAppend([Lit('/'), Param(a)], tb + tc);
  }

  lemma NamesSlashParam(n: string)
    ensures Names([Lit('/'), Param(n)]) == [n]
  {
    assert [Lit('/'), Param(n)][1..] == [Param(n)];
    assert [Param(n)][1..] == [];
  }

  /** Two `/:name` routes in a row bind the two segments by position. */
  lemma TwoParams(a: string, b: string, x: string, y: string)
    requires IsSegment(a) && IsSegment(b) && IsSegment(x) && IsSegment(y)
    ensures PathParams("/" + x + ("/" + y + ""), "/:" + a + "/:" + b) == Some(Bind([a, b], [x, y]))
  {
    TwoParamNames(a, b);
    TwoParamCaptures(a, b, x, y);
    TokenizeTwo(a, b);
  }

  lemma TokenizeTwo(a: string, b: string)
    requires IsSegment(a) && IsSegment(b)
    ensures Tokenize("/:" + a + "/:" + b) == [Lit('/'), Param(a)] + ([Lit('/'), Param(b)] + [])
  {
    assert "/:" + a + "/:" + b == ("/:" + a) + ("/:" + b);
    assert [Lit('/'), Param(b)] + [] == [Lit('/'), Param(b)];
    TokenizeSlashParam(a);
    TokenizeSlashParam(b);
    TokenizeAppend("/:" + a, "/:" + b);
  }

  lemma TwoParamCaptures(a: string, b: string, x: string, y: string)
    requires IsSegment(x) && IsSegment(y)
    ensures Captures([Lit('/'), Param(a)] + ([Lit('/'), Param(b)] + []), "/" + x + ("/" + y + "")) == Some([x, y])
  {
    assert [y] + [] == [y];
    assert [x] + [y] == [x, y];
    assert Captures([], "") == Some([]);
    CapturesSlashParam(b, [], y, "", []);
    CapturesSlashParam(a, [Lit('/'), Param(b)] + [], x, "/" + y + "", [y]);
  }

  lemma TwoParamNames(a: string, b: string)
    ensures Names([Lit('/'), Param(a)] + ([Lit('/'), Param(b)] + [])) == [a, b]
  {
    NamesSlashParam(a);
    NamesSlashParam(b);
    assert [Lit('/'), Param(b)] + [] == [Lit('/'), Param(b)];
    NamesAppend([Lit('/'), Param(a)], [Lit('/'), Param(b)]);
  }

  /** A name used twice keeps the later capture: `/:a/:a` on `/1/2` gives `a = "2"`. */
  lemma DuplicateNameExample()
    ensures PathParams("/1/2", "/:a/:a") == Some(map["a" := "2"])
  {
    assert "/:a/:a" == "/:" + "a" + "/:" + "a";
    assert "/1/2" == "/" + "1" + ("/" + "2" + "");
    DuplicateName("a", "1", "2");
  }

  lemma DuplicateName(a: string, x: string, y: string)
    requires IsSegment(a) && IsSegment(x) && IsSegment(y)
    ensures PathParams("/" + x + ("/" + y + ""), "/:" + a + "/:" + a) == Some(map[a := y])
  {
    TwoParams(a, a, x, y);
    BindRepeated(a, x, y);
  }

  lemma BindRepeated(a: string, x: string, y: string)
    ensures Bind([a, a], [x, y]) == map[a := y]
  {
    assert [a, a][..1] == [a] && [a][..0] == [];
    assert Bind([a], [x, y]) == map[a := x];
  }

  // A `*` before a parameter opens a capture group of its own, so it shifts
  // the bindings: on `/x/y`, the route `/*/:id` binds `id` to the text the
  // `*` took.
  lemma StarShiftExample()
    ensures PathParams("/x/y", "/*/:id") == Some(map["id" := "x"])
  {
    assert "/*/:id" == "/*" + ("/:" + "id");
    assert "/x/y" == ['/', 'x', '/', 'y'];
    StarShift("id", 'x', 'y');
  }

  lemma StarShift(name: string, x: char, y: char)
    requires IsSegment(name)
    requires x != '/' && y != '/' && !IsLineTerminator(x) && !IsLineTerminator(y)
    ensures PathParams(['/', x, '/', y], "/*" + ("/:" + name)) == Some(map[name := [x]])
  {
    var ts := [Lit('/'), Star, Lit('/'), Param(name)];
    assert Bind([name], [[x], [y]]) == map[name := [x]];
    StarShiftNames(name);
    StarShiftCaptures(name, x, y);
    StarShiftTokens(name);
  }

  lemma StarShiftTokens(name: string)
    requires IsSegment(name)
    ensures Tokenize("/*" + ("/:" + name)) == [Lit('/'), Star, Lit('/'), Param(name)]
  {
    assert "/*"[1..] == "*" && "*"[1..] == "";
    assert [Lit('/'), Star] + [Lit('/'), Param(name)] == [Lit('/'), Star, Lit('/'), Param(name)];
    TokenizeCharStep("*");
    TokenizeCharStep("/*");
    TokenizeSlashParam(name);
    TokenizeAppend("/*", "/:" + name);
  }

  lemma StarShiftNames(name: string)
    ensures Names([Lit('/'), Star, Lit('/'), Param(name)]) == [name]
  {
    var t3 := [Param(name)];
    var t2 := [Lit('/')] + t3;
    var t1 := [Star] + t2;
    assert t3[1..] == [] && Names(t3) == [name];
    assert t2[1..] == t3 && Names(t2) == [name];
    assert t1[1..] == t2 && Names(t1) == [name];
    var ts := [Lit('/')] + t1;
    assert ts[1..] == t1 && Names(ts) == [name];
    assert ts == [Lit('/'), Star, Lit('/'), Param(name)];
  }

  /** The `*` first takes `x/y`, then `x/`, and matches once it has given back all but `x`. */
  lemma StarShiftCaptures(name: string, x: char, y: char)
    requires x != '/' && y != '/' && !IsLineTerminator(x) && !IsLineTerminator(y)
    ensures Captures([Lit('/'), Star, Lit('/'), Param(name)], ['/', x, '/', y]) == Some([[x], [y]])
  {
    var ts := [Lit('/'), Star, Lit('/'), Param(name)];
    var rest := [Lit('/'), Param(name)];
    var ts1 := [Star] + rest;
    var s1 := [x, '/', y];
    assert ts[1..] == ts1 && ts1[1..] == rest;
    assert ['/', x, '/', y][1..] == s1;
    assert LineLength(s1) == 3 by {
      assert s1[1..] == ['/', y] && s1[1..][1..] == [y] && s1[1..][1..][1..] == [];
    }
    assert Captures(rest, s1[1..]) == Some([[y]]) by {
      StarShiftRest(name, y);
      assert s1[1..] == ['/', y];
    }
    assert Backtrack(ts1, s1, 1, 0) == Some([[x], [y]]) by {
      assert s1[..1] == [x] && [[x]] + [[y]] == [[x], [y]];
    }
    assert Captures(rest, s1[2..]) == None by {
      assert s1[2..] == [y] && rest[0] == Lit('/');
    }
    assert Captures(rest, s1[3..]) == None by {
      assert s1[3..] == [];
    }
    assert Backtrack(ts1, s1, 3, 0) == Some([[x], [y]]);
  }

  lemma StarShiftRest(name: string, y: char)
    requires y != '/'
    ensures Captures([Lit('/'), Param(name)], ['/', y]) == Some([[y]])
  {
    assert ['/', y] == "/" + [y] + "";
    assert Captures([], "") == Some([]);
    CapturesSlashParam(name, [], [y], "", []);
    assert [Lit('/'), Param(name)] + [] == [Lit('/'), Param(name)] && [[y]] + [] == [[y]];
  }
}

/**
 * `getHandlerForURL` from src/common/get-handler-for-url.ts: the route
 * table lookup. A route map is a JavaScript `Map` from pattern to handler;
 * its iteration order is insertion order, so it is modelled as the
 * sequence of its entries in that order.
 */
module RouteLookup {
  import opened Wrappers
  import opened TrailingSlash
  import opened Pattern

  /** A pattern with the handler bound to it; also the `{ handler, pattern }` record the lookup returns. */
  datatype Route<H> = Route(pattern: string, handler: H)

  /**
   * Lines 8-15: in strict mode the URL must match as given; otherwise it
   * matches when it does without its trailing slash or with exactly one.
   */
  predicate Accepts(url: string, pattern: string, strict: bool) {
    if strict then MatchesPattern(url, pattern)
    else
      var bare := StripTrailingSlash(url);
      MatchesPattern(bare, pattern) || MatchesPattern(bare + "/", pattern)
  }

  /** Line 31: a pattern counts as parameterised when it contains a `:` anywhere. */
  predicate IsParameterised(pattern: string) {
    ':' in pattern
  }

  /** The routes that accept `url`, in route-map order (the `matches` array of lines 6-21). */
  function Candidates<H>(url: string, routes: seq<Route<H>>, strict: bool): (ms: seq<Route<H>>)
    ensures |ms| <= |routes|
  {
    if routes == [] then []
    else (if Accepts(url, routes[0].pattern, strict) then [routes[0]] else []) + Candidates(url, routes[1..], strict)
  }

  lemma CandidatesStep<H>(url: string, routes: seq<Route<H>>, strict: bool)
    requires routes != []
    ensures Candidates(url, routes, strict) ==
      (if Accepts(url, routes[0].pattern, strict) then [routes[0]] else []) + Candidates(url, routes[1..], strict)
  {
  }

  /** Every collected match accepts the URL in the chosen mode, and comes from the route map. */
  lemma {:induction false} CandidatesAccept<H>(url: string, routes: seq<Route<H>>, strict: bool)
    ensures forall i :: 0 <= i < |Candidates(url, routes, strict)| ==>
      Accepts(url, Candidates(url, routes, strict)[i].pattern, strict) && Candidates(url, routes, strict)[i] in routes
  {
    if routes != [] {
      var ms := Candidates(url, routes, strict);
      var rest := Candidates(url, routes[1..], strict);
      var h: seq<Route<H>> := if Accepts(url, routes[0].pattern, strict) then [routes[0]] else [];
      assert ms == h + rest by {
        CandidatesStep(url, routes, strict);
      }
      forall i | 0 <= i < |ms| ensures Accepts(url, ms[i].pattern, strict) && ms[i] in routes {
        if i < |h| {
          assert ms[i] == routes[0];
        } else {
          assert ms[i] == rest[i - |h|];
          CandidatesAccept(url, routes[1..], strict);
          assert rest[i - |h|] in routes[1..];
        }
      }
    }
  }

  /** The routes whose patterns are (`param`) or are not (`!param`) parameterised, in order. */
  function Keep<H>(ms: seq<Route<H>>, param: bool): (ks: seq<Route<H>>)
    ensures |ks| <= |ms|
    ensures forall i :: 0 <= i < |ks| ==> IsParameterised(ks[i].pattern) == param
  {
    if ms == [] then []
    else (if IsParameterised(ms[0].pattern) == param then [ms[0]] else []) + Keep(ms[1..], param)
  }

  /**
   * Lines 30-40: `Array.prototype.sort` is stable, and the comparator puts
   * every pattern without `:` before every pattern with one and ties the
   * rest, so the sorted array is the non-parameterised matches followed by
   * the parameterised ones, each group in its original order.
   */
  function SortBySpecificity<H>(ms: seq<Route<H>>): seq<Route<H>> {
    Keep(ms, false) + Keep(ms, true)
  }

  /** What `getHandlerForURL` returns: the first sorted match, or `undefined`. */
  function HandlerForURL<H>(url: string, routes: seq<Route<H>>, strict: bool): Option<Route<H>> {
    var sorted := SortBySpecificity(Candidates(url, routes, strict));
    if sorted == [] then None else Some(sorted[0])
  }

  /** `getHandlerForURL`, with the loop over the route map's entries of lines 7-21. */
  method GetHandlerForURL<H>(url: string, routeMap: seq<Route<H>>, strictMatching: bool) returns (r: Option<Route<H>>)
    ensures r == HandlerForURL(url, routeMap, strictMatching)
  {
    var matches: seq<Route<H>> := [];
    for i := 0 to |routeMap|
      invariant matches == Candidates(url, routeMap[..i], strictMatching)
    {
      var entry := routeMap[i];
      CandidatesAppend(url, routeMap[..i], [entry], strictMatching);
      assert routeMap[..i + 1] == routeMap[..i] + [entry];
      assert [entry][1..] == [];
      if Accepts(url, entry.pattern, strictMatching) {
        matches := matches + [entry];
      }
    }
    assert routeMap[..|routeMap|] == routeMap;
    var sortedMatches := SortBySpecificity(matches);
    if sortedMatches == [] {
      r := None;
    } else {
      r := Some(sortedMatches[0]);
    }
  }

  lemma {:induction false} CandidatesAppend<H>(url: string, a: seq<Route<H>>, b: seq<Route<H>>, strict: bool)
    ensures Candidates(url, a + b, strict) == Candidates(url, a, strict) + Candidates(url, b, strict)
  {
    if a == [] {
      assert a + b == b;
    } else {
      var ab := a + b;
      assert ab[0] == a[0] && ab[1..] == a[1..] + b;
      CandidatesAppend(url, a[1..], b, strict);
      var h: seq<Route<H>> := if Accepts(url, a[0].pattern, strict) then [a[0]] else [];
      CandidatesStep(url, a, strict);
      CandidatesStep(url, ab, strict);
      Reassociate(Candidates(url, a + b, strict), Candidates(url, a, strict), h,
        Candidates(url, a[1..], strict), Candidates(url, a[1..] + b, strict), Candidates(url, b, strict));
    }
  }

  lemma {:induction false} KeepAppend<H>(a: seq<Route<H>>, b: seq<Route<H>>, param: bool)
    ensures Keep(a + b, param) == Keep(a, param) + Keep(b, param)
  {
    if a == [] {
      assert a + b == b;
    } else {
      assert (a + b)[0] == a[0] && (a + b)[1..] == a[1..] + b;
      KeepAppend(a[1..], b, param);
      var h: seq<Route<H>> := if IsParameterised(a[0].pattern) == param then [a[0]] else [];
      Reassociate(Keep(a + b, param), Keep(a, param), h, Keep(a[1..], param), Keep(a[1..] + b, param), Keep(b, param));
    }
  }

  lemma {:induction false} KeepAll<H>(ms: seq<Route<H>>, param: bool)
    requires forall i :: 0 <= i < |ms| ==> IsParameterised(ms[i].pattern) == param
    ensures Keep(ms, param) == ms
    ensures Keep(ms, !param) == []
  {
    if ms != [] {
      KeepAll(ms[1..], param);
    }
  }

  lemma {:induction false} KeepSplit<H>(ms: seq<Route<H>>)
    ensures multiset(Keep(ms, false)) + multiset(Keep(ms, true)) == multiset(ms)
  {
    if ms != [] {
      KeepSplit(ms[1..]);
      var h, t := [ms[0]], ms[1..];
      assert multiset(ms) == multiset(h) + multiset(t) by {
        assert ms == h + t;
      }
      if IsParameterised(ms[0].pattern) {
        assert Keep(ms, true) == h + Keep(t, true);
        assert Keep(ms, false) == [] + Keep(t, false);
      } else {
        assert Keep(ms, false) == h + Keep(t, false);
        assert Keep(ms, true) == [] + Keep(t, true);
      }
    }
  }

  /** The sort only reorders: it is a permutation of the matches. */
  lemma SortIsPermutation<H>(ms: seq<Route<H>>)
    ensures multiset(SortBySpecificity(ms)) == multiset(ms)
  {
    KeepSplit(ms);
  }

  /** After the sort, no parameterised pattern comes before a non-parameterised one. */
  lemma SortIsOrdered<H>(ms: seq<Route<H>>)
    ensures var s := SortBySpecificity(ms);
      forall i, j :: 0 <= i < j < |s| ==> !(IsParameterised(s[i].pattern) && !IsParameterised(s[j].pattern))
  {
    var s := SortBySpecificity(ms);
    var k := |Keep(ms, false)|;
    forall i, j | 0 <= i < j < |s|
      ensures !(IsParameterised(s[i].pattern) && !IsParameterised(s[j].pattern))
    {
      if i < k {
        assert s[i] == Keep(ms, false)[i];
      } else {
        assert s[j] == Keep(ms, true)[j - k];
      }
    }
  }

  /** The sort is stable: within each group the matches keep their order. */
  lemma SortIsStable<H>(ms: seq<Route<H>>)
    ensures Keep(SortBySpecificity(ms), false) == Keep(ms, false)
    ensures Keep(SortBySpecificity(ms), true) == Keep(ms, true)
  {
    KeepAppend(Keep(ms, false), Keep(ms, true), false);
    KeepAppend(Keep(ms, false), Keep(ms, true), true);
    KeepAll(Keep(ms, false), false);
    KeepAll(Keep(ms, true), true);
    assert Keep(ms, false) + [] == Keep(ms, false);
    assert [] + Keep(ms, true) == Keep(ms, true);
  }

  /** A route of the given group accepts the URL. */
  predicate AcceptedIn<H>(url: string, r: Route<H>, strict: bool, param: bool) {
    Accepts(url, r.pattern, strict) && IsParameterised(r.pattern) == param
  }

  /** The accepted routes of one group, in route-map order. */
  function Accepted<H>(url: string, routes: seq<Route<H>>, strict: bool, param: bool): seq<Route<H>> {
    Keep(Candidates(url, routes, strict), param)
  }

  lemma AcceptedStep<H>(url: string, routes: seq<Route<H>>, strict: bool, param: bool)
    requires routes != []
    ensures Accepted(url, routes, strict, param) ==
      (if AcceptedIn(url, routes[0], strict, param) then [routes[0]] else []) + Accepted(url, routes[1..], strict, param)
  {
    var h: seq<Route<H>> := if Accepts(url, routes[0].pattern, strict) then [routes[0]] else [];
    CandidatesStep(url, routes, strict);
    KeepAppend(h, Candidates(url, routes[1..], strict), param);
    if h != [] {
      assert h[1..] == [];
    }
  }

  /**
   * The accepted routes of one group are empty exactly when no route of
   * that group accepts the URL; otherwise the first of them is the
   * earliest such route in the route map.
   */
  lemma FirstOfGroup<H>(url: string, routes: seq<Route<H>>, strict: bool, param: bool)
    ensures var ks := Accepted(url, routes, strict, param);
      (ks == [] <==> forall i :: 0 <= i < |routes| ==> !AcceptedIn(url, routes[i], strict, param)) &&
      (ks != [] ==>
        exists i :: 0 <= i < |routes| && routes[i] == ks[0] && AcceptedIn(url, routes[i], strict, param) &&
          (forall j :: 0 <= j < i ==> !AcceptedIn(url, routes[j], strict, param)))
  {
    AcceptedEmptyIff(url, routes, strict, param);
    if Accepted(url, routes, strict, param) != [] {
      var i := FirstAcceptedIndex(url, routes, strict, param);
    }
  }

  lemma {:induction false} AcceptedEmptyIff<H>(url: string, routes: seq<Route<H>>, strict: bool, param: bool)
    ensures Accepted(url, routes, strict, param) == [] <==>
      forall i :: 0 <= i < |routes| ==> !AcceptedIn(url, routes[i], strict, param)
  {
    if routes == [] {
      assert Candidates(url, routes, strict) == [];
    } else {
      var tail := routes[1..];
      AcceptedStep(url, routes, strict, param);
      if AcceptedIn(url, routes[0], strict, param) {
        assert Accepted(url, routes, strict, param)[0] == routes[0];
      } else {
        assert Accepted(url, routes, strict, param) == Accepted(url, tail, strict, param);
        AcceptedEmptyIff(url, tail, strict, param);
        NoneAcceptedCons(url, routes, strict, param);
      }
    }
  }

  /** When the first route is not of the group, no route is exactly when no later route is. */
  lemma NoneAcceptedCons<H>(url: string, routes: seq<Route<H>>, strict: bool, param: bool)
    requires routes != [] && !AcceptedIn(url, routes[0], strict, param)
    ensures (forall i :: 0 <= i < |routes| ==> !AcceptedIn(url, routes[i], strict, param)) <==>
      (forall i :: 0 <= i < |routes[1..]| ==> !AcceptedIn(url, routes[1..][i], strict, param))
  {
    var tail := routes[1..];
    if forall i :: 0 <= i < |tail| ==> !AcceptedIn(url, tail[i], strict, param) {
      forall i | 0 < i < |routes| ensures !AcceptedIn(url, routes[i], strict, param) {
        assert routes[i] == tail[i - 1];
      }
    }
  }

  /** Where the first accepted route of a group sits in the route map: no earlier route of the group accepts the URL. */
  lemma {:induction false} FirstAcceptedIndex<H>(url: string, routes: seq<Route<H>>, strict: bool, param: bool) returns (i: nat)
    requires Accepted(url, routes, strict, param) != []
    ensures i < |routes| && routes[i] == Accepted(url, routes, strict, param)[0]
    ensures AcceptedIn(url, routes[i], strict, param)
    ensures forall j :: 0 <= j < i ==> !AcceptedIn(url, routes[j], strict, param)
  {
    AcceptedStep(url, routes, strict, param);
    if AcceptedIn(url, routes[0], strict, param) {
      i := 0;
      assert Accepted(url, routes, strict, param)[0] == routes[0];
    } else {
      var tail := routes[1..];
      assert Accepted(url, routes, strict, param) == Accepted(url, tail, strict, param);
      var k := FirstAcceptedIndex(url, tail, strict, param);
      FirstAcceptedShift(url, routes, strict, param, k);
      i := k + 1;
    }
  }

  /** An index that is first in the tail is, one place on, first in the whole map when the head is not of the group. */
  lemma FirstAcceptedShift<H>(url: string, routes: seq<Route<H>>, strict: bool, param: bool, k: nat)
    requires routes != [] && !AcceptedIn(url, routes[0], strict, param)
    requires k < |routes[1..]| && AcceptedIn(url, routes[1..][k], strict, param)
    requires forall j :: 0 <= j < k ==> !AcceptedIn(url, routes[1..][j], strict, param)
    ensures k + 1 < |routes| && routes[k + 1] == routes[1..][k] && AcceptedIn(url, routes[k + 1], strict, param)
    ensures forall j :: 0 <= j < k + 1 ==> !AcceptedIn(url, routes[j], strict, param)
  {
    var tail := routes[1..];
    forall j | 0 < j < k + 1 ensures !AcceptedIn(url, routes[j], strict, param) {
      assert routes[j] == tail[j - 1];
    }
  }

  /** A route that is the only one accepting the URL is the one the lookup returns. */
  lemma OnlyAcceptingRouteIsFound<H>(url: string, routes: seq<Route<H>>, strict: bool, i: nat)
    requires i < |routes| && Accepts(url, routes[i].pattern, strict)
    requires forall j :: 0 <= j < |routes| && j != i ==> !Accepts(url, routes[j].pattern, strict)
    ensures HandlerForURL(url, routes, strict) == Some(routes[i])
  {
    HandlerForURLIsBest(url, routes, strict);
    var r := HandlerForURL(url, routes, strict).value;
    var i' :| 0 <= i' < |routes| && routes[i'] == r;
    assert i' == i;
  }

  /**
   * The lookup finds nothing exactly when no route accepts the URL, and
   * otherwise returns the earliest non-parameterised route that accepts it,
   * or, when there is none, the earliest parameterised one.
   */
  lemma HandlerForURLIsBest<H>(url: string, routes: seq<Route<H>>, strict: bool)
    ensures HandlerForURL(url, routes, strict).None? <==>
      forall i :: 0 <= i < |routes| ==> !Accepts(url, routes[i].pattern, strict)
    ensures HandlerForURL(url, routes, strict).Some? ==>
      var r := HandlerForURL(url, routes, strict).value;
      Accepts(url, r.pattern, strict) &&
      exists i :: 0 <= i < |routes| && routes[i] == r &&
        (IsParameterised(r.pattern) ==> forall j :: 0 <= j < |routes| ==> !AcceptedIn(url, routes[j], strict, false)) &&
        forall j :: 0 <= j < i ==> !AcceptedIn(url, routes[j], strict, IsParameterised(r.pattern))
  {
    FirstOfGroup(url, routes, strict, false);
    FirstOfGroup(url, routes, strict, true);
    var ms := Candidates(url, routes, strict);
    if Keep(ms, false) == [] && Keep(ms, true) == [] {
      forall i | 0 <= i < |routes|
        ensures !Accepts(url, routes[i].pattern, strict)
      {
        assert !AcceptedIn(url, routes[i], strict, IsParameterised(routes[i].pattern));
      }
    }
  }

  /** A route without `:` that accepts the URL always beats every parameterised route. */
  lemma SpecificRouteWins<H>(url: string, routes: seq<Route<H>>, strict: bool, i: nat)
    requires i < |routes| && Accepts(url, routes[i].pattern, strict) && !IsParameterised(routes[i].pattern)
    ensures HandlerForURL(url, routes, strict).Some?
    ensures !IsParameterised(HandlerForURL(url, routes, strict).value.pattern)
  {
    HandlerForURLIsBest(url, routes, strict);
    assert AcceptedIn(url, routes[i], strict, false);
  }

  /** Whatever the strict lookup accepts, the lenient one accepts too. */
  lemma StrictAcceptsImpliesLenient(url: string, pattern: string)
    ensures Accepts(url, pattern, true) ==> Accepts(url, pattern, false)
  {
    var bare := StripTrailingSlash(url);
    if bare != url {
      assert bare + "/" == url;
    }
  }

  /** Without strict matching, one trailing slash more or less finds the same route. */
  lemma TrailingSlashIsIgnored<H>(url: string, routes: seq<Route<H>>)
    requires url != "" && !EndsWithSlash(url)
    ensures HandlerForURL(url + "/", routes, false) == HandlerForURL(url, routes, false)
  {
    assert StripTrailingSlash(url + "/") == url by {
      assert (url + "/")[..|url|] == url;
    }
    assert StripTrailingSlash(url) == url;
    assert forall p :: Accepts(url + "/", p, false) == Accepts(url, p, false);
    SameCandidates(url + "/", url, routes, false);
  }

  lemma {:induction false} SameCandidates<H>(u: string, v: string, routes: seq<Route<H>>, strict: bool)
    requires forall p :: Accepts(u, p, strict) == Accepts(v, p, strict)
    ensures Candidates(u, routes, strict) == Candidates(v, routes, strict)
  {
    if routes != [] {
      SameCandidates(u, v, routes[1..], strict);
    }
  }

  /** `s` is `/` followed by exactly one segment. */
  predicate IsOneSegmentPath(s: string) {
    |s| > 0 && s[0] == '/' && IsSegment(s[1..])
  }

  /** A purely literal route accepts exactly its own path, up to a trailing slash when lenient. */
  lemma LiteralRouteAccepts(url: string, p: string, strict: bool)
    requires IsLiteral(p)
    ensures Accepts(url, p, strict) <==>
      if strict then url == p else StripTrailingSlash(url) == p || StripTrailingSlash(url) + "/" == p
  {
    LiteralPatternMatchesExactly(p, url);
    LiteralPatternMatchesExactly(p, StripTrailingSlash(url));
    LiteralPatternMatchesExactly(p, StripTrailingSlash(url) + "/");
  }

  /** A route `/:name` accepts exactly the one-segment paths, up to a trailing slash when lenient. */
  lemma SlashParamRouteAccepts(url: string, name: string, strict: bool)
    requires IsSegment(name)
    ensures Accepts(url, "/:" + name, strict) <==>
      IsOneSegmentPath(if strict then url else StripTrailingSlash(url))
  {
    var bare := StripTrailingSlash(url);
    SlashParamPattern(name, url);
    SlashParamPattern(name, bare);
    SlashParamPattern(name, bare + "/");
    assert !IsOneSegmentPath(bare + "/") by {
      if |bare| > 0 {
        assert (bare + "/")[1..][|bare| - 1] == '/';
      }
    }
  }

  /** The lookup over two routes when exactly one of them accepts the URL. */
  lemma OnlyOneAccepts<H>(url: string, a: Route<H>, b: Route<H>, strict: bool)
    requires Accepts(url, a.pattern, strict) != Accepts(url, b.pattern, strict)
    ensures HandlerForURL(url, [a, b], strict) == Some(if Accepts(url, a.pattern, strict) then a else b)
  {
    assert [a, b][1..] == [b] && [b][1..] == [];
    var w := if Accepts(url, a.pattern, strict) then a else b;
    assert Candidates(url, [a, b], strict) == [w];
    assert [w][1..] == [];
  }

  /** The lookup over two routes when neither accepts the URL. */
  lemma NeitherAccepts<H>(url: string, a: Route<H>, b: Route<H>, strict: bool)
    requires !Accepts(url, a.pattern, strict) && !Accepts(url, b.pattern, strict)
    ensures HandlerForURL(url, [a, b], strict) == None
  {
    assert [a, b][1..] == [b] && [b][1..] == [];
    assert Candidates(url, [b], strict) == [];
    assert Candidates(url, [a, b], strict) == [];
  }

  /** The lookup over two routes when both accept the URL and only the second is parameterised. */
  lemma BothAccept<H>(url: string, a: Route<H>, b: Route<H>, strict: bool)
    requires Accepts(url, a.pattern, strict) && Accepts(url, b.pattern, strict)
    requires !IsParameterised(a.pattern) && IsParameterised(b.pattern)
    ensures HandlerForURL(url, [a, b], strict) == Some(a)
  {
    assert [a, b][1..] == [b] && [b][1..] == [];
    assert Candidates(url, [a, b], strict) == [a, b];
    assert Keep([a, b], false) == [a];
  }

  /**
   * The route map of src/common/get-handler-for-url.test.ts: a literal route
   * registered first, then a route `/:name`. The literal route wins when it
   * accepts the URL; otherwise the parameter route answers the one-segment
   * paths.
   */
  lemma LiteralThenParamLookup<H>(p: string, name: string, url: string, strict: bool, exact: H, param: H)
    requires IsLiteral(p) && IsSegment(name)
    ensures var bare := if strict then url else StripTrailingSlash(url);
      var literalHit := if strict then url == p else bare == p || bare + "/" == p;
      HandlerForURL(url, [Route(p, exact), Route("/:" + name, param)], strict) ==
        if literalHit then Some(Route(p, exact))
        else if IsOneSegmentPath(bare) then Some(Route("/:" + name, param))
        else None
  {
    var a := Route(p, exact);
    var b := Route("/:" + name, param);
    LiteralRouteAccepts(url, p, strict);
    SlashParamRouteAccepts(url, name, strict);
    assert !IsParameterised(p);
    assert ("/:" + name)[1] == ':';
    if Accepts(url, a.pattern, strict) && Accepts(url, b.pattern, strict) {
      BothAccept(url, a, b, strict);
    } else if Accepts(url, a.pattern, strict) || Accepts(url, b.pattern, strict) {
      OnlyOneAccepts(url, a, b, strict);
    } else {
      NeitherAccepts(url, a, b, strict);
    }
  }

  /** The cases of src/common/get-handler-for-url.test.ts with the literal route only. */
  lemma LookupExamplesLiteralOnly<H>(exact: H)
    ensures HandlerForURL<H>("/", [], false) == None
    ensures HandlerForURL("/this-is-an-exact-match", [Route("/this-is-an-exact-match", exact)], false)
      == Some(Route("/this-is-an-exact-match", exact))
    ensures HandlerForURL("/this-will-not-match", [Route("/this-is-an-exact-match", exact)], false) == None
  {
    var p := "/this-is-an-exact-match";
    assert IsLiteral(p);
    SingleLiteralLookup(p, p, exact);
    SingleLiteralLookup(p, "/this-will-not-match", exact);
  }

  lemma SingleLiteralLookup<H>(p: string, url: string, exact: H)
    requires IsLiteral(p)
    requires url == p || url == "/this-will-not-match"
    requires p == "/this-is-an-exact-match"
    ensures HandlerForURL(url, [Route(p, exact)], false) == if url == p then Some(Route(p, exact)) else None
  {
    var r := Route(p, exact);
    assert [r][1..] == [];
    LiteralRouteAccepts(url, p, false);
    assert StripTrailingSlash(url) == url;
    assert url != p ==> |url| + 1 < |p|;
  }

  /** The cases of src/common/get-handler-for-url.test.ts once the parameterised route is added. */
  lemma LookupExamplesWithParam<H>(exact: H, param: H)
    ensures var routes := [Route("/this-is-an-exact-match", exact), Route("/:this-is-a-param-match", param)];
      HandlerForURL("/abc123", routes, false) == Some(routes[1]) &&
      HandlerForURL("/this-will-also-match", routes, false) == Some(routes[1]) &&
      HandlerForURL("/this/will/not/match", routes, false) == None
  {
    var p := "/this-is-an-exact-match";
    var name := "this-is-a-param-match";
    assert "/:" + name == "/:this-is-a-param-match";
    ExampleRouteFacts(p, name);
    ExampleURLFacts();
    ParamRouteAnswers(p, name, "/abc123", false, exact, param);
    ParamRouteAnswers(p, name, "/this-will-also-match", false, exact, param);
    NoRouteAnswers(p, name, "/this/will/not/match", false, exact, param);
  }

  /** The strict-mode cases of the same test: the trailing slash is no longer forgiven. */
  lemma LookupExamplesStrict<H>(exact: H, param: H)
    ensures var routes := [Route("/this-is-an-exact-match", exact), Route("/:this-is-a-param-match", param)];
      HandlerForURL("/abc123/", routes, true) == None &&
      HandlerForURL("/abc123", routes, true) == Some(routes[1])
  {
    var p := "/this-is-an-exact-match";
    var name := "this-is-a-param-match";
    assert "/:" + name == "/:this-is-a-param-match";
    ExampleRouteFacts(p, name);
    ExampleURLFacts();
    ParamRouteAnswers(p, name, "/abc123", true, exact, param);
    NoRouteAnswers(p, name, "/abc123/", true, exact, param);
  }

  lemma ExampleRouteFacts(p: string, name: string)
    requires p == "/this-is-an-exact-match" && name == "this-is-a-param-match"
    ensures IsLiteral(p) && IsSegment(name) && |p| == 23
  {
  }

  lemma ExampleURLFacts()
    ensures IsOneSegmentPath("/abc123") && !EndsWithSlash("/abc123") && |"/abc123"| == 7
    ensures IsOneSegmentPath("/this-will-also-match") && !EndsWithSlash("/this-will-also-match")
    ensures |"/this-will-also-match"| == 21
    ensures StripTrailingSlash("/this/will/not/match") == "/this/will/not/match"
    ensures !IsOneSegmentPath("/this/will/not/match") && |"/this/will/not/match"| == 20
    ensures !IsOneSegmentPath("/abc123/") && |"/abc123/"| == 8
  {
    OneSegmentURL("/abc123");
    OneSegmentURL("/this-will-also-match");
    NestedURL("/this/will/not/match", 5);
    NestedURL("/abc123/", 7);
  }

  lemma OneSegmentURL(url: string)
    requires url == "/abc123" || url == "/this-will-also-match"
    ensures IsOneSegmentPath(url) && !EndsWithSlash(url)
  {
    assert url[0] == '/' && |url[1..]| > 0;
    assert forall i :: 0 <= i < |url[1..]| ==> url[1..][i] != '/';
  }

  lemma NestedURL(url: string, k: nat)
    requires (url == "/this/will/not/match" && k == 5) || (url == "/abc123/" && k == 7)
    ensures !IsOneSegmentPath(url)
    ensures StripTrailingSlash(url) == url || url == "/abc123/"
  {
    assert url[1..][k - 1] == '/';
    assert url[|url| - 1] != '/' || url == "/abc123/";
  }

  /** A one-segment URL shorter than the literal route is answered by the `/:name` route. */
  lemma ParamRouteAnswers<H>(p: string, name: string, url: string, strict: bool, exact: H, param: H)
    requires IsLiteral(p) && IsSegment(name)
    requires IsOneSegmentPath(url) && !EndsWithSlash(url) && |url| + 1 < |p|
    ensures HandlerForURL(url, [Route(p, exact), Route("/:" + name, param)], strict) == Some(Route("/:" + name, param))
  {
    assert StripTrailingSlash(url) == url;
    LiteralThenParamLookup(p, name, url, strict, exact, param);
  }

  /** A URL that is neither the literal route nor one segment (after the slash is stripped when lenient) finds nothing. */
  lemma NoRouteAnswers<H>(p: string, name: string, url: string, strict: bool, exact: H, param: H)
    requires IsLiteral(p) && IsSegment(name)
    requires var bare := if strict then url else StripTrailingSlash(url);
      !IsOneSegmentPath(bare) && |bare| + 1 < |p|
    ensures HandlerForURL(url, [Route(p, exact), Route("/:" + name, param)], strict) == None
  {
    LiteralThenParamLookup(p, name, url, strict, exact, param);
  }
}

/**
 * The `Application` class of src/application.tsx: the five route tables,
 * route registration, page loading, the start/stop life cycle and the
 * resolution of a request to a route inside the server's `fetch` callback.
 */
module App {
  import opened Wrappers
  import opened TrailingSlash
  import opened Pattern
  import opened PathParams
  import opened RouteLookup
  import Pages

  /** The HTTP methods with a route table of their own. */
  datatype HttpMethod = GET | POST | PUT | DELETE

  /** The keys of `handlers`: `'*'` (every method) or one HTTP method. */
  datatype MethodKey = AnyMethod | Verb(verb: HttpMethod)

  /** A JavaScript `Map` from path pattern to handler, as its entries in insertion order. */
  type Table<H> = seq<Route<H>>

  /** The `handlers` record of lines 26-32. */
  type Tables<H> = map<MethodKey, Table<H>>

  /** The life-cycle states of line 35. */
  datatype State = Stopped | Starting | Started | Stopping

  const DuplicateMessage := "This path already has a handler bound"
  const StartedTwiceMessage := "Application cannot be started more than once"

  /** A `Map` holds each key at most once. */
  predicate DistinctPatterns<H>(t: Table<H>) {
    forall i, j :: 0 <= i < j < |t| ==> t[i].pattern != t[j].pattern
  }

  /** `Map.prototype.has`. */
  predicate Bound<H>(t: Table<H>, path: string) {
    exists i :: 0 <= i < |t| && t[i].pattern == path
  }

  /** Every key has its table and no table binds a pattern twice. */
  ghost predicate ValidTables<H>(tables: Tables<H>) {
    forall k: MethodKey :: k in tables && DistinctPatterns(tables[k])
  }

  /** The five empty maps a new application starts with. */
  function EmptyTables<H>(): (tables: Tables<H>)
    ensures ValidTables(tables)
    ensures forall k: MethodKey :: tables[k] == []
  {
    var tables := map[AnyMethod := [], Verb(GET) := [], Verb(POST) := [], Verb(PUT) := [], Verb(DELETE) := []];
    EveryKeyIsPresent(tables);
    tables
  }

  lemma EveryKeyIsPresent<H>(tables: Tables<H>)
    requires tables.Keys == {AnyMethod, Verb(GET), Verb(POST), Verb(PUT), Verb(DELETE)}
    ensures forall k: MethodKey :: k in tables
  {
    forall k: MethodKey ensures k in tables {
      match k
      case AnyMethod =>
      case Verb(m) =>
        assert m == GET || m == POST || m == PUT || m == DELETE;
    }
  }

  /**
   * Lines 83-87: registering a handler under a key and path throws when
   * that key's map already binds the path, and otherwise appends the entry.
   */
  function Register<H>(tables: Tables<H>, key: MethodKey, path: string, handler: H): (r: Result<Tables<H>, string>)
    requires ValidTables(tables)
    ensures r.Success? ==> ValidTables(r.value)
  {
    if Bound(tables[key], path) then Failure(DuplicateMessage)
    else
      AppendUnboundKeepsDistinct(tables[key], Route(path, handler));
      Success(tables[key := tables[key] + [Route(path, handler)]])
  }

  lemma AppendUnboundKeepsDistinct<H>(t: Table<H>, r: Route<H>)
    requires DistinctPatterns(t) && !Bound(t, r.pattern)
    ensures DistinctPatterns(t + [r])
  {
    var t' := t + [r];
    forall i, j | 0 <= i < j < |t'| ensures t'[i].pattern != t'[j].pattern {
      if j == |t| {
        assert t'[i] == t[i];
      }
    }
  }

  /**
   * A registration throws exactly for a path already bound under that
   * key; a successful one adds exactly that path to that key's table,
   * after the routes it had, and leaves the other tables alone.
   */
  lemma RegisterAddsOneRoute<H>(tables: Tables<H>, key: MethodKey, path: string, handler: H)
    requires ValidTables(tables)
    ensures Register(tables, key, path, handler).Failure? <==> Bound(tables[key], path)
    ensures Register(tables, key, path, handler).Failure? ==> Register(tables, key, path, handler).error == DuplicateMessage
    ensures Register(tables, key, path, handler).Success? ==>
      var t := Register(tables, key, path, handler).value;
      && |t[key]| == |tables[key]| + 1
      && tables[key] <= t[key]
      && t[key][|tables[key]|] == Route(path, handler)
      && (forall p :: Bound(t[key], p) <==> Bound(tables[key], p) || p == path)
      && (forall k :: k != key ==> t[k] == tables[k])
  {
    if !Bound(tables[key], path) {
      var t := Register(tables, key, path, handler).value;
      forall p ensures Bound(t[key], p) <==> Bound(tables[key], p) || p == path {
        if Bound(tables[key], p) {
          var i :| 0 <= i < |tables[key]| && tables[key][i].pattern == p;
          assert t[key][i].pattern == p;
        }
        if p == path {
          assert t[key][|tables[key]|].pattern == p;
        }
        if Bound(t[key], p) {
          var i :| 0 <= i < |t[key]| && t[key][i].pattern == p;
          if i < |tables[key]| {
            assert tables[key][i].pattern == p;
          }
        }
      }
    }
  }

  /** A second registration of the same key and path always throws, whatever the handler. */
  lemma RegisterTwiceFails<H>(tables: Tables<H>, key: MethodKey, path: string, first: H, second: H)
    requires ValidTables(tables)
    requires Register(tables, key, path, first).Success?
    ensures Register(Register(tables, key, path, first).value, key, path, second) == Failure(DuplicateMessage)
  {
    RegisterAddsOneRoute(tables, key, path, first);
  }

  /**
   * Line 153: the `'*'` map is consulted first, and the map of the
   * request's method only when it yields no route.
   */
  function Resolve<H>(tables: Tables<H>, verb: HttpMethod, path: string, strict: bool): Option<Route<H>>
    requires ValidTables(tables)
  {
    match HandlerForURL(path, tables[AnyMethod], strict)
    case Some(route) => Some(route)
    case None => HandlerForURL(path, tables[Verb(verb)], strict)
  }

  /** Some route of `t` accepts `path`. */
  predicate AnyAccepts<H>(t: Table<H>, path: string, strict: bool) {
    exists i :: 0 <= i < |t| && Accepts(path, t[i].pattern, strict)
  }

  /**
   * Resolution finds a route exactly when a route of the `'*'` table or of
   * the method's table accepts the path; the route it finds accepts the
   * path, and it comes from the `'*'` table whenever any route there does.
   */
  lemma ResolveFindsAcceptingRoute<H>(tables: Tables<H>, verb: HttpMethod, path: string, strict: bool)
    requires ValidTables(tables)
    ensures Resolve(tables, verb, path, strict).None? <==>
      !AnyAccepts(tables[AnyMethod], path, strict) && !AnyAccepts(tables[Verb(verb)], path, strict)
    ensures Resolve(tables, verb, path, strict).Some? ==>
      Accepts(path, Resolve(tables, verb, path, strict).value.pattern, strict)
    ensures AnyAccepts(tables[AnyMethod], path, strict) ==>
      Resolve(tables, verb, path, strict) == HandlerForURL(path, tables[AnyMethod], strict)
    ensures Resolve(tables, verb, path, strict).Some? ==>
      Resolve(tables, verb, path, strict).value in tables[AnyMethod] + tables[Verb(verb)]
  {
    HandlerForURLIsBest(path, tables[AnyMethod], strict);
    HandlerForURLIsBest(path, tables[Verb(verb)], strict);
    var r := Resolve(tables, verb, path, strict);
    if r.Some? {
      if HandlerForURL(path, tables[AnyMethod], strict).Some? {
        assert r.value in tables[AnyMethod];
      } else {
        assert r.value in tables[Verb(verb)];
      }
    }
  }

  /** The lookup over a single route. */
  lemma SingleRouteLookup<H>(url: string, r: Route<H>, strict: bool)
    ensures HandlerForURL(url, [r], strict) == if Accepts(url, r.pattern, strict) then Some(r) else None
  {
    assert [r][1..] == [];
  }

  /** A lenient lookup or a strict one finds a literal path on a route with exactly that pattern. */
  lemma LiteralAcceptsItself(p: string, strict: bool)
    requires IsLiteral(p)
    ensures Accepts(p, p, strict)
  {
    LiteralRouteAccepts(p, p, strict);
    var bare := StripTrailingSlash(p);
    if |bare| < |p| {
      assert bare + "/" == p;
    }
  }

  /**
   * A literal path registered for a method is what a request for that
   * method and path resolves to, unless a route registered before it (in
   * the `'*'` table or the method's own) already accepts the path.
   */
  lemma FreshLiteralRouteIsFound<H>(tables: Tables<H>, verb: HttpMethod, path: string, handler: H, strict: bool)
    requires ValidTables(tables) && IsLiteral(path)
    requires !AnyAccepts(tables[AnyMethod], path, strict)
    requires !AnyAccepts(tables[Verb(verb)], path, strict)
    ensures Register(tables, Verb(verb), path, handler).Success?
    ensures Resolve(Register(tables, Verb(verb), path, handler).value, verb, path, strict) == Some(Route(path, handler))
  {
    LiteralAcceptsItself(path, strict);
    var old_t := tables[Verb(verb)];
    forall i | 0 <= i < |old_t| ensures old_t[i].pattern != path {
      assert !Accepts(path, old_t[i].pattern, strict);
    }
    var t := old_t + [Route(path, handler)];
    assert Register(tables, Verb(verb), path, handler).value[Verb(verb)] == t;
    assert HandlerForURL(path, tables[AnyMethod], strict) == None by {
      HandlerForURLIsBest(path, tables[AnyMethod], strict);
    }
    forall j | 0 <= j < |t| && j != |old_t| ensures !Accepts(path, t[j].pattern, strict) {
      assert t[j] == old_t[j];
    }
    OnlyAcceptingRouteIsFound(path, t, strict, |old_t|);
  }

  /**
   * The `'*'` table takes precedence over specificity: a route `/:name`
   * registered with `all` wins over a literal one-segment route registered
   * with `get`, although the lookup within one table would prefer the literal.
   */
  lemma WildcardTableShadowsSpecificRoute<H>(name: string, p: string, any: H, specific: H, strict: bool)
    requires IsSegment(name) && IsLiteral(p) && IsOneSegmentPath(p)
    ensures var tables := EmptyTables()[AnyMethod := [Route("/:" + name, any)]][Verb(GET) := [Route(p, specific)]];
      ValidTables(tables) && Resolve(tables, GET, p, strict) == Some(Route("/:" + name, any))
  {
    var tables: Tables<H> := EmptyTables()[AnyMethod := [Route("/:" + name, any)]][Verb(GET) := [Route(p, specific)]];
    assert ValidTables(tables) by {
      forall k: MethodKey ensures k in tables && DistinctPatterns(tables[k]) {
        assert k in EmptyTables<H>();
      }
    }
    SlashParamRouteAccepts(p, name, strict);
    if !strict {
      assert StripTrailingSlash(p) == p;
    }
    SingleRouteLookup(p, Route("/:" + name, any), strict);
  }

  /** A response built by the framework: an unset status means the `Response` default. */
  datatype Response = Response(status: Option<nat>, body: string, contentType: Option<string>)

  /** Lines 155-159: the reply when no route accepts the path. */
  const NotFound := Response(None, "404 - Page not found", Some("text/plain; charset=utf-8"))

  /** The part of the request record of lines 178-189 that the routing determines. */
  datatype Request = Request(params: Option<map<string, string>>, path: string, verb: HttpMethod)

  /** What a handler returns: a ready `Response`, or a value to be serialised. */
  datatype HandlerResult<V> = Prebuilt(response: Response) | Value(value: V)

  /** What `fetch` answers: a response as is, or a value handed to the JSON/JSX serialisation. */
  datatype Reply<V> = Sent(response: Response) | Render(value: V)

  /** Line 193: a `Response` from the handler is sent unchanged. */
  function ReplyTo<V>(result: HandlerResult<V>): (reply: Reply<V>)
    ensures reply.Sent? <==> result.Prebuilt?
    ensures result.Prebuilt? ==> reply.response == result.response
    ensures result.Value? ==> reply.value == result.value
  {
    match result
    case Prebuilt(response) => Sent(response)
    case Value(v) => Render(v)
  }

  /**
   * Lines 150-193: resolve the route, extract the parameters from the raw
   * path (not the one stripped of its trailing slash) and call the handler.
   */
  function FetchReply<H, V>(tables: Tables<H>, verb: HttpMethod, path: string, strict: bool,
                            invoke: (H, Request) -> HandlerResult<V>): Reply<V>
    requires ValidTables(tables)
  {
    match Resolve(tables, verb, path, strict)
    case None => Sent(NotFound)
    case Some(route) => ReplyTo(invoke(route.handler, Request(PathParams.PathParams(path, route.pattern), path, verb)))
  }

  /**
   * Without an accepting route in either table the answer is the 404
   * response; otherwise the handler of a registered route that accepts the
   * path is called (a `'*'` route whenever one accepts), with the
   * parameters `extractPathParams` gives for the raw path and that route's
   * pattern, present exactly when the raw path matches the pattern and the
   * pattern has one.
   */
  lemma FetchCallsAcceptingHandler<H, V>(tables: Tables<H>, verb: HttpMethod, path: string, strict: bool,
                                         invoke: (H, Request) -> HandlerResult<V>)
    requires ValidTables(tables)
    ensures !AnyAccepts(tables[AnyMethod], path, strict) && !AnyAccepts(tables[Verb(verb)], path, strict) ==>
      FetchReply(tables, verb, path, strict, invoke) == Sent(NotFound)
    ensures AnyAccepts(tables[AnyMethod], path, strict) || AnyAccepts(tables[Verb(verb)], path, strict) ==>
      exists route: Route<H> ::
        && route in tables[AnyMethod] + tables[Verb(verb)]
        && (AnyAccepts(tables[AnyMethod], path, strict) ==> route in tables[AnyMethod])
        && Accepts(path, route.pattern, strict)
        && (PathParams.PathParams(path, route.pattern).Some? <==>
              MatchesPattern(path, route.pattern) && |ParamNames(route.pattern)| > 0)
        && FetchReply(tables, verb, path, strict, invoke) ==
             ReplyTo(invoke(route.handler, Request(PathParams.PathParams(path, route.pattern), path, verb)))
  {
    ResolveFindsAcceptingRoute(tables, verb, path, strict);
    HandlerForURLIsBest(path, tables[AnyMethod], strict);
    var r := Resolve(tables, verb, path, strict);
    if r.Some? {
      PathParamsDefinedIff(path, r.value.pattern);
    }
  }

  /**
   * Because parameters come from the raw path, a lenient match of
   * `/seg/` on `/:name` calls the handler with no parameters at all.
   */
  lemma LenientMatchHasNoParams<H, V>(name: string, seg: string, handler: H, invoke: (H, Request) -> HandlerResult<V>)
    requires IsSegment(name) && IsSegment(seg)
    ensures var tables := EmptyTables()[Verb(GET) := [Route("/:" + name, handler)]];
      ValidTables(tables) &&
      FetchReply(tables, GET, "/" + seg + "/", false, invoke) == ReplyTo(invoke(handler, Request(None, "/" + seg + "/", GET)))
  {
    var tables: Tables<H> := EmptyTables()[Verb(GET) := [Route("/:" + name, handler)]];
    assert ValidTables(tables) by {
      forall k: MethodKey ensures k in tables && DistinctPatterns(tables[k]) {
        assert k in EmptyTables<H>();
      }
    }
    var url := "/" + seg + "/";
    assert StripTrailingSlash(url) == "/" + seg by {
      assert url[..|url| - 1] == "/" + seg;
    }
    assert ("/" + seg)[1..] == seg;
    SlashParamRouteAccepts(url, name, false);
    SingleRouteLookup(url, Route("/:" + name, handler), false);
    assert HandlerForURL(url, tables[AnyMethod], false).None?;
    SlashParamPattern(name, url);
    assert url[1..][|seg|] == '/';
    PathParamsDefinedIff(url, "/:" + name);
  }

  /** The concrete case `/abc/` against `/:id`. */
  lemma LenientMatchExample<H, V>(handler: H, invoke: (H, Request) -> HandlerResult<V>)
    ensures FetchReply(EmptyTables()[Verb(GET) := [Route("/:id", handler)]], GET, "/abc/", false, invoke)
      == ReplyTo(invoke(handler, Request(None, "/abc/", GET)))
  {
    assert "/:id" == "/:" + "id";
    assert "/abc/" == "/" + "abc" + "/";
    LenientMatchHasNoParams("id", "abc", handler, invoke);
  }

  /**
   * `this.handlers[name]`: only `'*'` and the four method names have a map;
   * any other name (or `undefined`) gives none, and calling `has` on it throws.
   */
  function KeyOfName(name: Option<string>): (k: Option<MethodKey>)
    ensures k.Some? ==> name.Some?
    ensures k == Some(AnyMethod) <==> name == Some("*")
    ensures k == Some(Verb(GET)) <==> name == Some("GET")
    ensures k == Some(Verb(POST)) <==> name == Some("POST")
    ensures k == Some(Verb(PUT)) <==> name == Some("PUT")
    ensures k == Some(Verb(DELETE)) <==> name == Some("DELETE")
    ensures name !in {Some("*"), Some("GET"), Some("POST"), Some("PUT"), Some("DELETE")} ==> k.None?
  {
    match name
    case Some("*") => Some(AnyMethod)
    case Some("GET") => Some(Verb(GET))
    case Some("POST") => Some(Verb(POST))
    case Some("PUT") => Some(Verb(PUT))
    case Some("DELETE") => Some(Verb(DELETE))
    case _ => None
  }

  /** The object `loadPages` reads: its `method` field, if it has one, its path and its handler. */
  datatype PageEntry<H> = PageEntry(methodName: Option<string>, path: string, handler: H)

  /** The pages `getPages` yields carry no `method` field. */
  function FromGetPages<H>(pages: seq<Pages.Page<H>>): (es: seq<PageEntry<H>>)
    ensures |es| == |pages|
    ensures forall i :: 0 <= i < |es| ==> es[i] == PageEntry(None, pages[i].path, pages[i].handler)
  {
    seq(|pages|, i requires 0 <= i < |pages| => PageEntry(None, pages[i].path, pages[i].handler))
  }

  /** Lines 253-264: one page registered, a throw caught and the tables left as they were. */
  function RegisterPage<H>(tables: Tables<H>, page: PageEntry<H>): (t: Tables<H>)
    requires ValidTables(tables)
    ensures ValidTables(t)
  {
    match KeyOfName(page.methodName)
    case None => tables
    case Some(key) =>
      match Register(tables, key, page.path, page.handler)
      case Success(t) => t
      case Failure(_) => tables
  }

  /** The tables after the loop of lines 252-265 over `pages`. */
  function RegisterPages<H>(tables: Tables<H>, pages: seq<PageEntry<H>>): (t: Tables<H>)
    requires ValidTables(tables)
    ensures ValidTables(t)
  {
    if pages == [] then tables
    else RegisterPage(RegisterPages(tables, pages[..|pages| - 1]), pages[|pages| - 1])
  }

  /**
   * Page loading only ever appends: every table keeps its routes, in
   * order, and gains at most one route per page.
   */
  lemma {:induction false} RegisterPagesOnlyAppends<H>(tables: Tables<H>, pages: seq<PageEntry<H>>)
    requires ValidTables(tables)
    ensures forall k :: tables[k] <= RegisterPages(tables, pages)[k]
    ensures forall k :: |RegisterPages(tables, pages)[k]| <= |tables[k]| + |pages|
  {
    if pages != [] {
      var prefix := pages[..|pages| - 1];
      var page := pages[|pages| - 1];
      RegisterPagesOnlyAppends(tables, prefix);
      var mid := RegisterPages(tables, prefix);
      match KeyOfName(page.methodName)
      case None =>
      case Some(key) =>
        RegisterAddsOneRoute(mid, key, page.path, page.handler);
    }
  }

  /** A page without a usable `method` is skipped: its registration throws and is caught. */
  lemma {:induction false} PagesWithoutMethodAreSkipped<H>(tables: Tables<H>, pages: seq<PageEntry<H>>)
    requires ValidTables(tables)
    requires forall i :: 0 <= i < |pages| ==> KeyOfName(pages[i].methodName).None?
    ensures RegisterPages(tables, pages) == tables
  {
    if pages != [] {
      PagesWithoutMethodAreSkipped(tables, pages[..|pages| - 1]);
    }
  }

  /**
   * A page whose registration throws inside the `try` — no table for its
   * method name, or a path its table already binds — leaves the tables as
   * they were, and the pages after it are processed as if it were absent.
   */
  lemma {:induction false} FailingPageIsSkipped<H>(tables: Tables<H>, before: seq<PageEntry<H>>, page: PageEntry<H>,
                                                   after: seq<PageEntry<H>>)
    requires ValidTables(tables)
    requires var mid := RegisterPages(tables, before);
      KeyOfName(page.methodName).None? || Bound(mid[KeyOfName(page.methodName).value], page.path)
    ensures RegisterPages(tables, before + [page] + after) == RegisterPages(tables, before + after)
    decreases |after|
  {
    if after == [] {
      assert before + [page] + after == before + [page];
      assert before + after == before;
      RegisterPagesSnoc(tables, before, page);
    } else {
      var init := after[..|after| - 1];
      var last := after[|after| - 1];
      FailingPageIsSkipped(tables, before, page, init);
      assert before + [page] + after == (before + [page] + init) + [last];
      assert before + after == (before + init) + [last];
      RegisterPagesSnoc(tables, before + [page] + init, last);
      RegisterPagesSnoc(tables, before + init, last);
    }
  }

  lemma RegisterPagesSnoc<H>(tables: Tables<H>, pages: seq<PageEntry<H>>, page: PageEntry<H>)
    requires ValidTables(tables)
    ensures RegisterPages(tables, pages + [page]) == RegisterPage(RegisterPages(tables, pages), page)
  {
    assert (pages + [page])[..|pages|] == pages;
  }

  /** So the pages found by `getPages` never reach the route tables. */
  lemma LoadedPagesAreNeverRegistered<H>(tables: Tables<H>, pages: seq<Pages.Page<H>>)
    requires ValidTables(tables)
    ensures RegisterPages(tables, FromGetPages(pages)) == tables
  {
    PagesWithoutMethodAreSkipped(tables, FromGetPages(pages));
  }

  /** A page with a method name and a path free in its table is registered there. */
  lemma PageWithMethodIsRegistered<H>(tables: Tables<H>, page: PageEntry<H>, key: MethodKey)
    requires ValidTables(tables)
    requires KeyOfName(page.methodName) == Some(key) && !Bound(tables[key], page.path)
    ensures RegisterPage(tables, page)[key] == tables[key] + [Route(page.path, page.handler)]
  {
  }

  /** Lines 129-130 and 228: `start` only leaves `STOPPED`, and ends in `STARTED`. */
  function StartOutcome(s: State): (r: Result<State, string>)
    ensures r.Success? <==> s == Stopped
    ensures r.Success? ==> r.value == Started
    ensures r.Failure? ==> r.error == StartedTwiceMessage
  {
    if s == Stopped then Success(Started) else Failure(StartedTwiceMessage)
  }

  /** Lines 273-289: `stop` only leaves `STARTED`, and ends in `STOPPED`. */
  function StateAfterStop(s: State): (t: State)
    ensures t != s <==> s == Started
    ensures s == Started ==> t == Stopped
  {
    if s == Started then Stopped else s
  }

  /**
   * Starting twice fails, stopping is idempotent, and a stopped
   * application can be started again.
   */
  lemma LifeCycle(s: State)
    ensures StartOutcome(s).Success? ==> StartOutcome(StartOutcome(s).value).Failure?
    ensures StateAfterStop(StateAfterStop(s)) == StateAfterStop(s)
    ensures StartOutcome(s).Success? ==> StartOutcome(StateAfterStop(StartOutcome(s).value)).Success?
  {
  }

  class Application<H> {
    /** The `'*'`, `GET`, `POST`, `PUT` and `DELETE` maps. */
    var handlers: Tables<H>
    var state: State
    /** `config.web.strictMatching`, `false` when absent. */
    const strictMatching: bool

    ghost predicate Valid()
      reads this
    {
      ValidTables(handlers)
    }

    constructor(strictMatching: bool)
      ensures Valid()
      ensures handlers == EmptyTables() && state == Stopped
      ensures this.strictMatching == strictMatching
    {
      handlers := EmptyTables();
      state := Stopped;
      this.strictMatching := strictMatching;
    }

    /** Lines 83-87. */
    method Method(key: MethodKey, path: string, handler: H) returns (r: Outcome<string>)
      requires Valid()
      modifies this
      ensures Valid() && state == old(state)
      ensures match Register(old(handlers), key, path, handler)
        case Success(t) => r == Pass && handlers == t
        case Failure(e) => r == Fail(e) && handlers == old(handlers)
    {
      if Bound(handlers[key], path) {
        return Fail(DuplicateMessage);
      }
      handlers := Register(handlers, key, path, handler).value;
      r := Pass;
    }

    /** Lines 92-94. */
    method All(path: string, handler: H) returns (r: Outcome<string>)
      requires Valid()
      modifies this
      ensures Valid() && state == old(state)
      ensures match Register(old(handlers), AnyMethod, path, handler)
        case Success(t) => r == Pass && handlers == t
        case Failure(e) => r == Fail(e) && handlers == old(handlers)
    {
      r := Method(AnyMethod, path, handler);
    }

    /** Lines 99-101. */
    method Get(path: string, handler: H) returns (r: Outcome<string>)
      requires Valid()
      modifies this
      ensures Valid() && state == old(state)
      ensures match Register(old(handlers), Verb(GET), path, handler)
        case Success(t) => r == Pass && handlers == t
        case Failure(e) => r == Fail(e) && handlers == old(handlers)
    {
      r := Method(Verb(GET), path, handler);
    }

    /** Lines 106-108. */
    method Post(path: string, handler: H) returns (r: Outcome<string>)
      requires Valid()
      modifies this
      ensures Valid() && state == old(state)
      ensures match Register(old(handlers), Verb(POST), path, handler)
        case Success(t) => r == Pass && handlers == t
        case Failure(e) => r == Fail(e) && handlers == old(handlers)
    {
      r := Method(Verb(POST), path, handler);
    }

    /** Lines 113-115. */
    method Put(path: string, handler: H) returns (r: Outcome<string>)
      requires Valid()
      modifies this
      ensures Valid() && state == old(state)
      ensures match Register(old(handlers), Verb(PUT), path, handler)
        case Success(t) => r == Pass && handlers == t
        case Failure(e) => r == Fail(e) && handlers == old(handlers)
    {
      r := Method(Verb(PUT), path, handler);
    }

    /** Lines 120-122. */
    method Delete(path: string, handler: H) returns (r: Outcome<string>)
      requires Valid()
      modifies this
      ensures Valid() && state == old(state)
      ensures match Register(old(handlers), Verb(DELETE), path, handler)
        case Success(t) => r == Pass && handlers == t
        case Failure(e) => r == Fail(e) && handlers == old(handlers)
    {
      r := Method(Verb(DELETE), path, handler);
    }

    /** Lines 252-265: register every page, logging and skipping the ones that throw. */
    method LoadPages(pages: seq<PageEntry<H>>)
      requires Valid()
      modifies this
      ensures Valid() && state == old(state)
      ensures handlers == RegisterPages(old(handlers), pages)
    {
      for i := 0 to |pages|
        invariant Valid() && state == old(state)
        invariant handlers == RegisterPages(old(handlers), pages[..i])
      {
        var page := pages[i];
        assert pages[..i + 1][..i] == pages[..i];
        match KeyOfName(page.methodName)
        case None =>
          // `this.handlers[page.method]` is undefined: the TypeError is caught
        case Some(key) =>
          var outcome := Method(key, page.path, page.handler);
      }
      assert pages[..|pages|] == pages;
    }

    /** Line 228: the server is up. */
    method StartWebServer()
      modifies this
      ensures state == Started && handlers == old(handlers)
    {
      state := Started;
    }

    /**
     * Lines 127-141, given the pages `getPages` found in the pages
     * directory (none when there is no such directory).
     */
    method Start(found: seq<Pages.Page<H>>) returns (r: Outcome<string>)
      requires Valid()
      modifies this
      ensures Valid() && handlers == old(handlers)
      ensures match StartOutcome(old(state))
        case Success(s) => r == Pass && state == s
        case Failure(e) => r == Fail(e) && state == old(state)
    {
      if state != Stopped {
        return Fail(StartedTwiceMessage);
      }
      state := Starting;
      LoadPages(FromGetPages(found));
      LoadedPagesAreNeverRegistered(old(handlers), found);
      StartWebServer();
      r := Pass;
    }

    /** Lines 272-293, with the wait for open connections to drain between the two states. */
    method Stop()
      modifies this
      ensures state == StateAfterStop(old(state)) && handlers == old(handlers)
    {
      if state != Started {
        return;
      }
      state := Stopping;
      state := Stopped;
    }

    /** The `fetch` callback of lines 149-193, up to the serialisation of a non-`Response` result. */
    method Fetch<V>(verb: HttpMethod, path: string, invoke: (H, Request) -> HandlerResult<V>) returns (reply: Reply<V>)
      requires Valid()
      ensures reply == FetchReply(handlers, verb, path, strictMatching, invoke)
    {
      var found := GetHandlerForURL(path, handlers[AnyMethod], strictMatching);
      if found.None? {
        found := GetHandlerForURL(path, handlers[Verb(verb)], strictMatching);
      }
      if found.None? {
        return Sent(NotFound);
      }
      var route := found.value;
      var params := ExtractPathParams(path, route.pattern);
      var response := invoke(route.handler, Request(params, path, verb));
      match response
      case Prebuilt(r) => reply := Sent(r);
      case Value(v) => reply := Render(v);
    }
  }
}

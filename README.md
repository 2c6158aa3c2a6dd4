# xirelta routing core in Dafny

This project models the routing core of xirelta, a small web framework for
Bun, and proves properties of the model. The core takes a request path to a
registered handler:

- `stripTrailingSlash` normalises a path for the lenient matching mode
  (module `TrailingSlash`).
- `matchesPattern` compiles a route pattern with `:name` parameters and `*`
  wildcards into an anchored regular expression. The model tokenises the
  pattern and gives the regular expression's language as a recursive
  predicate (module `Pattern`).
- `extractPathParams` uses the same compilation with capture groups. The
  model reproduces the greedy, backtracking capture search and the
  name-by-index binding loop (module `PathParams`).
- `getHandlerForURL` collects the accepting routes of a route map and
  stable-sorts them so that patterns without `:` come first. The model gives
  a loop method proved against a filter-and-partition specification (module
  `RouteLookup`).
- The route-path derivation of `getPages` turns a page file name such as
  `/nested/[dir]/index.tsx` into a route such as `/nested/:dir`. The model
  also drops files that have no handler (module `Pages`).
- The `Application` class holds five route tables: `'*'`, `GET`, `POST`,
  `PUT` and `DELETE`. It provides duplicate-rejecting registration, the
  page-loading loop, the `STOPPED/STARTING/STARTED/STOPPING` life cycle,
  and the resolution step of the server's `fetch` callback (module `App`).

Handlers are opaque values of a type parameter. A JavaScript `Map` is
modelled as the sequence of its entries in insertion order, because its
iteration order is insertion order. Calling a handler is a function
parameter of `Fetch`. The files of the pages directory, and whether each
one's import produced a handler, are parameters of `GetPages`. The pages
found are a parameter of `Start`.

Where the code and its documentation disagree, the model follows the
code:

- The 404 body is `404 - Page not found`.
- `*` compiles to `.*`, and in JavaScript `.` does not match a line
  terminator (`\n`, `\r`, U+2028, U+2029). So `*` matches any text free of
  line terminators, not any text at all.
- A `.` in a pattern is not escaped, so it matches any one character other
  than a line terminator.
- `loadPages` registers each page under `page.method`, but the pages that
  `getPages` builds carry no `method` field. The lookup
  `this.handlers[undefined]` gives `undefined`, and calling `has` on it
  throws a `TypeError`. The `try`/`catch` swallows it, so no page is ever
  registered. `App.LoadedPagesAreNeverRegistered` states this, and
  `App.Application.Start` leaves the tables unchanged.
- The extension cut of `getPages` starts at the leftmost `.` of the whole
  path, so a `.` in a directory name cuts off the rest of the path
  (`Pages.DotInDirectoryExample`).

## Model

| member | source | states |
|---|---|---|
| TrailingSlash.StripTrailingSlash | src/common/strip-trailing-slash.ts:1-6 | the result is a prefix of the input, at most one character shorter, and shorter exactly when the input ends in `/` and is not `/` itself |
| TrailingSlash.StripTrailingSlashExamples | src/common/strip-trailing-slash.test.ts:5-11 | the tested cases: `/` stays, `/a/` becomes `/a`, paths without a trailing slash (and the empty string) stay |
| TrailingSlash.StripTrailingSlashNotIdempotent | src/common/strip-trailing-slash.ts:5 | only one slash goes: `/a//` becomes `/a/`, and stripping again changes it |
| Pattern.Tokenize | src/common/matches-pattern.ts:2-5 | the pattern rewrite yields at most one token per pattern character |
| Pattern.TokenizeWellFormed | src/common/matches-pattern.ts:3 | every parameter name is non-empty and `/`-free and is followed by `/` or the end of the pattern |
| Pattern.TokenizeRoundTrip | src/common/matches-pattern.ts:2-5 | tokenising loses nothing: the tokens spell the pattern back |
| Pattern.TokenizeAppend | src/common/matches-pattern.ts:3 | a parameter name never runs across `/`: tokenising distributes over concatenation at a `/` |
| Pattern.LiteralPatternMatchesExactly | src/common/matches-pattern.ts:6-7 | a pattern without `:`, `*` or `.` matches exactly the identical path, since the expression is anchored at both ends |
| Pattern.ParamPatternMatchesSegment | src/common/matches-pattern.ts:3 | `:name` matches exactly the non-empty `/`-free paths |
| Pattern.StarPatternMatchesAnyText | src/common/matches-pattern.ts:4 | `*` matches exactly the texts without a line terminator, the empty text and `/` included |
| Pattern.DotMatchesAnyCharacter | src/common/matches-pattern.ts:2-5 | an unescaped `.` matches any one character except a line terminator |
| Pattern.SlashParamPattern | src/common/matches-pattern.ts:2-7 | `/:name` matches exactly `/` followed by one segment |
| Pattern.LiteralThenParam | src/common/matches-pattern.ts:2-7 | a literal prefix followed by `/:name` matches that prefix, `/` and any segment |
| Pattern.LiteralPatternExamples | src/common/matches-pattern.test.ts:6-8 | `/random-endpoint` matches itself and does not match `/404` |
| Pattern.ParamPatternExample | src/common/matches-pattern.test.ts:7 | `/random-endpoint/abc123` matches `/random-endpoint/:with-param` |
| Pattern.ParamCannotSpanSlash | src/common/get-handler-for-url.test.ts:26 | `/this/will/not/match` does not match `/:x` |
| PathParams.Captures | src/common/extract-params.ts:11-12 | the capture search yields one capture per group: a segment for `([^/]+)`, a line-terminator-free text for `(.*)` |
| PathParams.CapturesIffMatches | src/common/extract-params.ts:7-12 | adding capture groups does not change what matches: the capture search succeeds exactly on the paths `matchesPattern` accepts |
| PathParams.BacktrackIffMatches | src/common/extract-params.ts:11-12 | greedy backtracking tries every split of the text between the group and the rest of the pattern |
| PathParams.Bind | src/common/extract-params.ts:17-20 | the keys are exactly the names; a name is bound to the capture at the index of its last occurrence |
| PathParams.ExtractPathParams | src/common/extract-params.ts:5-23 | the loop fills the result as the specification function `PathParams` defines it |
| PathParams.PathParamsDefinedIff | src/common/extract-params.ts:14-15 | a result is returned exactly when the path matches and the pattern has at least one parameter |
| PathParams.PathParamsKeys | src/common/extract-params.ts:6 | the keys of a result are exactly the pattern's parameter names |
| PathParams.PathParamsWithoutStar | src/common/extract-params.ts:8-20 | without `*` in the pattern, there is exactly one capture per parameter, the i-th capture belongs to the i-th parameter, every bound value is a segment, and each name gets the capture of its last occurrence |
| PathParams.PathParamsNoStarBeforeParam | src/common/extract-params.ts:8-20 | when no `*` comes before a parameter (a trailing `*` allowed), the i-th capture belongs to the i-th parameter and is a segment, every bound value is a segment, and each name gets the capture of its last occurrence |
| PathParams.CapturesSlashParam | src/common/extract-params.ts:8 | `/` followed by a parameter captures the whole next segment and leaves the rest of the path to the rest of the pattern |
| PathParams.ExtractParamsExample | src/common/extract-params.test.ts:6-10 | `/123/456/789` against `/:a/:b/:c` gives `a=123, b=456, c=789` |
| PathParams.ThreeParams | src/common/extract-params.ts:5-23 | three one-segment parameters with distinct names bind three segments, one each, in order |
| PathParams.TwoParams | src/common/extract-params.ts:5-23 | two one-segment parameters bind the two segments by position |
| PathParams.DuplicateNameExample | src/common/extract-params.ts:18-20 | a repeated name keeps the later capture: `/:a/:a` on `/1/2` gives `a=2` |
| PathParams.StarShiftExample | src/common/extract-params.ts:9 | `*` opens a capture group of its own and shifts the bindings: `/*/:id` on `/x/y` binds `id` to `x` |
| RouteLookup.Candidates | src/common/get-handler-for-url.ts:6-21 | the collected matches are no more than the routes |
| RouteLookup.CandidatesAccept | src/common/get-handler-for-url.ts:6-21 | each collected match is an entry of the route map that accepts the URL in the chosen mode |
| RouteLookup.Keep | src/common/get-handler-for-url.ts:30-40 | each group of the partition holds only routes of its class |
| RouteLookup.GetHandlerForURL | src/common/get-handler-for-url.ts:5-43 | the loop and the sort return what the filter-then-stable-partition specification `HandlerForURL` returns |
| RouteLookup.SortIsPermutation | src/common/get-handler-for-url.ts:30-40 | the sort is a permutation of the matches |
| RouteLookup.SortIsOrdered | src/common/get-handler-for-url.ts:34-36 | after the sort no pattern with `:` precedes one without |
| RouteLookup.SortIsStable | src/common/get-handler-for-url.ts:38-39 | within each class the matches keep their map order |
| RouteLookup.HandlerForURLIsBest | src/common/get-handler-for-url.ts:5-43 | nothing is found exactly when no route accepts the URL; otherwise the result is an entry of the map that accepts the URL, it is parameterised only when no route without `:` accepts the URL, and no earlier accepting route is of its class |
| RouteLookup.SpecificRouteWins | src/common/get-handler-for-url.ts:30-42 | an accepting route without `:` beats every parameterised route, whatever the insertion order |
| RouteLookup.StrictAcceptsImpliesLenient | src/common/get-handler-for-url.ts:8-15 | whatever strict matching accepts, lenient matching accepts too |
| RouteLookup.TrailingSlashIsIgnored | src/common/get-handler-for-url.ts:15 | without strict matching, a URL and the same URL with one trailing slash find the same route |
| RouteLookup.LiteralRouteAccepts | src/common/get-handler-for-url.ts:8-15 | a literal route accepts exactly its own path; when lenient, also with its trailing slash added or removed |
| RouteLookup.SlashParamRouteAccepts | src/common/get-handler-for-url.ts:8-15 | a `/:name` route accepts exactly the one-segment paths (after the slash is stripped when lenient) |
| RouteLookup.OnlyAcceptingRouteIsFound | src/common/get-handler-for-url.ts:5-43 | when exactly one route of the map accepts the URL, that route is returned, whatever its class and position |
| RouteLookup.OnlyOneAccepts | src/common/get-handler-for-url.ts:5-43 | over two routes where exactly one accepts, that one is returned |
| RouteLookup.NeitherAccepts | src/common/get-handler-for-url.ts:42 | over two routes where neither accepts, nothing is returned |
| RouteLookup.BothAccept | src/common/get-handler-for-url.ts:30-42 | over two accepting routes, the one without `:` is returned |
| RouteLookup.LiteralThenParamLookup | src/common/get-handler-for-url.test.ts:4-33 | for a literal route followed by `/:name`, the literal wins on its own path and the parameter route answers the other one-segment paths |
| RouteLookup.LookupExamplesLiteralOnly | src/common/get-handler-for-url.test.ts:6-14 | the empty map finds nothing; the exact route is found on its path and not on another |
| RouteLookup.LookupExamplesWithParam | src/common/get-handler-for-url.test.ts:16-26 | with the parameter route added, one-segment URLs find it and a nested URL finds nothing |
| RouteLookup.LookupExamplesStrict | src/common/get-handler-for-url.test.ts:28-33 | in strict mode the URL with a trailing slash finds nothing and the bare one finds the parameter route |
| Pages.IndexOf | src/common/get-pages.ts:23 | the search returns the first occurrence at or after the start, or nothing when there is none |
| Pages.RemoveLeadingDirectory | src/common/get-pages.ts:23 | the directory is removed from a path that begins with it |
| Pages.RemoveAbsentDirectory | src/common/get-pages.ts:23 | a path in which the directory does not occur is left as it is |
| Pages.ConvertBrackets | src/common/get-pages.ts:12-29 | the bracket conversion never lengthens the path |
| Pages.ConvertPlain | src/common/get-pages.ts:29 | text without `[` passes through unchanged |
| Pages.ConvertParam | src/common/get-pages.ts:29 | `[name]` with a non-empty name of `[a-z0-9_-]` becomes `:name` |
| Pages.ConvertEmptyBrackets | src/common/get-pages.ts:29 | `[]` is matched but kept |
| Pages.ConvertUnmatchedBracket | src/common/get-pages.ts:12 | a `[` that no `]` closes right after its run of name characters is kept, whether a non-name character (`[Id]`, `[ab/`) or the end of the text comes first |
| Pages.UnconvertedBracket | src/common/get-pages.ts:12-29 | a path whose only `[` is followed by a non-name character other than `]` is unchanged |
| Pages.ExtensionStart | src/common/get-pages.ts:35 | the cut starts at the leftmost position where `\..+$` matches, or nowhere |
| Pages.StripExtensionAt | src/common/get-pages.ts:35 | with no earlier `.`, the path is cut at the `.` before a one-line extension |
| Pages.StripExtensionWithoutDot | src/common/get-pages.ts:35 | a path without `.` keeps its length |
| Pages.ReplaceIndexSuffix | src/common/get-pages.ts:41 | a trailing `/index` becomes `/` |
| Pages.StripFirstLineOneLine | src/common/get-pages.ts:47 | for a one-line path the last step is exactly `stripTrailingSlash` |
| Pages.RoutePathOfFile | src/common/get-pages.ts:17-47 | a page file's route is its bracket-converted stem, with a trailing `/index` turned into `/` and one trailing slash removed |
| Pages.PlainFile | src/common/get-pages.ts:17-47 | a file path without brackets gives its stem after the index and slash rules |
| Pages.OneParamFile | src/common/get-pages.ts:17-47 | a file path with one bracketed name gives that name as a parameter |
| Pages.TwoParamFile | src/common/get-pages.ts:17-47 | a file path with two bracketed names gives both as parameters |
| Pages.IndexFile | src/common/get-pages.ts:37-47 | an `index` file gives its folder's route, or `/` at the top level |
| Pages.KeptPath | src/common/get-pages.ts:41-47 | a stem that ends neither in `/index` nor in `/` is kept as it is |
| Pages.TrailingSlashRemoved | src/common/get-pages.ts:47 | a folder route loses the slash the index rule left |
| Pages.NestedIndexExample | src/common/get-pages.ts:19-43 | `/nested/[directory]/in/[here]/index.tsx` gives `/nested/:directory/in/:here` |
| Pages.NestedPageExample | src/common/get-pages.ts:20-44 | `/nested/[directory]/in/[here]/about.tsx` gives `/nested/:directory/in/:here/about` |
| Pages.RootIndexExample | src/common/get-pages.ts:21-45 | `/index.tsx` gives `/` |
| Pages.TopLevelPageExample | src/common/get-pages.ts:22-46 | `/about.tsx` gives `/about` |
| Pages.BracketPageExample | src/common/get-pages.test.ts:10 | `/[page].tsx` gives `/:page` |
| Pages.ContactPagesExample | src/common/get-pages.test.ts:11 | both `/contact.tsx` and `/contact/index.tsx` give `/contact` |
| Pages.DotInDirectoryExample | src/common/get-pages.ts:35 | a `.` in a directory name cuts the rest: `/v1.2/about.tsx` gives `/v1` |
| Pages.UppercaseNameExample | src/common/get-pages.ts:12 | a name with a character outside `[a-z0-9_-]` is not converted: `/[Id].tsx` gives `/[Id]` |
| Pages.GetPages | src/common/get-pages.ts:49-57 | at most one page per file |
| Pages.GetPagesFromFiles | src/common/get-pages.ts:16-57 | every page has the route of one of the files and the handler that file's import gave |
| Pages.GetPagesKeepsLoaded | src/common/get-pages.ts:51-57 | when every file has a handler, every file gives its page, in file order |
| Pages.GetPagesAppend | src/common/get-pages.ts:16-57 | the pages of two file lists are the pages of each, in order |
| Pages.GetPagesDropsUnloaded | src/common/get-pages.ts:51 | a file without a handler contributes nothing |
| App.EmptyTables | src/application.tsx:26-32 | the five tables exist and are empty |
| App.Register | src/application.tsx:83-87 | a successful registration keeps every table free of duplicate patterns |
| App.RegisterAddsOneRoute | src/application.tsx:85-86 | registration throws `This path already has a handler bound` exactly when the path is already bound under that key; otherwise it appends exactly that entry to that key's table and leaves the other tables alone |
| App.RegisterTwiceFails | src/application.tsx:85 | registering the same key and path a second time always throws |
| App.ResolveFindsAcceptingRoute | src/application.tsx:153-154 | a route is found exactly when one in the `'*'` table or the method's table accepts the path; it comes from one of them, and from `'*'` whenever `'*'` has an accepting route |
| App.FreshLiteralRouteIsFound | src/application.tsx:153 | a literal path just registered for a method is what that method and path resolve to, unless an earlier route already accepts the path |
| App.WildcardTableShadowsSpecificRoute | src/application.tsx:153 | the `'*'` table takes precedence over specificity: `/:name` registered with `all` beats a literal route registered with `get` |
| App.ReplyTo | src/application.tsx:193 | a `Response` returned by the handler is sent unchanged; any other value goes to serialisation |
| App.FetchCallsAcceptingHandler | src/application.tsx:153-162 | with no accepting route the reply is the 404 text response. Otherwise the handler of a registered route that accepts the path is called, and it is a `'*'` route whenever one accepts. It gets the parameters `extractPathParams` gives for the raw path and that route's pattern. These are present exactly when the raw path matches the pattern and the pattern has a parameter |
| App.LenientMatchHasNoParams | src/application.tsx:162 | because parameters come from the raw path, a lenient hit of `/seg/` on `/:name` calls the handler with no parameters |
| App.LenientMatchExample | src/application.tsx:162 | `/abc/` on `/:id` calls the handler with no parameters |
| App.KeyOfName | src/application.tsx:85 | `'*'` and each of `GET`, `POST`, `PUT` and `DELETE` name exactly their own table, and every other name, `undefined` included, names none |
| App.FromGetPages | src/common/get-pages.ts:53-56 | the pages of `getPages` carry a path and a handler and no method |
| App.RegisterPage | src/application.tsx:253-264 | registering one page, with a caught throw, keeps the tables well formed |
| App.RegisterPages | src/application.tsx:252-265 | the loop over the pages keeps the tables well formed |
| App.RegisterPagesOnlyAppends | src/application.tsx:252-265 | page loading only appends: every table keeps its routes in order and gains at most one route per page |
| App.PagesWithoutMethodAreSkipped | src/application.tsx:258-264 | a page without a usable method throws inside the `try`, is skipped, and the rest are still processed |
| App.FailingPageIsSkipped | src/application.tsx:252-265 | a page whose registration throws, because its method name has no table or its path is already bound, leaves the tables unchanged, and the later pages are registered as if it were absent |
| App.LoadedPagesAreNeverRegistered | src/application.tsx:258 | the pages `getPages` yields never reach the route tables |
| App.PageWithMethodIsRegistered | src/application.tsx:258 | a page with a method name and a free path is appended to that method's table |
| App.StartOutcome | src/application.tsx:129-130 | `start` succeeds exactly from `STOPPED`, ends in `STARTED`, and otherwise throws `Application cannot be started more than once` |
| App.StateAfterStop | src/application.tsx:273-289 | `stop` changes the state exactly when it is `STARTED`, and then to `STOPPED` |
| App.LifeCycle | src/application.tsx:127-141 | starting twice fails, stopping is idempotent, and a stopped application starts again |
| App.Application.constructor | src/application.tsx:26-35 | a new application has five empty tables and is `STOPPED` |
| App.Application.Method | src/application.tsx:83-87 | the tables become what `Register` gives, or stay unchanged with the error returned; the state is untouched |
| App.Application.All | src/application.tsx:92-94 | registers under `'*'` |
| App.Application.Get | src/application.tsx:99-101 | registers under `GET` |
| App.Application.Post | src/application.tsx:106-108 | registers under `POST` |
| App.Application.Put | src/application.tsx:113-115 | registers under `PUT` |
| App.Application.Delete | src/application.tsx:120-122 | registers under `DELETE` |
| App.Application.LoadPages | src/application.tsx:242-267 | the loop leaves the tables as `RegisterPages` gives them, each throwing page skipped |
| App.Application.StartWebServer | src/application.tsx:228 | the state becomes `STARTED` |
| App.Application.Start | src/application.tsx:127-141 | throws and changes nothing unless `STOPPED`; otherwise passes through `STARTING`, loads the pages (which registers none) and ends `STARTED` |
| App.Application.Stop | src/application.tsx:272-293 | does nothing unless `STARTED`; otherwise passes through `STOPPING` to `STOPPED` |
| App.Application.Fetch | src/application.tsx:149-193 | the reply is what `FetchReply` gives: the `'*'` table first, then the method's, then the 404 response; parameters from the raw path; a `Response` result passed through |

## Left out

- Server plumbing is not modelled: `Bun.serve`, URL parsing, body decoding, the port choice, the SIGINT hook, and the wait in `stop` until open requests drain (src/application.tsx:143-147, 163-176, 223-226, 278-287). They are I/O, asynchronous and concurrent. `Stop` performs `STOPPING` and then `STOPPED` in one call, so the window in which a concurrent `start` sees `STOPPING` is not modelled.
- App.Application.Fetch: a handler result that is not a `Response` becomes `Render(value)`. The JSON or JSX serialisation and its content type (src/application.tsx:195-219) depend on React and on the JavaScript runtime.
- App.Application.Fetch: the request record carries only the parameters, the path and the method. The query, headers, `safeHeaders` and body (src/application.tsx:163-189) are glue built from I/O.
- Requests with a method outside `GET`, `POST`, `PUT` and `DELETE` are not modelled. The code reads `this.handlers[method]` without a check, so such a request throws when the `'*'` table has no match.
- Logging is not modelled: the logger construction and every log call, including the dump in src/common/get-handler-for-url.ts:23-27.
- Filesystem and environment access are inputs, not operations. The pages-directory search (src/application.tsx:236-240), the directory walk of src/common/get-all-files.ts, src/common/get-commit-hash.ts and the dynamic `import` of each page file are not modelled. `GetPages` takes the files and their import results, and `Start` takes the pages found.
- Asynchrony is not modelled: `getPages` maps files through `Promise.all`, and its order and results are taken as given.
- Compile-time types are not modelled: `ExtractParams`, the handler types of src/common/types.ts and src/index.tsx have no run-time behaviour.
- App.Application.Fetch: the handler is modelled as a total function `invoke`. A handler that throws, or a promise that rejects (src/application.tsx:176-188), makes the fetch callback reject, and that error path is not modelled.
- PathParams.ExtractPathParams: the result is modelled as a map from names to values. The source builds a plain JavaScript object (src/common/extract-params.ts:17-19), and assigning to the key `__proto__` goes to the prototype setter, which ignores a string. So for the pattern `/:__proto__` the source returns `{}`, while the model, and PathParamsKeys, bind `__proto__`. The other `Object.prototype` names are ordinary own keys when assigned, and behave as the model says.
- Interceptors, `use`, error handlers and `500` responses appear in tests only. The `Application` class modelled here implements none of them.
- Regular-expression metacharacters in literal pattern text other than `.`, `*` and `:` (such as `+`, `?`, `(`, `[`, `$`) are not modelled. The model matches them literally.
- Case folding and Unicode normalisation are not modelled. Strings are sequences of characters.
- The memory-measurement test (src/performance) is not modelled. It has no behaviour to model.

# http_router `router!` — a Dafny model

`http_router` is an abstract HTTP router for Rust. Its `router!` macro
(src/lib.rs) takes an ordered list of routes of the form
`METHOD /segment/{name: Type}/... => handler` plus a default handler written
`_ => default`. It expands into a closure `(request, method, path) -> answer`.

The closure tries the routes in order. For each route it:
1. skips the route when the method differs;
2. builds the regular expression `^/lit/([\w-]+)/...$` from the route's segments;
3. matches the path against it and collects the captures in order;
4. parses each capture as its placeholder's type;
5. calls the handler with the request and the parsed values.

A route whose method, path or any capture does not fit answers nothing, and
the next route is tried. When no route answers, the default handler is called.

The model has eight modules, one file each:

- `Wrappers` (wrappers.dfy): `Option`.
- `Routes` (routes.dfy):
  - the nine methods;
  - segments: literal or `{name: Type}` placeholder;
  - the character classes `\w` and `[\w-]`;
  - the route well-formedness the macro enforces at compile time;
  - `CallTypes`: the type each capture is parsed with.
- `Pattern` (pattern.dfy):
  - `BuildPattern` builds the pattern string step by step, as the macro does;
  - a token reading of that string (`^`, `$`, literal characters, the group `([\w-]+)`);
  - the regex matching relation over tokens, with unanchored search as the `captures` call performs it.
- `Matcher` (matcher.dfy):
  - a direct matcher: split the path on `/` and compare piece by piece;
  - a proof that it agrees with the regex reading of the built pattern;
  - `Instantiate`, which writes captures back into a route's path.
- `Coerce` (coerce.dfy):
  - `String` parameters, which always succeed;
  - `u32` parameters, following `u32::from_str`: one optional leading `+`, digits only, checked accumulation that fails on overflow.
- `Dispatch` (dispatch.dfy):
  - one route's answer;
  - first-match-wins over the table;
  - the three entry arms of the macro (routes only, home route first, default only); a lone `_ => default` is matched by the routes-only arm with no routes, so the default-only arm (src/lib.rs:203-207) is never selected, and the model's `DefaultOnly` answers what `General` with no routes answers;
  - the imperative `Dispatch` loop, proved against `Answer`.
- `Examples` (examples.dfy): the routers of the crate's tests (`test_home`, `test_fallback`, `test_verbs`, `test_params_number`, `it_works`) with the answers those tests expect.
- `Benchmark` (bench.dfy): the router of benches/router.rs with the answers its thirteen cases expect.

Two behaviours of the code are modelled as written:

- **Seventh parameter.** The seven-placeholder arm (src/lib.rs:96) passes
  `{$id6 : $ty6 : 6}` for the last argument. The seventh capture is therefore
  parsed with the sixth placeholder's type. `Routes.CallTypes` states this.
  `Examples.SeventhCaptureUsesSixthType` shows a route whose seventh
  `String` capture `x` is refused because the sixth placeholder is a `u32`.
  Since the expansion calls `parse::<$ty6>` for the seventh argument, Rust
  compiles such a router only when the handler's seventh parameter has the
  sixth placeholder's type; with a `String` seventh parameter it is a type
  error. The model's handlers are untyped, `(C, seq<Value>) -> R`, so they do
  not capture this; the example shows which parse the seventh capture meets.
- **No pattern cache.** src/lib.rs:115 compiles the pattern afresh on every
  call of every route whose method matches; the model keeps no cache state.
  `Pattern.BuildPattern` is that per-call construction.

## Model

| member | source | states |
|---|---|---|
| Routes.CallTypes | src/lib.rs:52-97 | one parse type per placeholder; the i-th capture gets the i-th declared type, except that with seven placeholders the seventh gets the sixth's type |
| Pattern.BuildPattern | src/lib.rs:102-114 | the string pushed step by step is `^`, then `/` plus the literal or `([\w-]+)` per segment, then `/` if nothing was pushed, then `$` |
| Pattern.ParsePatternText | src/lib.rs:102-115 | the built string of a well-formed route reads as exactly the anchored token sequence: start, `/`-separated literal characters and groups, end |
| Matcher.MatchSegments | src/lib.rs:106-117 | a match yields exactly one capture per placeholder, each a non-empty run of `[\w-]` |
| Matcher.MatchSegmentsIff | src/lib.rs:102-117 | the matcher returns captures `caps` exactly when they fit the placeholders and the path is the route with `caps` written in, in order |
| Matcher.MatchAgreesWithPattern | src/lib.rs:102-117 | the built regex captures `caps` somewhere in the path if and only if the direct matcher returns `caps` |
| Matcher.RootMatchesOnlySlash | src/lib.rs:112-116 | the zero-segment route's pattern `^/$` matches only the path `/`, with no captures |
| Matcher.ExtraSegmentRejected | src/lib.rs:114-116 | a path that matches a route no longer matches once another `/segment` is appended (end anchor) |
| Matcher.MissingSegmentRejected | src/lib.rs:102-116 | a path that matches a route does not match a route that extends it by further segments |
| Matcher.SegmentCountDetermined | src/lib.rs:102-116 | two routes that both match a path have the same number of segments |
| Coerce.Accumulate | src/lib.rs:46 | the checked digit loop succeeds exactly on digit strings whose decimal value with the running prefix stays within 4294967295, and returns that value |
| Coerce.ParseU32 | src/lib.rs:45-49 | `u32` parsing succeeds exactly when the text, after one optional `+`, is a non-empty digit string of value at most 4294967295, and returns that value |
| Coerce.ParseU32OnRouteText | src/lib.rs:45-49 | on a capture (no `+` can occur) parsing succeeds exactly on digit strings of value at most 4294967295 |
| Coerce.ParseDecimal | src/lib.rs:45-49 | every `u32` written in decimal parses back to itself |
| Coerce.CoerceParam | src/lib.rs:45-49 | a successful parse has the placeholder's type |
| Coerce.CoerceShow | src/lib.rs:45-49 | a value of the placeholder's type, written as text, parses back to itself |
| Coerce.ShowIsRouteText | src/lib.rs:45-49 | every number, and every text a placeholder can capture, is written as text that `([\w-]+)` captures whole |
| Coerce.CoerceAll | src/lib.rs:52-57 | all captures convert exactly when each converts with its own type; the i-th argument is the i-th capture converted |
| Dispatch.RouteAnswer | src/lib.rs:100-122 | a route whose method and path match answers exactly when every capture parses, and then answers the handler applied to the parsed captures in order |
| Dispatch.MethodMismatchSkipped | src/lib.rs:101 | a route with another method answers nothing and removing it changes no dispatch result |
| Dispatch.SegmentCountMismatchSkipped | src/lib.rs:102-116 | a route with another segment count than a route the path matches answers nothing, and removing it changes no dispatch result |
| Dispatch.CoercionFailureFallsThrough | src/lib.rs:45-49 | a matched route with a capture that does not parse answers nothing, so dispatch continues with the later routes |
| Dispatch.FirstMatchSnoc | src/lib.rs:169-177 | adding a route at the end changes the result only if no earlier route answered |
| Dispatch.FirstMatchNone | src/lib.rs:168-178 | dispatch finds no answer exactly when every route answers nothing |
| Dispatch.FirstAnswerWins | src/lib.rs:168-178 | the first route that answers gives the result, whatever later routes would answer |
| Dispatch.LaterRoutesIgnored | src/lib.rs:169-177 | once some route has answered, appending routes leaves the result unchanged |
| Dispatch.SilentRouteSkipped | src/lib.rs:169-177 | a route that answers nothing can be removed without changing the result |
| Dispatch.ReverseRouteAnswers | src/lib.rs:100-122 | writing well-typed arguments into a route's path and dispatching it to that route calls the handler with exactly those arguments |
| Dispatch.FallbackWhenNoRouteAnswers | src/lib.rs:178 | when no route answers, the router answers what the default handler answers |
| Dispatch.ReachedIffNoAnswer | src/lib.rs:170 | a route is tried exactly when no earlier route answered |
| Dispatch.LoopStep | src/lib.rs:169-177 | one turn of the loop evaluates the next route only while no result is set, and keeps the result equal to the first answer so far |
| Dispatch.Dispatch | src/lib.rs:166-207 | the closure returns the first answering route's answer, or else the default's; it tries exactly the routes before and including the first that answers, for all three entry arms |
| Examples.HomeAnswers | src/lib.rs:226-239 | in the `test_fallback` router, `GET /` reaches the home route and `PATCH /` the default |
| Examples.HomeOnlyAnswers | src/lib.rs:215-223 | in the `test_home` router, `GET /` reaches the home route and every other request the default |
| Examples.UsersAnswers | src/lib.rs:226-237 | in the `test_fallback` router, `POST /users` reaches the users route and `GET /users` the default |
| Examples.PrefixOfUsersMisses | src/lib.rs:226-238 | in the `test_fallback` router, `GET /us` (a prefix of a literal) reaches the default |
| Examples.VerbRoutesAnswer | src/lib.rs:243-276 | in a table of one `/users` route per listed method, each listed method reaches its own route |
| Examples.VerbsAnswer | src/lib.rs:243-276 | in the `test_verbs` router every method reaches the `/users` route declared for it: the route table answers with that method, so the default is never called |
| Examples.ParamsAnswer | src/lib.rs:279-309 | in the `test_params_number` router, the path with `n` ids (0 to 7) reaches the route with `n` placeholders, whose handler gets the ids in order (`id1id2`) |
| Examples.AccountsListing | src/lib.rs:334-344 | `GET /users/transactions/<id>/accounts` reaches the second route, for any transaction id |
| Examples.AccountsNumbered | src/lib.rs:334-345 | `POST .../accounts/<n>` reaches the first route for every `u32` `n` |
| Examples.AccountsNotNumbered | src/lib.rs:334-346 | `POST .../accounts/<text>` with text that is not a `u32`, such as `dgdfg`, falls through to the default |
| Examples.AccountsUnknown | src/lib.rs:334-347 | `GET /users/transact` reaches the default |
| Examples.SeventhCaptureUsesSixthType | src/lib.rs:94-97 | with a `u32` sixth and a `String` seventh placeholder, the seventh capture `x` is parsed as a `u32` and refused |
| Benchmark.BenchRouteReached | benches/router.rs:26-63 | every route of the benchmark router, given well-typed arguments written into its path, answers its own handler applied to those arguments (the nine positive cases) |
| Benchmark.BenchNotAUser | benches/router.rs:26-64 | `DELETE /users/<id>/transactions/<hash>` with an id that is not a `u32`, such as `5d34`, reaches the default `404` |
| Benchmark.BenchPostTransaction | benches/router.rs:26-65 | `POST /users/<id>/transactions/<hash>` reaches the default `404` |
| Benchmark.BenchUnknownPath | benches/router.rs:26-66 | `GET /u` reaches the default `404` |
| Benchmark.BenchRootOtherMethod | benches/router.rs:26-67 | `/` with any method but `GET`, such as `POST`, reaches the default `404` |

## Left out

- Unicode in `\w`: the regex crate's `\w` is Unicode-aware. The model uses the ASCII word characters (letters, digits, `_`).
- The regex engine: the `regex` crate is not modelled. Its role is a token reading of the built pattern with a regex matching relation over those tokens, proved equal to the direct matcher.
- Literal and placeholder names: these are Rust identifiers. The model takes ASCII identifiers: word characters, not starting with a digit, and not `_` alone. Raw and non-ASCII identifiers are left out.
- Parameter types: only `String` and `u32` are modelled. The macro accepts any `FromStr` type, but these are the ones the crate's tests and examples use.
- Compile-time rejection: routes the macro rejects at compile time (a zero-segment route after the first, more than seven placeholders, a non-identifier segment) are characterised by `Dispatch.ValidRouter` rather than modelled as errors; the dispatch lemmas do not need it and hold for every router.
- Handlers and the request value: handler bodies and the request are abstract. A handler is a function of the context and the parsed arguments.
- Handler parameter types: Rust checks each handler's parameter types against the parse calls at compile time. Model handlers take an untyped `seq<Value>`, so a router Rust refuses, such as a seven-placeholder route whose handler's seventh parameter is a `String` while the sixth placeholder is a `u32`, is still a model router.
- Handler panics: the `unreachable!()` defaults in the tests are not modelled. In the `test_home` and `test_params_number` routers they answer the text `unreachable`; in the `test_verbs` router, whose answers are methods, the default answers `GET`, and `Examples.VerbsAnswer` states that the route table itself answers, so the default is never reached.
- Concrete test strings: the test and benchmark cases are proved for every id, hash and `u32` of the same shape, not for each literal path. For example, `Benchmark.BenchRouteReached` covers `/users/534/transactions/0x234` as the number 534 written in decimal, but the equality of that written path with the literal string is not proved.
- Adaptors: src/middleware.rs, the conversion from hyper's method type (src/method.rs) and the hyper example application are not part of this model. They adapt hyper requests to the closure and do not route.
- Concurrency: the code has no shared state and no cache of compiled patterns, so there is no locking to model.
- Benchmark: the timing loop and the `rand` crate in benches/router.rs are not modelled.
- Dispatch.Dispatch: the `tried` count of evaluated routes is a ghost output. Which routes run is stated about it, not observed at run time.

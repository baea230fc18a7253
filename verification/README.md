# fp-ts-lambda-routing in Dafny

This project models the request-routing core of `fp-ts-lambda-routing`, a small
TypeScript library. The library routes AWS API Gateway events (REST v1 and HTTP v2
payloads) to handler functions:

- **`Helpers`** (`helpers.dfy`) covers reading the event. It tells a v2 event from a
  v1 event (`isApiGatewayEventV2`). It then pulls out the request path and HTTP
  method (`findPathInEvent`) under JavaScript truthiness: an absent field and an
  empty string are treated alike.
- **`RouteFinder`** (`route_finder.dfy`) covers choosing the route for an endpoint
  table keyed by route and then by method.
  - `matchSingleRoute` adds a leading `/` to both the path and the route before
    comparing them. A route that ends in `*` matches by prefix, after its *first*
    `*` is removed. Any other route matches by equality.
  - `matchRoute` filters the table in iteration order and folds the matches with
    `getBestMatchingPath`, a reduce whose initial accumulator is empty. A route whose
    key contains no `*` anywhere replaces the current best. A route with a `*` replaces
    it only when the new key is strictly longer. An empty winning key gives
    "no route".
  - `matchMethod` looks up the HTTP method in the chosen route's method table.
    `searchEndpoints` chains the two steps.
- **`Router`** (`router.dfy`) covers the synchronous `router`/`internalRouter`. It
  takes `event.path` verbatim and looks it up in a flat record. On a miss it builds
  `Left(errorConstructor("No route found for path " + path))`. A missing path is
  rendered as `undefined`, and the string `"undefined"` is also the key that gets
  looked up.
- **`Table`** (`table.dfy`) is a JavaScript object seen through `Object.entries`: a
  sequence of `(key, value)` pairs in iteration order, where lookup takes the first
  hit. **`Strings`** (`strings.dfy`) has the string primitives the source uses:
  `startsWith`, `endsWith`, and `replace` with a string pattern, which replaces only
  the first occurrence. **`Fp`** (`fp.dfy`) has `Option` and `Either`.
- **`RouteFinderExamples`** (`route_finder_examples.dfy`) restates the repository's
  route-finder scenarios as lemmas about the model, together with the corner cases
  of the selection rule.

The route choice is proved against an independent, declarative reference,
`RouteFinder.Selected`. It describes the chosen index as follows:
- it comes at or after the last matching key without a `*`;
- no matching key after that point is longer;
- every matching key before it in that window is strictly shorter.

`SelectedUnique` shows that the reference picks at most one index.
`SelectionIsSelected` shows that the fold picks exactly that index.

Behaviour of the code that the model keeps as written:
- Route choice depends on table order. The library's own test at
  __tests__/routeFinderTest.ts:190 is titled "prefering non-wildcard, wherever it
  appears". Yet the fold at src/routeFinder.ts:8-11 lets a longer wildcard listed
  *after* a matching exact route replace it. With `/foo/one` then `/foo/one*`, the
  path `/foo/one` goes to `/foo/one*`, whose key is 9 characters long against 8.
  `WildcardAfterExactWins`, `FooOneWildcardAfterExactWins` and
  `LongerWildcardAfterExact` state this. Among wildcards of equal length, the first
  one listed wins (`EqualLengthWildcardsFirstWins`).
- The v2 test at src/helpers.ts:7 uses falsiness. An event whose flat `path` is
  the empty string, and whose nested path is non-empty, is therefore read as v2
  (`V2Discrimination`).
- src/router.ts:15 builds the miss message as `"No route found for path "`
  followed by the path, and `NotFoundMessage` has exactly that text.

## Model

| member | source | states |
|---|---|---|
| Strings.RemoveFirst | src/routeFinder.ts:21 | `replace("*", "")`: a string without the character is returned unchanged, and otherwise exactly one character is removed; `RemoveFirstAt` says which one |
| Strings.RemoveFirstAt | src/routeFinder.ts:21 | replacing `*` in `a + "*" + b`, where `a` has no `*`, yields `a + b`: only the first star is removed |
| Strings.RemoveFirstOfTrailing | src/routeFinder.ts:20-21 | for a route whose only `*` is its last character, removing the first star gives the stem |
| Table.Lookup | src/routeFinder.ts:26-33 | lookup by key gives None exactly when no entry has the key; otherwise it gives the value of the first entry with that key |
| Table.LookupEntry | src/router.ts:13 | with distinct keys, looking up an entry's own key gives that entry's value |
| RouteFinder.WithForwardSlash | src/routeFinder.ts:17-18 | the normalised path or route always starts with a slash, and a string that already starts with one is returned unchanged |
| RouteFinder.WithForwardSlashIdempotent | src/routeFinder.ts:17-18 | normalising changes nothing on an already slashed string, is idempotent, and `foo` and `/foo` normalise alike |
| RouteFinder.MatchSingleRoute | src/routeFinder.ts:16-24 | the matcher itself, with no contract of its own; `ExactRouteMatch`, `WildcardRouteMatchFirstStar`, `WildcardRouteMatch` and `SlashInsensitive` characterise it |
| RouteFinder.SlashInsensitive | src/routeFinder.ts:16-18 | whether a path matches a route does not depend on a leading slash on either of them |
| RouteFinder.ExactRouteMatch | src/routeFinder.ts:20-23 | a route not ending in `*` matches exactly the paths that equal it after slash normalisation |
| RouteFinder.WildcardRouteMatch | src/routeFinder.ts:20-21 | a star-free stem followed by `*` matches exactly the paths whose normalisation starts with the normalised stem |
| RouteFinder.WildcardRouteMatchFirstStar | src/routeFinder.ts:20-21 | a key ending in `*`, whatever other stars it holds, matches exactly the paths whose normalisation starts with the normalised key minus its first `*` |
| RouteFinder.GetBestMatchingPath | src/routeFinder.ts:5-14 | one fold step either keeps the accumulator or takes the current entry, and never leaves the accumulator empty once an entry has been seen |
| RouteFinder.Best | src/routeFinder.ts:44 | the reduce from the empty accumulator, with no contract of its own; `BestIsElement` and `SelectionIsSelected` characterise it |
| RouteFinder.BestIsElement | src/routeFinder.ts:44 | the reduce over a sequence is empty exactly when the sequence is, and is otherwise one of its elements |
| RouteFinder.Matching | src/routeFinder.ts:42-43 | the filter keeps exactly the entries whose key matches, and only those |
| RouteFinder.SelectionIsMatchingEntry | src/routeFinder.ts:42-44 | for any matcher, the fold over the matches is None exactly when nothing matches; otherwise it is an entry of the table whose key matches |
| RouteFinder.SelectedUnique | src/routeFinder.ts:8-11 | the declarative winner rule (after the last exact match; longest; first among equals) picks at most one index |
| RouteFinder.SelectionIsSelected | src/routeFinder.ts:5-14 | when anything matches, the filter-and-reduce result is the entry at the unique index the declarative winner rule picks |
| RouteFinder.MatchRoute | src/routeFinder.ts:39-47 | a found route is an entry of the table whose key is non-empty and matches the path |
| RouteFinder.MatchRouteIsWinner | src/routeFinder.ts:42-46 | matchRoute is None exactly when nothing matches or the winning key is empty; otherwise it is the winning entry |
| RouteFinder.LastExactWins | src/routeFinder.ts:8-11 | a matching exact key wins when every later match is a wildcard no longer than it; an empty such key gives None |
| RouteFinder.ExactBeatsNoLongerWildcards | src/routeFinder.ts:8-11 | an exact match beats every competing wildcard that is not longer than it, in either table order |
| RouteFinder.LongerWildcardAfterExact | src/routeFinder.ts:10-11 | when every match after a matching exact key is a wildcard and one of them is longer than that key, the result is a wildcard at least that long, so the exact route loses |
| RouteFinder.LongerWildcardWinsAfter | src/routeFinder.ts:8-11 | for any matcher, a longer matching wildcard after the last matching exact key makes the fold pick a wildcard at least that long |
| RouteFinder.OnlyWildcardsLongestFirst | src/routeFinder.ts:10-11 | when all matches are wildcards, the result has the greatest key length and is the first match of that length |
| RouteFinder.GetFunctionPerMethod | src/routeFinder.ts:35-37 | the projection onto the method table, with no contract of its own; `SearchEndpointsFindsHandler` and `MethodOnlyFromSelectedEntry` characterise its use |
| RouteFinder.MatchMethod | src/routeFinder.ts:26-33 | the method lookup is None exactly when the method is not a key of the table; otherwise it returns a handler stored under that method |
| RouteFinder.SearchEndpoints | src/routeFinder.ts:49-55 | a handler is found only when a route was selected, and it is a handler in that route's method table under the requested method |
| RouteFinder.SearchEndpointsFindsHandler | src/routeFinder.ts:49-55 | with a route selected and distinct method keys, the handler found is the one stored under the requested method |
| RouteFinder.MethodOnlyFromSelectedEntry | src/routeFinder.ts:51-53 | a method missing from the selected route's table is not found, even when another matching route has it |
| RouteFinder.NoRouteNoHandler | src/routeFinder.ts:46-53 | when matchRoute finds no route, no handler is found for any method |
| Helpers.FindPathInEvent | src/helpers.ts:10-21 | an extracted path and method are non-empty; v2 events yield the nested `requestContext.http` fields and v1 events yield the flat fields |
| Helpers.IsApiGatewayEventV2 | src/helpers.ts:6-8 | the v2 test, with no contract of its own; `V2Discrimination` characterises it |
| Helpers.V2Discrimination | src/helpers.ts:6-8 | an event is v2 exactly when its flat path is missing or empty and its nested path is present and non-empty |
| Helpers.FindPathInEventExactly | src/helpers.ts:10-21 | the extraction gives a given path and method exactly when the branch for the event's kind has both fields truthy and equal to them |
| Helpers.V2WithoutMethodHasNoFallback | src/helpers.ts:11-15 | a v2 event without a nested method yields nothing, even when flat fields are present |
| Helpers.FlatPathMakesContextIrrelevant | src/helpers.ts:6-20 | with a truthy flat path, the request context is ignored, and the result depends only on the flat method |
| Helpers.EmptyEventHasNoPath | src/helpers.ts:6-20 | an event whose flat and nested paths are both absent or empty yields nothing, among them the empty event and the one with an empty `requestContext` |
| Helpers.ShapesAreRead | src/helpers.ts:10-21 | well-formed v2 and v1 events yield their own path and method |
| Router.PathText | src/router.ts:12-15 | the path as it is interpolated and used as a key, with no contract of its own; `MissingPathMessage` and `MissingPathReadsUndefinedKey` characterise the missing-path case |
| Router.NotFoundMessage | src/router.ts:15 | the miss message is the fixed 24-character prefix followed by the path text |
| Router.RightEndpoint | src/router.ts:12-13 | the endpoint lookup finds nothing exactly when no key equals the event's path text |
| Router.InternalRouter | src/router.ts:11-16 | a path with no endpoint produces Left of the error constructor applied to the miss message |
| Router.Router | src/router.ts:18-21 | `router` returns `internalRouter` with its arguments fixed, with no contract of its own; `RouterHit` and `RouterMiss` characterise it |
| Router.RouterHit | src/router.ts:11-21 | with distinct keys, an event whose path is a key is answered by that key's handler applied to the event |
| Router.RouterMiss | src/router.ts:15 | an event whose path is not a key gives Left of "No route found for path " plus the path |
| Router.MissingPathMessage | src/router.ts:12-15 | an event without a path reports "No route found for path undefined" |
| Router.MissingPathReadsUndefinedKey | src/router.ts:12-13 | an event without a path is handled by an endpoint registered under the key "undefined" |
| Router.MethodIrrelevant | src/router.ts:11-13 | the router's choice of endpoint ignores the HTTP method |
| Router.NoSlashNormalisation | src/router.ts:13 | unlike the route finder, the router does not add a leading slash: "foo" misses an endpoint registered as "/foo" |
| RouteFinderExamples.UnknownPath | __tests__/routeFinderTest.ts:12-32 | an unregistered path finds no handler |
| RouteFinderExamples.UnknownMethod | __tests__/routeFinderTest.ts:34-54 | an unregistered method on a registered path finds no handler |
| RouteFinderExamples.RegisteredPathAndMethod | __tests__/routeFinderTest.ts:56-76 | a registered path and method find their handler |
| RouteFinderExamples.MissingForwardSlashes | __tests__/routeFinderTest.ts:78-142 | a missing leading slash on the route, the path or both still finds the handler |
| RouteFinderExamples.WildcardAnswers | __tests__/routeFinderTest.ts:144-164 | a wildcard route answers a path under it, per method |
| RouteFinderExamples.ExactPreferredAfterWildcard | __tests__/routeFinderTest.ts:166-188 | an exact route listed after a shorter wildcard is preferred |
| RouteFinderExamples.ExactPreferredBeforeWildcard | __tests__/routeFinderTest.ts:190-212 | an exact route listed before a shorter wildcard is preferred |
| RouteFinderExamples.LongerWildcardPreferredFirst | src/routeFinder.ts:10-11 | for any nested stems, the longer wildcard wins when it is listed first |
| RouteFinderExamples.LongerWildcardPreferredSecond | src/routeFinder.ts:10-11 | for any nested stems, the longer wildcard wins when it is listed second, the order of the longer-path test |
| RouteFinderExamples.SelectionLongerSecond | src/routeFinder.ts:8-11 | for any matcher, in three entries where only the first two match, a longer wildcard second is the fold's result |
| RouteFinderExamples.LongerWildcardPreferredAmid | src/routeFinder.ts:39-47 | a longer nested wildcard listed second wins when a non-matching key follows the two wildcards |
| RouteFinderExamples.LongerPathRoute | __tests__/routeFinderTest.ts:214-236 | the test's three-entry table routes `/foo/more/specific/path` to the wildcard on `/foo/more/specific/` |
| RouteFinderExamples.LongerPathPreferred | __tests__/routeFinderTest.ts:214-236 | in the test's own table, POST on `/foo/more/specific/path` reaches `fooFunction` |
| RouteFinderExamples.WildcardAfterExactWins | src/routeFinder.ts:8-11 | for any star-free slashed path `p`, the table `p` then `p*` routes `p` to `p*`, while `p*` then `p` routes it to `p` |
| RouteFinderExamples.FooOneWildcardAfterExactWins | src/routeFinder.ts:8-11 | `/foo/one` then `/foo/one*` routes the path `/foo/one` to the wildcard |
| RouteFinderExamples.EqualLengthWildcardsFirstWins | src/routeFinder.ts:10 | of two matching wildcards of equal length, the one listed first wins |
| RouteFinderExamples.AbFirstWins | src/routeFinder.ts:10 | `/a*` and `ab*` both match `/ab`, and whichever is listed first wins |
| RouteFinderExamples.EmptyKeyHidesMatch | src/routeFinder.ts:46 | an empty exact key that wins the fold turns a real wildcard match into "no route" |
| RouteFinderExamples.ReplaceRemovesFirstStar | src/routeFinder.ts:20-21 | in `/a*b*` only the first star is removed, so the route needs the literal prefix `/ab*`: it matches `/ab*` and not `/a*b/x` |
| RouteFinderExamples.InnerStarMatchesLiterally | src/routeFinder.ts:20-23 | a key with an inner star but no trailing star is compared literally, yet counts as a wildcard for selection |
| RouteFinderExamples.DoubleStarMatches | src/routeFinder.ts:20-21 | `/a**` becomes the prefix `/a*` and matches `/a*b` |
| RouteFinderExamples.InnerStarKeyIsNotExact | src/routeFinder.ts:8-11 | an exact-looking key with an inner star does not reset the choice, so a longer-or-equal earlier wildcard keeps the win |

## Left out

- Handlers are opaque values. Running them is out of scope, as are the `TaskEither` variant and asynchronous composition. In the router, handlers are total functions from event to `Either`.
- The package entry point that wires `findPathInEvent` to `searchEndpoints` is not part of this model. Neither are the type aliases of `src/types.ts`, beyond the shapes used here.
- JavaScript object semantics are reduced to a key/value sequence in iteration order:
  - lookups that reach the prototype chain (keys such as `constructor`) are not modelled;
  - the engine's reordering of integer-like keys is not modelled, since the table is taken as already in `Object.entries` order.
- `O.fromNullable` on a stored handler is not modelled. Stored handlers are never `null` or `undefined`, and a table value is always a real handler. The router's truthiness test on the looked-up handler is modelled as presence for the same reason.
- Event fields are modelled as optional strings. Non-string values are not modelled. A `null` path, which JavaScript would render as `null`, is not modelled either; only "absent" is, which renders as `undefined`.
- String length is the number of Dafny characters. The source counts UTF-16 code units, so keys outside the Basic Multilingual Plane could compare differently by length.
- The `!acc` branch of the fold step is unreachable, because the initial accumulator is an empty array whose key is `undefined`. The model starts the fold from `None` instead, with best length 0.

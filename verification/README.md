# mockwebserver-dsl request routing, modelled in Dafny

This project models the request-routing core of mockwebserver-dsl, a Kotlin
DSL for declaring mock HTTP routes on top of OkHttp's `MockWebServer`, and
proves properties of that model. A test declares routes. Each route pairs a
request matcher with a response producer. A dispatcher answers every incoming
request from the most recently declared matching route. Resolutions are
reported to listeners, which record or count them for assertions. Any request
that no route answers makes the test fail at the end.

The modules follow the Kotlin files:

| module | file | what it holds |
|---|---|---|
| `QueryMatching` | `QueryMatcher.kt` | Splitting a raw query into (name, value) pairs, as the parser loop does. The pool-consuming query matcher, with and without `exactly`. The string-pair helpers. |
| `RequestMatching` | `RequestMatcher.kt` | The builder and its "define each field once" rule. The built conjunction of property matchers. The method and path shorthands. |
| `Routes` | `Route.kt` | A route, and its `resolve`. |
| `Routings` | `Routing.kt` | The persistent, one-off and composite registries, with their `route`, `remove`, `clear` and `resolve`. |
| `Observing` | `RoutingObserver.kt` | The listener lists with collect-and-continue dispatch. The recording and counting decorators, and `record()`/`count()`. |
| `AssertionModes` | `AssertionMode.kt` | The `times`, `index` and `last` modes. |
| `RouteAssertions` | `RouteAssertions.kt` | The immediate-or-deferred `assert` helper, with `assertCalled` and `assert`. |
| `Dispatching` | `RoutingDispatcher.kt` | `dispatch`, `after`, `await` and `unlock`, plus a run of test operations. |

`Basics`, `Http` and `Text` hold shared pieces:

- `Option` and `Result`;
- the request and response records;
- character-level string operations.

Modelling choices:

- **Matchers.** Every Hamcrest matcher is a total Dafny predicate. A request is a record of its method, its percent-encoded path (`encodedPath`), its optional decoded query (OkHttp's `query`), its body text and its headers.
- **Object identity.** Kotlin compares routes by reference. Here a route carries an `id`. A decorator (`RecordingRoute`, `CountingRoute`) is an entry in the observer's decorator table and is identified by its index there. Listeners are identified by a `ListenerId`.
- **Exceptions.** Only a response producer, an on-resolve listener or an on-shutdown listener may throw, and each is modelled as returning an optional failure. A producer that throws stops the registry search. The one-off tier is then not consumed, because the source removes the route only after `resolve` has returned a response.
- **Gate wait.** The dispatcher's wait on the `await` latch is a boolean parameter per request, `unlockedInTime`.
- **Query values and the doc comment.** The parser's doc comment says a value-less parameter gets a null value. The code appends the empty string instead (`QueryMatcher.kt:86`), and the model follows the code: `easy` in `subject=math&easy&problem=5-2=3` parses to `("easy", "")`.
- **Type-safe query matcher.** The query matcher is type-safe on strings, so a request without a query never matches a query constraint.
- **Decorators wrapping decorators.** A decorator reacts only when the resolved route *is* the object it wraps (`RoutingObserver.kt:81`, `:96`). The registries hold the plain routes, so a decorator wrapped around another decorator never reacts. For example, `assertCalled(n)` on a route obtained from `record()` counts nothing and passes only for `n == 0`. This is the source's behaviour as written, and `RouteAssertions.AssertCalledOnRecorder` states it.

## Model

| member | source | states |
|---|---|---|
| `Text.IndexOf` | src/main/java/ru/auto/mockwebserver/dsl/QueryMatcher.kt:80-83 | `indexOf(c, from)` returns the first index at or after `from` holding `c`, or -1 when there is none |
| `QueryMatching.ParseSegment` | src/main/java/ru/auto/mockwebserver/dsl/QueryMatcher.kt:83-90 | a segment is cut at its first `=`; the name never contains `=`; name, `=` and value rebuild the segment; a segment without `=` is that name with the empty value |
| `QueryMatching.Parameters` | src/main/java/ru/auto/mockwebserver/dsl/QueryMatcher.kt:76-94 | one pair per `&`-separated segment, in order |
| `QueryMatching.ParameterAt` | src/main/java/ru/auto/mockwebserver/dsl/QueryMatcher.kt:83-90 | pair k is segment k cut at its first `=`; its name holds neither `=` nor `&`, its value holds no `&` |
| `QueryMatching.ParametersCount` | src/main/java/ru/auto/mockwebserver/dsl/QueryMatcher.kt:79-91 | a query with n ampersands yields n + 1 pairs, because the loop also runs at `pos == length`, so a trailing `&` yields an empty pair |
| `QueryMatching.ParseQuery` | src/main/java/ru/auto/mockwebserver/dsl/QueryMatcher.kt:76-94 | the source's cursor loop (`indexOf('&')`, `indexOf('=')` over the rest, `=` beyond the `&` ignored) computes exactly `Parameters` |
| `QueryMatching.NextPair` | src/main/java/ru/auto/mockwebserver/dsl/QueryMatcher.kt:80-90 | the loop body finds the next `&` (or the end) and cuts out the pair, which is the segment up to that `&` cut at its first `=` |
| `QueryMatching.ParseStep` | src/main/java/ru/auto/mockwebserver/dsl/QueryMatcher.kt:80-91 | when an `&` remains, the segment before it is the first parameter of the remaining text and parsing resumes after the `&` |
| `QueryMatching.ParseLast` | src/main/java/ru/auto/mockwebserver/dsl/QueryMatcher.kt:79-81 | with no `&` left, the remaining text is the last parameter and the loop ends |
| `QueryMatching.SegmentAt` | src/main/java/ru/auto/mockwebserver/dsl/QueryMatcher.kt:83-90 | the pair cut with `indexOf('=')` (or "no `=` before the `&`") is the segment cut at its first `=` |
| `QueryMatching.Advance` | src/main/java/ru/auto/mockwebserver/dsl/QueryMatcher.kt:79-91 | the parser loop's invariant survives one iteration |
| `QueryMatching.ValuelessParameter` | src/main/java/ru/auto/mockwebserver/dsl/QueryMatcher.kt:84-86 | a segment without `=` gives the empty value, never an absent one |
| `QueryMatching.RenderParameters` | src/main/java/ru/auto/mockwebserver/dsl/QueryMatcher.kt:76-94 | round trip: when every segment has `=`, joining the pairs back as `name=value` with `&` gives the original query |
| `QueryMatching.EmptyQuery` | src/main/java/ru/auto/mockwebserver/dsl/QueryMatcher.kt:79-86 | the empty query is one parameter with empty name and empty value |
| `QueryMatching.ThreeSegments` | src/main/java/ru/auto/mockwebserver/dsl/QueryMatcher.kt:83-90 | `n1=v1&n2&n3=v3` parses to three pairs; the value-less middle gets `""`; the last value keeps every `=` after the first |
| `QueryMatching.ParseExample` | src/main/java/ru/auto/mockwebserver/dsl/QueryMatcher.kt:72-74 | the documented example parses to `subject/math`, `easy/""`, `problem/5-2=3` |
| `QueryMatching.Scan` | src/main/java/ru/auto/mockwebserver/dsl/QueryMatcher.kt:34-54 | the first pair whose name accepts and whose value accepts the value or null decides: consume that pair alone, or fail if it only accepts null; with no such pair, fail iff `exactly` |
| `QueryMatching.MatchParameter` | src/main/java/ru/auto/mockwebserver/dsl/QueryMatcher.kt:25-55 | the verdict on one parameter, stated through the first settling index of the pool; the early `isEmpty` branch gives the same verdict as the scan running off the end |
| `QueryMatching.MatchAll` | src/main/java/ru/auto/mockwebserver/dsl/QueryMatcher.kt:96-103 | each parameter consumes at most one pair; under `exactly` every parameter consumes one; what is left is drawn from the pool |
| `QueryMatching.MatchAllAppend` | src/main/java/ru/auto/mockwebserver/dsl/QueryMatcher.kt:96-103 | parameters are matched in query order: matching `a + b` matches `a` first, then `b` against what `a` left, and a failure in `a` is final |
| `QueryMatching.MatchAllSingle` | src/main/java/ru/auto/mockwebserver/dsl/QueryMatcher.kt:96-103 | a single parameter is matched by `MatchParameter` alone |
| `QueryMatching.Required` | src/main/java/ru/auto/mockwebserver/dsl/QueryMatcher.kt:58 | `removeIf` drops exactly the pairs whose value matcher accepts null and keeps every other pair; nothing is left iff every pair accepts null |
| `QueryMatching.RequiredAppend` | src/main/java/ru/auto/mockwebserver/dsl/QueryMatcher.kt:58 | filtering a concatenated pool filters each part and keeps them in their original order |
| `QueryMatching.RequiredSingle` | src/main/java/ru/auto/mockwebserver/dsl/QueryMatcher.kt:58 | a single pair is dropped iff its value matcher accepts null |
| `QueryMatching.QueryPredicate` | src/main/java/ru/auto/mockwebserver/dsl/QueryMatcher.kt:8-11 | the matcher is type-safe on strings: a missing query never matches, and a present one matches iff `QueryMatches` holds |
| `QueryMatching.QueryMatchesMeans` | src/main/java/ru/auto/mockwebserver/dsl/QueryMatcher.kt:57-68 | a query matches iff all its parameters pass and every pair left unconsumed accepts null |
| `QueryMatching.UnsettledTolerated` | src/main/java/ru/auto/mockwebserver/dsl/QueryMatcher.kt:49-54 | without `exactly`, a parameter no pair settles is tolerated and consumes nothing |
| `QueryMatching.UnacceptedRejectedWhenExact` | src/main/java/ru/auto/mockwebserver/dsl/QueryMatcher.kt:26-30 | with `exactly`, a parameter no pair accepts fails the match, including when the pool is already empty |
| `QueryMatching.ExactRejectsStranger` | src/main/java/ru/auto/mockwebserver/dsl/QueryMatcher.kt:49-52 | with `exactly`, one parameter that no pair accepts fails the whole query wherever it sits |
| `QueryMatching.EqualToPair` | src/main/java/ru/auto/mockwebserver/dsl/QueryMatcher.kt:134-136 | a string pair compares the name and the value for equality, so a null value accepts only absence |
| `QueryMatching.QueryEqualTo` | src/main/java/ru/auto/mockwebserver/dsl/QueryMatcher.kt:134-136 | the pool built from string pairs has one equality pair per input pair, in order |
| `QueryMatching.QueryNameEqualTo` | src/main/java/ru/auto/mockwebserver/dsl/QueryMatcher.kt:142-144 | the pool built from name/matcher pairs compares names for equality and keeps each value matcher |
| `QueryMatching.ForbiddenParameter` | src/main/java/ru/auto/mockwebserver/dsl/QueryMatcher.kt:37-45 | a lone `(name, null)` pair matches a query iff no parameter has that name |
| `QueryMatching.RequiredThenStranger` | src/main/java/ru/auto/mockwebserver/dsl/QueryMatcher.kt:34-54 | after a required pair is consumed, an extra parameter is tolerated iff not `exactly` |
| `QueryMatching.StrangerTolerated` | src/main/java/ru/auto/mockwebserver/dsl/QueryMatcher.kt:49-54 | `n=v&n2=v2` against the single pair `n=v` matches iff not `exactly` |
| `QueryMatching.ExtraParameterExample` | src/main/java/ru/auto/mockwebserver/dsl/QueryMatcher.kt:49-54 | `page=1&extra=x` against `page=1` matches without `exactly` and fails with it |
| `RequestMatching.Define` | src/main/java/ru/auto/mockwebserver/dsl/RequestMatcher.kt:45-73 | defining a field fails iff that field is already set; on success exactly that field becomes set, it accepts what the constraint accepts, and every other slot is unchanged |
| `RequestMatching.Build` | src/main/java/ru/auto/mockwebserver/dsl/RequestMatcher.kt:17-30 | the built matcher holds one property matcher per set field, so as many as fields are set and at most five; every set field's matcher is among them, and a set method comes first |
| `RequestMatching.BuildAccepts` | src/main/java/ru/auto/mockwebserver/dsl/RequestMatcher.kt:23-30 | the built matcher accepts a request iff every set field accepts the corresponding request property; unset fields impose nothing |
| `RequestMatching.EmptyAcceptsAll` | src/main/java/ru/auto/mockwebserver/dsl/RequestMatcher.kt:24-30 | a matcher built with nothing set accepts every request |
| `RequestMatching.DefineAccepts` | src/main/java/ru/auto/mockwebserver/dsl/RequestMatcher.kt:45-73 | a successful definition adds exactly its constraint as a conjunct |
| `RequestMatching.Apply` | src/main/java/ru/auto/mockwebserver/dsl/RequestMatcher.kt:86-87 | running a definition fails only on a field that the definition itself sets |
| `RequestMatching.ApplySucceeds` | src/main/java/ru/auto/mockwebserver/dsl/RequestMatcher.kt:45-73 | a definition runs through iff its fields are pairwise distinct and none was set before |
| `RequestMatching.ApplyAccepts` | src/main/java/ru/auto/mockwebserver/dsl/RequestMatcher.kt:86-87 | a definition that runs through accepts exactly what the builder accepted and all its constraints hold for |
| `RequestMatching.RequestOfMeans` | src/main/java/ru/auto/mockwebserver/dsl/RequestMatcher.kt:86-87 | `request { }` either fails on a repeated field or accepts exactly the requests all its constraints hold for |
| `RequestMatching.MethodEqualTo` | src/main/java/ru/auto/mockwebserver/dsl/RequestMatcher.kt:89-90 | `method(verb)` constrains the method field, by equality with the verb |
| `RequestMatching.WithMethodMeans` | src/main/java/ru/auto/mockwebserver/dsl/RequestMatcher.kt:104-114 | `get { }` and the others accept only their own verb; a definition inside them that sets the method again fails |
| `RequestMatching.MethodRedefined` | src/main/java/ru/auto/mockwebserver/dsl/RequestMatcher.kt:45-49 | once the method slot is set, a definition that sets it again fails |
| `RequestMatching.PathShorthands` | src/main/java/ru/auto/mockwebserver/dsl/RequestMatcher.kt:116-129 | an equal path ends with and contains itself; any/all of one fragment is `pathContains`; all of a non-empty list implies any; any of none rejects, all of none accepts |
| `RequestMatching.QueryPairs` | src/main/java/ru/auto/mockwebserver/dsl/RequestMatcher.kt:143-144 | the builder's `query(pairs)` constrains the query field with subset semantics, and never matches a request without a query |
| `Routes.Resolve` | src/main/java/ru/auto/mockwebserver/dsl/Route.kt:21-22 | a route answers iff its matcher accepts; the answer is the producer applied to that request; otherwise nothing, never an error |
| `Routes.MatcherRoute` | src/main/java/ru/auto/mockwebserver/dsl/Routing.kt:95-96 | a route from a built request matcher answers exactly the requests the matcher accepts |
| `Routes.FixedRoute` | src/main/java/ru/auto/mockwebserver/dsl/Routing.kt:98-99 | a fixed-response route answers the accepted requests, always with the same response |
| `Routings.Search` | src/main/java/ru/auto/mockwebserver/dsl/Routing.kt:47-56 | the backward scan misses iff no route accepts; otherwise it stops at the newest accepting route with that route's outcome |
| `Routings.ResolveStatic` | src/main/java/ru/auto/mockwebserver/dsl/Routing.kt:45-57 | null iff no route accepts; otherwise the newest accepting route's outcome, carrying the original request; the registry does not change |
| `Routings.Add` | src/main/java/ru/auto/mockwebserver/dsl/Routing.kt:34-35 | the route is appended at the end and the earlier routes keep their places |
| `Routings.Remove` | src/main/java/ru/auto/mockwebserver/dsl/Routing.kt:37-39 | only the first occurrence of the route is deleted, the others keep their order; without one nothing changes |
| `Routings.Clear` | src/main/java/ru/auto/mockwebserver/dsl/Routing.kt:41-43 | the registry becomes empty |
| `Routings.AddedRouteWins` | src/main/java/ru/auto/mockwebserver/dsl/Routing.kt:45-57 | later declarations override earlier ones: a just-added route that accepts the request answers it |
| `Routings.AddedNonMatchKeepsResolution` | src/main/java/ru/auto/mockwebserver/dsl/Routing.kt:45-57 | adding a route that rejects the request does not change how that request resolves |
| `Routings.AddThenRemove` | src/main/java/ru/auto/mockwebserver/dsl/Routing.kt:34-39 | round trip: adding a fresh route and removing it restores the registry |
| `Routings.RemovedRouteGone` | src/main/java/ru/auto/mockwebserver/dsl/Routing.kt:37-39 | in a registry of distinct routes, a removed route is gone and never answers again |
| `Routings.ResolvedRouteIsMember` | src/main/java/ru/auto/mockwebserver/dsl/Routing.kt:50-53 | the route of a resolution is one of the registry's routes |
| `Routings.ResolveOneOff` | src/main/java/ru/auto/mockwebserver/dsl/Routing.kt:62-75 | same verdict as the static search; a resolution removes exactly the matched route; a miss or a throwing producer leaves the registry as it was |
| `Routings.OneOffFiresOnce` | src/main/java/ru/auto/mockwebserver/dsl/Routing.kt:62-75 | a one-off route that answered is gone, the routes stay distinct, and no later request resolves to it |
| `Routings.DuplicateOneOffFiresTwice` | src/main/java/ru/auto/mockwebserver/dsl/Routing.kt:34-35 | a route added twice to the one-off tier answers twice, the newer copy first, and only then is the tier empty |
| `Routings.AddTo` | src/main/java/ru/auto/mockwebserver/dsl/Routing.kt:83-87 | a declaration inside `stub { }`, `oneOff { }` or at the root appends to that tier only |
| `Routings.RemoveFrom` | src/main/java/ru/auto/mockwebserver/dsl/Routing.kt:83-87 | `remove` inside a tier acts on that tier only |
| `Routings.ClearTier` | src/main/java/ru/auto/mockwebserver/dsl/Routing.kt:83-87 | `clear` inside a tier empties that tier only |
| `Routings.ResolveComposite` | src/main/java/ru/auto/mockwebserver/dsl/Routing.kt:89-92 | the first tier in the order one-off, own, stub that does not return null decides; only the one-off tier can change; null iff no route of any tier accepts |
| `Routings.OneOffThenOwn` | src/main/java/ru/auto/mockwebserver/dsl/Routing.kt:89-92 | when a one-off and an own route both match, the one-off answers once and the same request then falls through to the own route |
| `Observing.Observe` | src/main/java/ru/auto/mockwebserver/dsl/RoutingObserver.kt:80-99 | a decorator changes only on an event for the very route it wraps: then a recorder's list becomes the old list plus the request, and a counter adds one |
| `Observing.ObserveAllOfRoute` | src/main/java/ru/auto/mockwebserver/dsl/RoutingObserver.kt:80-84 | over a run of events, a recorder of a route holds exactly the requests resolved by that route, in event order, and a counter counts exactly as many |
| `Observing.WrapperOfWrapperIsDeaf` | src/main/java/ru/auto/mockwebserver/dsl/RoutingObserver.kt:72-74 | a decorator wrapped around another decorator is never changed by any event |
| `Observing.Notify` | src/main/java/ru/auto/mockwebserver/dsl/RoutingObserver.kt:34-45 | every listener runs in registration order; the failures are those of the throwing listeners, in order; each decorator sees the event once per registration |
| `Observing.DispatchOnResolve` | src/main/java/ru/auto/mockwebserver/dsl/RoutingObserver.kt:34-45 | the exceptions list grows by exactly the listeners' failures; the listener lists do not change |
| `Observing.ThrowingCallbackCollected` | src/main/java/ru/auto/mockwebserver/dsl/RoutingObserver.kt:38-42 | a throwing listener inserted anywhere among the on-resolve listeners adds exactly its exception, between the failures of the listeners before and after it; the later listeners still run, and every decorator ends as without it |
| `Observing.AddCallback` | src/main/java/ru/auto/mockwebserver/dsl/RoutingObserver.kt:24-27 | the listener is appended and nothing else changes |
| `Observing.RemoveResolveListener` | src/main/java/ru/auto/mockwebserver/dsl/RoutingObserver.kt:29-31 | the first listener with that identity is removed and the others keep their order; without one nothing changes |
| `Observing.RemovedCallbackSilent` | src/main/java/ru/auto/mockwebserver/dsl/RoutingObserver.kt:29-45 | a removed callback is no longer invoked; the other listeners' outcomes and the decorators are unaffected |
| `Observing.RemovedDecoratorDeaf` | src/main/java/ru/auto/mockwebserver/dsl/RoutingObserver.kt:29-45 | a removed decorator listener is no longer invoked: a dispatch leaves that decorator as it was, observes every other decorator as before and collects the same exceptions |
| `Observing.RemovedShutdownSilent` | src/main/java/ru/auto/mockwebserver/dsl/RoutingObserver.kt:52-68 | a removed shutdown listener is no longer invoked: the shutdown outcomes are the other listeners', in their order |
| `Observing.Record` | src/main/java/ru/auto/mockwebserver/dsl/RoutingObserver.kt:104-105 | `record()` creates an empty recorder of the target, registered exactly once as an on-resolve listener |
| `Observing.Count` | src/main/java/ru/auto/mockwebserver/dsl/RoutingObserver.kt:107-108 | `count()` creates a zero counter of the target, registered exactly once |
| `Observing.ObservedOnce` | src/main/java/ru/auto/mockwebserver/dsl/RoutingObserver.kt:34-45 | a decorator registered once sees each resolution exactly once |
| `Observing.DispatchAll` | src/main/java/ru/auto/mockwebserver/dsl/RoutingObserver.kt:13-14 | across resolutions the exception list only grows; the earlier entries stay in place |
| `Observing.DispatchAllObserves` | src/main/java/ru/auto/mockwebserver/dsl/RoutingObserver.kt:34-45 | across resolutions, a decorator registered once sees every event once, in order |
| `Observing.AddShutdownListener` | src/main/java/ru/auto/mockwebserver/dsl/RoutingObserver.kt:47-50 | the shutdown listener is appended and nothing else changes |
| `Observing.RemoveShutdownListener` | src/main/java/ru/auto/mockwebserver/dsl/RoutingObserver.kt:52-54 | the first shutdown listener with that identity is removed and the others keep their order |
| `Observing.DispatchOnShutdown` | src/main/java/ru/auto/mockwebserver/dsl/RoutingObserver.kt:57-68 | every shutdown listener runs in order; the exceptions grow by exactly the failures, and nothing else changes |
| `AssertionModes.NotMatchedFrom` | src/main/java/ru/auto/mockwebserver/dsl/AssertionMode.kt:52-53 | the listed indices are ascending, each one a non-matching item, and every non-matching index is listed |
| `AssertionModes.NotMatched` | src/main/java/ru/auto/mockwebserver/dsl/AssertionMode.kt:52-53 | the non-matching items of the whole sequence, by ascending index, none missing |
| `AssertionModes.MatchedCount` | src/main/java/ru/auto/mockwebserver/dsl/AssertionMode.kt:31-32 | size minus the number of non-matching items equals the number of matching items |
| `AssertionModes.Check` | src/main/java/ru/auto/mockwebserver/dsl/AssertionMode.kt:26-111 | `times` passes iff the matching count is `count` and, if `exactly`, no item fails, reporting the count and the misses otherwise; `index(i)` passes iff i is in range and item i matches; `last` passes iff non-empty and the last item matches; both fail "was empty" on no items |
| `AssertionModes.TimesExactly` | src/main/java/ru/auto/mockwebserver/dsl/AssertionMode.kt:31-33 | `times(n)` passes iff there are exactly n items and all match |
| `AssertionModes.TimesLoose` | src/main/java/ru/auto/mockwebserver/dsl/AssertionMode.kt:31-33 | `times(n, exactly = false)` ignores a non-matching item and judges the matching count alone |
| `AssertionModes.LastIsIndexOfLast` | src/main/java/ru/auto/mockwebserver/dsl/AssertionMode.kt:67-111 | `last()` gives the same verdict as `index(size - 1)`, including on the empty sequence |
| `AssertionModes.DefaultModeMeans` | src/main/java/ru/auto/mockwebserver/dsl/AssertionMode.kt:15 | the default mode `times(1)` demands exactly one item, and that it match |
| `RouteAssertions.Assert` | src/main/java/ru/auto/mockwebserver/dsl/RouteAssertions.kt:29-43 | on a decorator of the right kind the check runs now and throws iff it fails; otherwise one decorator of the right kind wraps the receiver, one listener of each kind is added and the check is deferred; the receiver is returned |
| `RouteAssertions.AssertCalled` | src/main/java/ru/auto/mockwebserver/dsl/RouteAssertions.kt:11-18 | on a counter it throws iff the count differs from n; otherwise it wraps the receiver in a fresh zero counter |
| `RouteAssertions.AssertRequests` | src/main/java/ru/auto/mockwebserver/dsl/RouteAssertions.kt:20-27 | on a recorder it throws iff the mode fails on the recorded requests; otherwise it wraps the receiver in a fresh empty recorder |
| `RouteAssertions.AssertCalledDeferred` | src/main/java/ru/auto/mockwebserver/dsl/RouteAssertions.kt:37-40 | `assertCalled(n)` on a plain route passes at shutdown iff exactly n of the resolutions were of that route |
| `RouteAssertions.AssertRequestsDeferred` | src/main/java/ru/auto/mockwebserver/dsl/RouteAssertions.kt:74-76 | `assert(matcher, mode)` on a plain route passes at shutdown iff the mode passes on the requests that route resolved, in order |
| `RouteAssertions.AssertCalledOnRecorder` | src/main/java/ru/auto/mockwebserver/dsl/RouteAssertions.kt:33-40 | `assertCalled(n)` on a recorder wraps the recorder, so at shutdown it passes iff n is 0, whatever was resolved |
| `Dispatching.PassGate` | src/main/java/ru/auto/mockwebserver/dsl/RoutingDispatcher.kt:29-32 | after the wait the gate is open; the elapsed flag is set iff the gate was armed and not unlocked in time, and is never reset |
| `Dispatching.Unanswered` | src/main/java/ru/auto/mockwebserver/dsl/RoutingDispatcher.kt:34-47 | an unresolved request adds one no-mock failure; a thrown exception adds the exception first, then the no-mock failure |
| `Dispatching.Dispatch` | src/main/java/ru/auto/mockwebserver/dsl/RoutingDispatcher.kt:27-48 | a resolution returns its response, adds no failure and notifies the observer once with (request, response, route); anything else returns 404, records the failures and leaves the observer alone |
| `Dispatching.UnmatchedRequest` | src/main/java/ru/auto/mockwebserver/dsl/RoutingDispatcher.kt:45-47 | a request no tier accepts gets 404 and exactly one no-mock failure; registries and observer are unchanged |
| `Dispatching.MatchedRequest` | src/main/java/ru/auto/mockwebserver/dsl/RoutingDispatcher.kt:40-44 | the newest matching persistent route answers with its response, and the observer is told about that route |
| `Dispatching.RaisingProducer` | src/main/java/ru/auto/mockwebserver/dsl/RoutingDispatcher.kt:34-39 | a throwing producer yields 404 plus two failures, the exception then the no-mock failure, and consumes no one-off route |
| `Dispatching.DeclaredRouteOverrides` | src/main/java/ru/auto/mockwebserver/dsl/RoutingDispatcher.kt:34-44 | a route declared last answers every request it accepts unless a one-off route accepts first |
| `Dispatching.OpenGateDoesNotWait` | src/main/java/ru/auto/mockwebserver/dsl/RoutingDispatcher.kt:29 | with no latch armed, dispatch does not depend on the wait |
| `Dispatching.Await` | src/main/java/ru/auto/mockwebserver/dsl/RoutingDispatcher.kt:55-59 | `await` arms the gate and changes nothing else |
| `Dispatching.Unlock` | src/main/java/ru/auto/mockwebserver/dsl/RoutingDispatcher.kt:61-64 | `unlock` disarms the gate and changes nothing else |
| `Dispatching.AwaitThenServe` | src/main/java/ru/auto/mockwebserver/dsl/RoutingDispatcher.kt:29-64 | after `await`, a request not unlocked in time sets the elapsed flag; with `unlock` in between the flag stays as it was; the gate ends open either way |
| `Dispatching.Step` | src/main/java/ru/auto/mockwebserver/dsl/RoutingDispatcher.kt:27-64 | no operation resets the elapsed flag, and none removes a collected failure or observer exception |
| `Dispatching.RunMonotone` | src/main/java/ru/auto/mockwebserver/dsl/RoutingDispatcher.kt:23-32 | over any run of operations the elapsed flag stays set once set, and the failure lists only grow |
| `Dispatching.UnansweredRequestIsReported` | src/main/java/ru/auto/mockwebserver/dsl/RoutingDispatcher.kt:45-53 | a request no route answered stays among the failures `after()` reports, whatever happens later |
| `Dispatching.After` | src/main/java/ru/auto/mockwebserver/dsl/RoutingDispatcher.kt:50-53 | shutdown listeners run first; the test then passes iff the dispatcher failures plus the observer exceptions are empty |

## Left out

- Concurrency: `synchronized` blocks, `CopyOnWriteArrayList` snapshots, `Collections.synchronizedList` and `AtomicInteger` are left out. Every operation is modelled as one atomic step, in sequence.
- Latch timing is left out. `await(timeout, unit)` keeps no timeout. Whether a waiting request was unlocked in time is the `unlockedInTime` parameter of `Dispatching.Dispatch`.
- Hamcrest descriptions, mismatch text, `toString`, the no-mock message and the `MultipleFailureException` message are left out. A failure keeps only its kind, the request, or the subject's description.
- OkHttp types are left out: `RecordedRequest`, URL decoding, reading the body and the header multimap. A request is a record of the fields the matchers read: the path as OkHttp encodes it and the query as OkHttp decodes it. The nullable method, path and body of `RecordedRequest` are always present.
- Percent-decoding of the query happens before the parser splits it, as in the source, and is not modelled: the query field already holds decoded text. A decoded `&` or `=` inside a value (sent as `%26` or `%3D`) is therefore split like a separator.
- Exceptions raised by request matchers are left out. Matchers are total predicates; only producers and listeners may throw.
- `Route.routing` is left out. Every route and decorator reports to the one observer, which is what the three tiers of `CompositeRouting` share.
- Registering a decorator itself as a route is left out. The registries hold plain routes.
- `WebServerRule.kt`, `Response.kt`, the test sources and the build scripts are not part of this model.
- `Observing.Observe`: the count is an unbounded natural. The source's `AtomicInteger` would wrap after 2^31 - 1 increments.
- `RouteAssertions.Assert`: an immediate failure is reported as a value (`thrown`) rather than an `AssertionError` propagated out of the call. The deferred check fails with the receiver's description only, not the Hamcrest mismatch report.
- `Routings.OneOffFiresOnce` and `Routings.RemovedRouteGone` assume the registry's routes are distinct. The source also lets one route object be added twice; it then answers twice, as `Routings.DuplicateOneOffFiresTwice` shows.
- `Dispatching.Step`: user callbacks added through `Listen` may only throw. Any other side effects of user code are not modelled.

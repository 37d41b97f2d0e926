/** The dispatcher: resolves each request against the composite registry,
    notifies the observer of a resolution, answers 404 and records a failure for
    a request nothing resolves, and at the end of a test fails iff any failure was
    collected. An optional gate (`await`/`unlock`) holds requests back until it is
    unlocked or a timeout elapses. */
module Dispatching {
  import opened Basics
  import opened Http
  import opened Routes
  import opened Routings
  import opened Observing

  /** The latch: absent, or armed by `await` and not yet unlocked. */
  datatype Gate = Open | Armed

  datatype Dispatcher = Dispatcher(
    routing: Composite,
    observer: Observer,
    failures: seq<Failure>,
    gate: Gate,
    awaitElapsed: bool)

  const Fresh := Dispatcher(
    Composite(Registry([]), Registry([]), Registry([])), EmptyObserver, [], Open, false)

  /** The wait at the start of `dispatch`. `unlockedInTime` says whether another
      thread called `unlock` before the timeout; either way the gate is open
      afterwards, and a timeout sets the elapsed flag for good. */
  function PassGate(d: Dispatcher, unlockedInTime: bool): (r: Dispatcher)
    ensures r.gate == Open
    ensures r.awaitElapsed <==> d.awaitElapsed || (d.gate.Armed? && !unlockedInTime)
    ensures r.routing == d.routing && r.observer == d.observer && r.failures == d.failures
  {
    match d.gate
    case Open => d
    case Armed => if unlockedInTime then d.(gate := Open) else d.(gate := Open, awaitElapsed := true)
  }

  /** The failures `dispatch` adds for an unresolved request: the exception the
      resolution threw, if any, then the no-mock failure. */
  function Unanswered(res: Resolution, req: Request): (r: seq<Failure>)
    requires !res.Resolved?
    ensures |r| >= 1 && r[|r| - 1] == NoMock(req)
    ensures res.Unresolved? ==> |r| == 1
    ensures res.Threw? ==> |r| == 2 && r[0] == Thrown(res.cause)
  {
    match res
    case Threw(cause) => [Thrown(cause), NoMock(req)]
    case Unresolved => [NoMock(req)]
  }

  /** `dispatch`. */
  function Dispatch(d: Dispatcher, req: Request, unlockedInTime: bool): (r: (Response, Dispatcher))
    requires Valid(d.observer)
    ensures Valid(r.1.observer)
    ensures r.1.gate == Open
    ensures r.1.awaitElapsed <==> d.awaitElapsed || (d.gate.Armed? && !unlockedInTime)
    ensures var (res, routing) := ResolveComposite(d.routing, req);
      && r.1.routing == routing
      && (res.Resolved? ==>
            && r.0 == res.resolved.response
            && r.1.failures == d.failures
            && r.1.observer ==
                 DispatchOnResolve(d.observer, Event(req, res.resolved.response, res.resolved.route)))
      && (!res.Resolved? ==>
            && r.0.code == NotFound
            && r.1.observer == d.observer
            && r.1.failures == d.failures + Unanswered(res, req))
  {
    var g := PassGate(d, unlockedInTime);
    var (res, routing) := ResolveComposite(g.routing, req);
    match res
    case Resolved(ResolvedRoute(request, response, route)) =>
      (response, g.(routing := routing, observer := DispatchOnResolve(g.observer, Event(request, response, route))))
    case _ =>
      (NotFoundResponse(), g.(routing := routing, failures := g.failures + Unanswered(res, req)))
  }

  /** A request no route of any tier accepts gets a 404 and adds exactly one
      failure; the registries and the observer do not change. */
  lemma UnmatchedRequest(d: Dispatcher, req: Request, unlockedInTime: bool)
    requires Valid(d.observer)
    requires NoneAccepts(d.routing.oneOff.routes, req)
    requires NoneAccepts(d.routing.own.routes, req)
    requires NoneAccepts(d.routing.stub.routes, req)
    ensures var (response, d1) := Dispatch(d, req, unlockedInTime);
      && response.code == NotFound
      && d1.failures == d.failures + [NoMock(req)]
      && d1.routing == d.routing && d1.observer == d.observer
  {
  }

  /** A persistent route that is the newest match of its tier, with no one-off
      route matching, answers with its response; no failure is added and the
      observer is told once about that route. */
  lemma MatchedRequest(d: Dispatcher, req: Request, unlockedInTime: bool, i: nat, response: Response)
    requires Valid(d.observer)
    requires NoneAccepts(d.routing.oneOff.routes, req)
    requires NewestMatch(d.routing.own.routes, req, i)
    requires d.routing.own.routes[i].respond(req) == Produced(response)
    ensures var (answer, d1) := Dispatch(d, req, unlockedInTime);
      && answer == response
      && d1.failures == d.failures
      && d1.routing == d.routing
      && d1.observer == DispatchOnResolve(d.observer, Event(req, response, d.routing.own.routes[i]))
  {
  }

  /** A producer that raises is reported twice: its exception, then the no-mock
      failure; the one-off tier is not consumed. */
  lemma RaisingProducer(d: Dispatcher, req: Request, unlockedInTime: bool, i: nat, cause: string)
    requires Valid(d.observer)
    requires NewestMatch(d.routing.oneOff.routes, req, i)
    requires d.routing.oneOff.routes[i].respond(req) == Raised(cause)
    ensures var (answer, d1) := Dispatch(d, req, unlockedInTime);
      && answer.code == NotFound
      && d1.failures == d.failures + [Thrown(cause), NoMock(req)]
      && d1.routing == d.routing
  {
  }

  /** Overriding a mock: a route declared last answers every request it accepts,
      whatever was declared before it, unless a one-off route accepts first. */
  lemma DeclaredRouteOverrides(d: Dispatcher, route: Route, req: Request, unlockedInTime: bool, response: Response)
    requires Valid(d.observer)
    requires NoneAccepts(d.routing.oneOff.routes, req)
    requires route.accepts(req) && route.respond(req) == Produced(response)
    ensures Dispatch(Step(d, Declare(OwnTier, route)), req, unlockedInTime).0 == response
  {
    var d1 := Step(d, Declare(OwnTier, route));
    AddedRouteWins(d.routing.own, route, req);
    assert NewestMatch(d1.routing.own.routes, req, |d.routing.own.routes|);
    MatchedRequest(d1, req, unlockedInTime, |d.routing.own.routes|, response);
  }

  /** With the gate open the outcome of the wait does not matter. */
  lemma OpenGateDoesNotWait(d: Dispatcher, req: Request)
    requires Valid(d.observer) && d.gate.Open?
    ensures Dispatch(d, req, true) == Dispatch(d, req, false)
  {
  }

  /** `await(timeout, unit)`: arms the gate. */
  function Await(d: Dispatcher): (r: Dispatcher)
    ensures r.gate.Armed?
    ensures r == d.(gate := Armed)
  {
    d.(gate := Armed)
  }

  /** `unlock()`: disarms the gate. */
  function Unlock(d: Dispatcher): (r: Dispatcher)
    ensures r.gate.Open?
    ensures r == d.(gate := Open)
  {
    d.(gate := Open)
  }

  /** `await` arms the gate, so the next request that is not unlocked in time
      sets the elapsed flag; an `unlock` in between disarms it, and the request
      then passes without setting the flag. Either way the gate ends open. */
  lemma AwaitThenServe(d: Dispatcher, req: Request)
    requires Valid(d.observer)
    ensures Run(d, [AwaitOp, Serve(req, false)]).awaitElapsed
    ensures Run(d, [AwaitOp, Serve(req, false)]).gate.Open?
    ensures Run(d, [AwaitOp, UnlockOp, Serve(req, false)]).awaitElapsed == d.awaitElapsed
    ensures Run(d, [AwaitOp, UnlockOp, Serve(req, false)]).gate.Open?
  {
    var armed := Step(d, AwaitOp);
    assert [AwaitOp, Serve(req, false)][1..] == [Serve(req, false)];
    assert Run(armed, [Serve(req, false)]) == Run(Step(armed, Serve(req, false)), []);
    var unlocked := Step(armed, UnlockOp);
    assert [AwaitOp, UnlockOp, Serve(req, false)][1..] == [UnlockOp, Serve(req, false)];
    assert [UnlockOp, Serve(req, false)][1..] == [Serve(req, false)];
    assert Run(unlocked, [Serve(req, false)]) == Run(Step(unlocked, Serve(req, false)), []);
  }

  /** Everything a test does to the dispatcher between set-up and `after()`. */
  datatype Op =
    | Serve(request: Request, unlockedInTime: bool)
    | AwaitOp
    | UnlockOp
    | Declare(tier: Tier, route: Route)
    | Withdraw(tier: Tier, id: nat)
    | ClearOp(tier: Tier)
    | Listen(key: nat, react: Event -> Option<Failure>)

  function Step(d: Dispatcher, op: Op): (r: Dispatcher)
    requires Valid(d.observer)
    ensures Valid(r.observer)
    ensures d.awaitElapsed ==> r.awaitElapsed
    ensures |r.failures| >= |d.failures| && r.failures[..|d.failures|] == d.failures
    ensures |r.observer.exceptions| >= |d.observer.exceptions|
    ensures r.observer.exceptions[..|d.observer.exceptions|] == d.observer.exceptions
  {
    match op
    case Serve(req, unlockedInTime) =>
      var r := Dispatch(d, req, unlockedInTime).1;
      assert r.failures[..|d.failures|] == d.failures;
      r
    case AwaitOp => Await(d)
    case UnlockOp => Unlock(d)
    case Declare(tier, route) => d.(routing := AddTo(d.routing, tier, route))
    case Withdraw(tier, id) => d.(routing := RemoveFrom(d.routing, tier, id))
    case ClearOp(tier) => d.(routing := ClearTier(d.routing, tier))
    case Listen(key, react) => d.(observer := AddCallback(d.observer, key, react))
  }

  function Run(d: Dispatcher, ops: seq<Op>): (r: Dispatcher)
    requires Valid(d.observer)
    ensures Valid(r.observer)
    decreases |ops|
  {
    if |ops| == 0 then d else Run(Step(d, ops[0]), ops[1..])
  }

  /** Once a wait has timed out, `isAwaitElapsed` stays true; failures and
      observer exceptions are only ever appended to. */
  lemma {:induction false} RunMonotone(d: Dispatcher, ops: seq<Op>)
    requires Valid(d.observer)
    ensures d.awaitElapsed ==> Run(d, ops).awaitElapsed
    ensures |Run(d, ops).failures| >= |d.failures|
    ensures Run(d, ops).failures[..|d.failures|] == d.failures
    ensures |Run(d, ops).observer.exceptions| >= |d.observer.exceptions|
    ensures Run(d, ops).observer.exceptions[..|d.observer.exceptions|] == d.observer.exceptions
    decreases |ops|
  {
    if |ops| > 0 {
      var d1 := Step(d, ops[0]);
      RunMonotone(d1, ops[1..]);
      var r := Run(d1, ops[1..]);
      assert r.failures[..|d.failures|] == r.failures[..|d1.failures|][..|d.failures|];
      assert r.observer.exceptions[..|d.observer.exceptions|] ==
        r.observer.exceptions[..|d1.observer.exceptions|][..|d.observer.exceptions|];
    }
  }

  /** A test that served a request nothing could answer fails at `after()`. */
  lemma {:induction false} UnansweredRequestIsReported(d: Dispatcher, req: Request, unlockedInTime: bool, ops: seq<Op>)
    requires Valid(d.observer)
    requires NoneAccepts(d.routing.oneOff.routes, req)
    requires NoneAccepts(d.routing.own.routes, req)
    requires NoneAccepts(d.routing.stub.routes, req)
    ensures NoMock(req) in Run(d, [Serve(req, unlockedInTime)] + ops).failures
  {
    var d1 := Step(d, Serve(req, unlockedInTime));
    UnmatchedRequest(d, req, unlockedInTime);
    assert ([Serve(req, unlockedInTime)] + ops)[1..] == ops;
    RunMonotone(d1, ops);
    var r := Run(d1, ops);
    assert r.failures[|d.failures|] == r.failures[..|d1.failures|][|d.failures|];
  }

  /** `after()`: runs the shutdown listeners, then reports every collected
      failure; the test passes iff there is none. */
  method After(d: Dispatcher) returns (passed: bool, report: seq<Failure>, r: Dispatcher)
    ensures r.observer.exceptions == d.observer.exceptions + Somes(ShutdownOutcomes(d.observer))
    ensures report == d.failures + r.observer.exceptions
    ensures passed <==> |report| == 0
    ensures passed ==> |d.failures| == 0 && |d.observer.exceptions| == 0
  {
    var observer := DispatchOnShutdown(d.observer);
    r := d.(observer := observer);
    report := d.failures + observer.exceptions;
    passed := |report| == 0;
  }
}

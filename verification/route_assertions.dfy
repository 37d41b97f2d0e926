/** Assertions on routes. An assertion needs a decorator: a counting one for
    `assertCalled`, a recording one for `assert`. When the receiver already is a
    decorator of that kind the check runs at once and a failure is thrown to the
    caller; otherwise the receiver is decorated and the check is deferred to a new
    shutdown listener, whose failure ends up in the observer's exceptions. */
module RouteAssertions {
  import opened Basics
  import opened Http
  import opened Routes
  import opened AssertionModes
  import opened Observing

  /** `RequestCountMatcher` over a count predicate, or `RecordedRequestsMatcher`
      over a request predicate and an assertion mode. */
  datatype Check = CountIs(accept: int -> bool) | RecordsMatch(matcher: Request -> bool, mode: Mode)

  /** The decorator kind a check needs (the reified type parameter `T`). */
  predicate Fits(check: Check, w: Wrapper)
  {
    check.CountIs? == w.Counting?
  }

  /** A check holds of a decorator of its kind when the count predicate accepts the
      count, or the mode passes on the recorded requests. The type-safe matchers
      reject a decorator of the other kind. */
  predicate Holds(check: Check, w: Wrapper)
  {
    match check
    case CountIs(accept) => w.Counting? && accept(w.count)
    case RecordsMatch(matcher, mode) => w.Recording? && AssertionModes.Check(mode, matcher, w.recorded).Pass?
  }

  /** A receiver: a plain route, or a decorator of the observer's table. */
  predicate Known(o: Observer, receiver: Target)
  {
    receiver.WrapperObj? ==> receiver.index < |o.wrappers|
  }

  /** `toString()` of a receiver, which decorators delegate. */
  function DescriptionOf(o: Observer, receiver: Target): string
    requires Known(o, receiver)
  {
    match receiver
    case RouteObj(route) => route.description
    case WrapperObj(i) => o.wrappers[i].description
  }

  /** The deferred check: at shutdown, decorator `w` is tested. The table only
      grows, so `w` is always present by then. */
  function DeferredRun(check: Check, w: nat, subject: string): seq<Wrapper> -> Option<Failure>
  {
    (ws: seq<Wrapper>) =>
      if w < |ws| && !Holds(check, ws[w]) then Some(AssertionFailed(subject)) else None
  }

  /** What an assertion call leaves behind: the observer, the receiver it returns,
      and the failure it threw at once, if any. */
  datatype Asserted = Asserted(observer: Observer, receiver: Target, thrown: Option<Failure>)

  /** The private `assert` helper. `key` is the identity of the new shutdown
      listener. */
  function Assert(o: Observer, receiver: Target, check: Check, key: nat): (r: Asserted)
    requires Valid(o) && Known(o, receiver)
    ensures r.receiver == receiver && Valid(r.observer)
    ensures receiver.WrapperObj? && Fits(check, o.wrappers[receiver.index]) ==>
      && r.observer == o
      && (r.thrown.None? <==> Holds(check, o.wrappers[receiver.index]))
    ensures !(receiver.WrapperObj? && Fits(check, o.wrappers[receiver.index])) ==>
      && r.thrown.None?
      && r.observer.exceptions == o.exceptions
      && |r.observer.wrappers| == |o.wrappers| + 1
      && r.observer.wrappers[..|o.wrappers|] == o.wrappers
      && r.observer.wrappers[|o.wrappers|].inner == receiver
      && Fits(check, r.observer.wrappers[|o.wrappers|])
      && r.observer.onResolve == o.onResolve + [WrapperListener(|o.wrappers|)]
      && Registrations(r.observer.onResolve, |o.wrappers|) == 1
      && |r.observer.onShutdown| == |o.onShutdown| + 1
      && r.observer.onShutdown[..|o.onShutdown|] == o.onShutdown
      && r.observer.onShutdown[|o.onShutdown|].key == key
      && (forall ws: seq<Wrapper> | |o.wrappers| < |ws| ::
            r.observer.onShutdown[|o.onShutdown|].run(ws).None? <==> Holds(check, ws[|o.wrappers|]))
  {
    var subject := DescriptionOf(o, receiver);
    if receiver.WrapperObj? && Fits(check, o.wrappers[receiver.index]) then
      var thrown := if Holds(check, o.wrappers[receiver.index]) then None else Some(AssertionFailed(subject));
      Asserted(o, receiver, thrown)
    else
      var (o1, w) := if check.CountIs? then Count(o, receiver, subject) else Record(o, receiver, subject);
      var o2 := AddShutdownListener(o1, OnShutdown(key, DeferredRun(check, w, subject)));
      assert o2.onShutdown[..|o.onShutdown|] == o.onShutdown;
      Asserted(o2, receiver, None)
  }

  /** `assertCalled(count)`: the count must equal `count`. */
  function AssertCalled(o: Observer, receiver: Target, count: int, key: nat): (r: Asserted)
    requires Valid(o) && Known(o, receiver)
    ensures r.receiver == receiver
    ensures receiver.WrapperObj? && o.wrappers[receiver.index].Counting? ==>
      r.observer == o && (r.thrown.None? <==> o.wrappers[receiver.index].count == count)
    ensures !(receiver.WrapperObj? && o.wrappers[receiver.index].Counting?) ==>
      r.thrown.None? && |r.observer.wrappers| == |o.wrappers| + 1 &&
      r.observer.wrappers[|o.wrappers|] == Counting(receiver, DescriptionOf(o, receiver), 0)
  {
    Assert(o, receiver, CountIs(n => n == count), key)
  }

  /** `assert(matcher, mode)`; `DefaultMode` is the `times(1)` default. */
  function AssertRequests(o: Observer, receiver: Target, matcher: Request -> bool, mode: Mode, key: nat)
    : (r: Asserted)
    requires Valid(o) && Known(o, receiver)
    ensures r.receiver == receiver
    ensures receiver.WrapperObj? && o.wrappers[receiver.index].Recording? ==>
      r.observer == o &&
      (r.thrown.None? <==> AssertionModes.Check(mode, matcher, o.wrappers[receiver.index].recorded).Pass?)
    ensures !(receiver.WrapperObj? && o.wrappers[receiver.index].Recording?) ==>
      r.thrown.None? && |r.observer.wrappers| == |o.wrappers| + 1 &&
      r.observer.wrappers[|o.wrappers|] == Recording(receiver, DescriptionOf(o, receiver), [])
  {
    Assert(o, receiver, RecordsMatch(matcher, mode), key)
  }

  /** `assertCalled(n)` on a plain route, then a run of resolutions: the deferred
      check passes at shutdown iff exactly `n` of the events were resolved by
      that route. */
  lemma AssertCalledDeferred(o: Observer, route: Route, count: int, key: nat, events: seq<Event>)
    requires Valid(o)
    ensures var a := AssertCalled(o, RouteObj(route), count, key);
      var later := DispatchAll(a.observer, events);
      && a.thrown.None?
      && (later.onShutdown[|o.onShutdown|].run(later.wrappers).None? <==>
            |RequestsOf(events, route)| == count)
  {
    var a := AssertCalled(o, RouteObj(route), count, key);
    var w := |o.wrappers|;
    DispatchAllObserves(a.observer, events, w);
    ObserveAllOfRoute(a.observer.wrappers[w], route, events);
  }

  /** `assert(matcher, mode)` on a plain route, then a run of resolutions: the
      deferred check judges exactly the requests resolved by that route, in
      order. */
  lemma AssertRequestsDeferred(
    o: Observer, route: Route, matcher: Request -> bool, mode: Mode, key: nat, events: seq<Event>)
    requires Valid(o)
    ensures var a := AssertRequests(o, RouteObj(route), matcher, mode, key);
      var later := DispatchAll(a.observer, events);
      && a.thrown.None?
      && (later.onShutdown[|o.onShutdown|].run(later.wrappers).None? <==>
            AssertionModes.Check(mode, matcher, RequestsOf(events, route)).Pass?)
  {
    var check := RecordsMatch(matcher, mode);
    var a := Assert(o, RouteObj(route), check, key);
    var w := |o.wrappers|;
    var later := DispatchAll(a.observer, events);
    DispatchAllObserves(a.observer, events, w);
    ObserveAllOfRoute(a.observer.wrappers[w], route, events);
    assert a.observer.wrappers[w].recorded == [];
    assert later.wrappers[w].recorded == RequestsOf(events, route);
    assert later.onShutdown[|o.onShutdown|].run(later.wrappers).None? <==> Holds(check, later.wrappers[w]);
  }

  /** `assertCalled` on a recording decorator decorates the decorator; the new
      counter never hears an event, so the deferred check sees the count 0
      whatever was resolved. */
  lemma AssertCalledOnRecorder(o: Observer, index: nat, count: int, key: nat, events: seq<Event>)
    requires Valid(o) && index < |o.wrappers| && o.wrappers[index].Recording?
    ensures var a := AssertCalled(o, WrapperObj(index), count, key);
      var later := DispatchAll(a.observer, events);
      && a.thrown.None?
      && (later.onShutdown[|o.onShutdown|].run(later.wrappers).None? <==> count == 0)
  {
    var a := AssertCalled(o, WrapperObj(index), count, key);
    var w := |o.wrappers|;
    DispatchAllObserves(a.observer, events, w);
    WrapperOfWrapperIsDeaf(a.observer.wrappers[w], events);
  }
}

/** The routing observer: on-resolve and on-shutdown listener lists, the
    exceptions those listeners raised, and the recording and counting
    decorators. A decorator is an object with its own mutable state that keeps
    living after its listener is removed, so decorators live in a table of the
    observer and are referred to by their index in it. */
module Observing {
  import opened Basics
  import opened Http
  import opened Routes

  /** A route object as a decorator sees it: a plain route, or another decorator
      (decorators delegate the `Route` interface, so they can be wrapped again). */
  datatype Target = RouteObj(route: Route) | WrapperObj(index: nat)

  /** `RecordingRoute` and `CountingRoute`: the decorated object, the description
      they delegate to it, and the requests recorded or resolutions counted. */
  datatype Wrapper =
    | Recording(inner: Target, description: string, recorded: seq<Request>)
    | Counting(inner: Target, description: string, count: nat)

  /** A resolution as listeners receive it. */
  datatype Event = Event(request: Request, response: Response, route: Route)

  /** A decorator reacts to an event only when the resolved route is the very
      object it wraps; the registries hold plain routes, so a decorator of a
      decorator never reacts. */
  predicate Hears(w: Wrapper, route: Route)
  {
    w.inner.RouteObj? && w.inner.route.id == route.id
  }

  /** `onResolve` of the two decorators. */
  function Observe(w: Wrapper, ev: Event): (r: Wrapper)
    ensures r.inner == w.inner && r.description == w.description && r.Recording? == w.Recording?
    ensures !Hears(w, ev.route) ==> r == w
    ensures r.Counting? && Hears(w, ev.route) ==> r.count == w.count + 1
    ensures r.Recording? && Hears(w, ev.route) ==> r.recorded == w.recorded + [ev.request]
  {
    match w
    case Recording(inner, description, recorded) =>
      if Hears(w, ev.route) then Recording(inner, description, recorded + [ev.request]) else w
    case Counting(inner, description, count) =>
      if Hears(w, ev.route) then Counting(inner, description, count + 1) else w
  }

  /** The decorator after `n` deliveries of the same event. */
  function ObserveTimes(w: Wrapper, ev: Event, n: nat): Wrapper
    decreases n
  {
    if n == 0 then w else ObserveTimes(Observe(w, ev), ev, n - 1)
  }

  /** The decorator after a run of events, each delivered once. */
  function ObserveAll(w: Wrapper, events: seq<Event>): Wrapper
    decreases |events|
  {
    if |events| == 0 then w else ObserveAll(Observe(w, events[0]), events[1..])
  }

  /** The requests of the events resolved by `route`, in event order. */
  function RequestsOf(events: seq<Event>, route: Route): (r: seq<Request>)
    ensures |r| <= |events|
  {
    if |events| == 0 then []
    else
      var head := if events[0].route.id == route.id then [events[0].request] else [];
      head + RequestsOf(events[1..], route)
  }

  /** A decorator of a plain route records exactly the requests of the events for
      that route, in event order, and counts exactly as many. */
  lemma {:induction false} ObserveAllOfRoute(w: Wrapper, route: Route, events: seq<Event>)
    requires w.inner == RouteObj(route)
    ensures ObserveAll(w, events).inner == w.inner
    ensures w.Recording? ==>
      ObserveAll(w, events).Recording? &&
      ObserveAll(w, events).recorded == w.recorded + RequestsOf(events, route)
    ensures w.Counting? ==>
      ObserveAll(w, events).Counting? &&
      ObserveAll(w, events).count == w.count + |RequestsOf(events, route)|
    decreases |events|
  {
    if |events| > 0 {
      var w' := Observe(w, events[0]);
      ObserveAllOfRoute(w', route, events[1..]);
      if w.Recording? {
        assert w.recorded + RequestsOf(events, route) ==
          w'.recorded + RequestsOf(events[1..], route);
      }
    }
  }

  /** A decorator of a decorator is deaf: no event changes it. */
  lemma {:induction false} WrapperOfWrapperIsDeaf(w: Wrapper, events: seq<Event>)
    requires w.inner.WrapperObj?
    ensures ObserveAll(w, events) == w
    decreases |events|
  {
    if |events| > 0 {
      WrapperOfWrapperIsDeaf(Observe(w, events[0]), events[1..]);
    }
  }

  /** Listener identities (Kotlin compares listeners by reference). */
  datatype ListenerId = OfWrapper(index: nat) | OfCallback(key: nat)

  /** An on-resolve listener: a decorator of the table, or user code whose only
      effect the model keeps is whether it throws. */
  datatype ResolveListener =
    | WrapperListener(wrapper: nat)
    | Callback(key: nat, react: Event -> Option<Failure>)

  function IdOf(l: ResolveListener): ListenerId
  {
    match l
    case WrapperListener(w) => OfWrapper(w)
    case Callback(key, _) => OfCallback(key)
  }

  /** An on-shutdown listener: it may read the decorators and may throw. */
  datatype ShutdownListener = OnShutdown(key: nat, run: seq<Wrapper> -> Option<Failure>)

  datatype Observer = Observer(
    onResolve: seq<ResolveListener>,
    onShutdown: seq<ShutdownListener>,
    wrappers: seq<Wrapper>,
    exceptions: seq<Failure>)

  const EmptyObserver := Observer([], [], [], [])

  /** Every decorator listener refers to a decorator of the table. */
  predicate ListenersIn(listeners: seq<ResolveListener>, n: nat)
  {
    forall i | 0 <= i < |listeners| :: listeners[i].WrapperListener? ==> listeners[i].wrapper < n
  }

  predicate Valid(o: Observer)
  {
    ListenersIn(o.onResolve, |o.wrappers|)
  }

  /** What an on-resolve listener throws for an event; decorators never throw. */
  function Outcome(l: ResolveListener, ev: Event): Option<Failure>
  {
    match l
    case WrapperListener(_) => None
    case Callback(_, react) => react(ev)
  }

  function Outcomes(listeners: seq<ResolveListener>, ev: Event): (r: seq<Option<Failure>>)
    ensures |r| == |listeners|
  {
    seq(|listeners|, i requires 0 <= i < |listeners| => Outcome(listeners[i], ev))
  }

  /** How many times decorator `w` is registered as a listener. */
  function Registrations(listeners: seq<ResolveListener>, w: nat): (n: nat)
    ensures n <= |listeners|
  {
    if |listeners| == 0 then 0
    else (if listeners[0] == WrapperListener(w) then 1 else 0) + Registrations(listeners[1..], w)
  }

  /** One step of `dispatchOnResolve`'s loop. */
  function Deliver(wrappers: seq<Wrapper>, l: ResolveListener, ev: Event): seq<Wrapper>
    requires l.WrapperListener? ==> l.wrapper < |wrappers|
  {
    match l
    case WrapperListener(w) => wrappers[w := Observe(wrappers[w], ev)]
    case Callback(_, _) => wrappers
  }

  /** The loop of `dispatchOnResolve`: every listener runs in registration
      order, a listener's exception is collected and the loop goes on. */
  function Notify(wrappers: seq<Wrapper>, listeners: seq<ResolveListener>, ev: Event)
    : (r: (seq<Wrapper>, seq<Failure>))
    requires ListenersIn(listeners, |wrappers|)
    ensures |r.0| == |wrappers|
    ensures r.1 == Somes(Outcomes(listeners, ev))
    ensures forall w | 0 <= w < |wrappers| ::
      r.0[w] == ObserveTimes(wrappers[w], ev, Registrations(listeners, w))
    decreases |listeners|
  {
    if |listeners| == 0 then (wrappers, [])
    else
      var next := Deliver(wrappers, listeners[0], ev);
      var (ws, failures) := Notify(next, listeners[1..], ev);
      assert forall w | 0 <= w < |wrappers| ::
        ObserveTimes(next[w], ev, Registrations(listeners[1..], w))
          == ObserveTimes(wrappers[w], ev, Registrations(listeners, w)) by {
        forall w | 0 <= w < |wrappers|
          ensures ObserveTimes(next[w], ev, Registrations(listeners[1..], w))
            == ObserveTimes(wrappers[w], ev, Registrations(listeners, w))
        {
          DeliverStep(wrappers, listeners, ev, w);
        }
      }
      assert Outcomes(listeners, ev) == [Outcome(listeners[0], ev)] + Outcomes(listeners[1..], ev);
      SomesAppend([Outcome(listeners[0], ev)], Outcomes(listeners[1..], ev));
      (ws, (match Outcome(listeners[0], ev) case Some(f) => [f] case None => []) + failures)
  }

  /** Delivering to the first listener, then to the rest, observes decorator `w`
      as often as it is registered in the whole list. */
  lemma DeliverStep(wrappers: seq<Wrapper>, listeners: seq<ResolveListener>, ev: Event, w: nat)
    requires |listeners| > 0 && ListenersIn(listeners, |wrappers|) && w < |wrappers|
    ensures ObserveTimes(Deliver(wrappers, listeners[0], ev)[w], ev, Registrations(listeners[1..], w))
      == ObserveTimes(wrappers[w], ev, Registrations(listeners, w))
  {
    var next := Deliver(wrappers, listeners[0], ev);
    var n := Registrations(listeners[1..], w);
    if listeners[0] == WrapperListener(w) {
      assert next[w] == Observe(wrappers[w], ev);
      assert Registrations(listeners, w) == n + 1;
    } else {
      assert next[w] == wrappers[w];
      assert Registrations(listeners, w) == n;
    }
  }

  /** `dispatchOnResolve`. */
  function DispatchOnResolve(o: Observer, ev: Event): (r: Observer)
    requires Valid(o)
    ensures Valid(r)
    ensures r.onResolve == o.onResolve && r.onShutdown == o.onShutdown
    ensures |r.wrappers| == |o.wrappers|
    ensures r.exceptions == o.exceptions + Somes(Outcomes(o.onResolve, ev))
    ensures forall w | 0 <= w < |o.wrappers| ::
      r.wrappers[w] == ObserveTimes(o.wrappers[w], ev, Registrations(o.onResolve, w))
  {
    var (ws, failures) := Notify(o.wrappers, o.onResolve, ev);
    o.(wrappers := ws, exceptions := o.exceptions + failures)
  }

  /** A callback that throws, registered at any position `i`, adds exactly its
      exception between those of the listeners before and after it: the listeners
      after it still run, and every decorator is observed as before. */
  lemma ThrowingCallbackCollected(o: Observer, ev: Event, key: nat, react: Event -> Option<Failure>, i: nat)
    requires Valid(o) && i <= |o.onResolve|
    requires react(ev).Some?
    ensures var pre := o.onResolve[..i];
      var post := o.onResolve[i..];
      var o1 := o.(onResolve := pre + [Callback(key, react)] + post);
      Valid(o1) &&
      DispatchOnResolve(o1, ev).exceptions ==
        o.exceptions + Somes(Outcomes(pre, ev)) + [react(ev).value] + Somes(Outcomes(post, ev)) &&
      DispatchOnResolve(o1, ev).wrappers == DispatchOnResolve(o, ev).wrappers
  {
    var l := Callback(key, react);
    InsertKeepsValid(o.onResolve, |o.wrappers|, i, l);
    InsertedExceptions(o, ev, i, l);
    InsertedKeepsWrappers(o, ev, i, l);
  }

  /** The exceptions after a resolution with a throwing callback inserted. */
  lemma InsertedExceptions(o: Observer, ev: Event, i: nat, l: ResolveListener)
    requires i <= |o.onResolve| && l.Callback? && l.react(ev).Some?
    requires Valid(o.(onResolve := o.onResolve[..i] + [l] + o.onResolve[i..]))
    ensures DispatchOnResolve(o.(onResolve := o.onResolve[..i] + [l] + o.onResolve[i..]), ev).exceptions
      == o.exceptions + Somes(Outcomes(o.onResolve[..i], ev)) + [l.react(ev).value]
         + Somes(Outcomes(o.onResolve[i..], ev))
  {
    var pre := o.onResolve[..i];
    var post := o.onResolve[i..];
    InsertedOutcomes(pre, post, l, ev);
    var b := Somes(Outcomes(pre, ev));
    var c := Somes(Outcomes(post, ev));
    var v := l.react(ev).value;
    assert o.exceptions + (b + [v] + c) == o.exceptions + b + [v] + c;
  }

  /** Inserting a callback does not change what the decorators observe. */
  lemma InsertedKeepsWrappers(o: Observer, ev: Event, i: nat, l: ResolveListener)
    requires Valid(o) && i <= |o.onResolve| && l.Callback?
    requires Valid(o.(onResolve := o.onResolve[..i] + [l] + o.onResolve[i..]))
    ensures DispatchOnResolve(o.(onResolve := o.onResolve[..i] + [l] + o.onResolve[i..]), ev).wrappers
      == DispatchOnResolve(o, ev).wrappers
  {
    var pre := o.onResolve[..i];
    var post := o.onResolve[i..];
    var o1 := o.(onResolve := pre + [l] + post);
    assert o.onResolve == pre + post;
    forall w | 0 <= w < |o.wrappers|
      ensures Registrations(o1.onResolve, w) == Registrations(o.onResolve, w)
    {
      InsertedRegistrations(pre, post, l, w);
    }
    SameRegistrationsSameWrappers(o, o1, ev);
  }

  /** Two observers with the same decorators, each registered as often in both,
      leave the decorators in the same state after a resolution. */
  lemma SameRegistrationsSameWrappers(o: Observer, o1: Observer, ev: Event)
    requires Valid(o) && Valid(o1) && o1.wrappers == o.wrappers
    requires forall w | 0 <= w < |o.wrappers| :: Registrations(o1.onResolve, w) == Registrations(o.onResolve, w)
    ensures DispatchOnResolve(o1, ev).wrappers == DispatchOnResolve(o, ev).wrappers
  {
    var r := DispatchOnResolve(o, ev).wrappers;
    var r1 := DispatchOnResolve(o1, ev).wrappers;
    assert |r| == |r1|;
    forall w | 0 <= w < |r|
      ensures r1[w] == r[w]
    {
    }
  }

  /** A callback is no decorator registration. */
  lemma InsertedRegistrations(pre: seq<ResolveListener>, post: seq<ResolveListener>, l: ResolveListener, w: nat)
    requires l.Callback?
    ensures Registrations(pre + [l] + post, w) == Registrations(pre + post, w)
  {
    RegistrationsAppend(pre + [l], post, w);
    RegistrationsAppend(pre, [l], w);
    RegistrationsAppend(pre, post, w);
    assert [l][1..] == [];
  }

  /** Inserting a callback keeps every decorator listener pointing into the table. */
  lemma InsertKeepsValid(listeners: seq<ResolveListener>, n: nat, i: nat, l: ResolveListener)
    requires ListenersIn(listeners, n) && i <= |listeners| && l.Callback?
    ensures ListenersIn(listeners[..i] + [l] + listeners[i..], n)
  {
    var all := listeners[..i] + [l] + listeners[i..];
    forall j | 0 <= j < |all| && all[j].WrapperListener?
      ensures all[j].wrapper < n
    {
      if j < i {
        assert all[j] == listeners[j];
      } else {
        assert all[j] == listeners[j - 1];
      }
    }
  }

  /** The failures of a list with a throwing callback inserted. */
  lemma InsertedOutcomes(pre: seq<ResolveListener>, post: seq<ResolveListener>, l: ResolveListener, ev: Event)
    requires l.Callback? && l.react(ev).Some?
    ensures Somes(Outcomes(pre + [l] + post, ev))
      == Somes(Outcomes(pre, ev)) + [l.react(ev).value] + Somes(Outcomes(post, ev))
  {
    OutcomesAppend(pre + [l], post, ev);
    OutcomesAppend(pre, [l], ev);
    assert Outcomes([l], ev) == [l.react(ev)];
    SomesAppend(Outcomes(pre, ev) + [l.react(ev)], Outcomes(post, ev));
    SomesAppend(Outcomes(pre, ev), [l.react(ev)]);
    assert Somes([l.react(ev)]) == [l.react(ev).value];
  }

  lemma OutcomesAppend(a: seq<ResolveListener>, b: seq<ResolveListener>, ev: Event)
    ensures Outcomes(a + b, ev) == Outcomes(a, ev) + Outcomes(b, ev)
  {
  }

  lemma {:induction false} RegistrationsAppend(a: seq<ResolveListener>, b: seq<ResolveListener>, w: nat)
    ensures Registrations(a + b, w) == Registrations(a, w) + Registrations(b, w)
  {
    if |a| == 0 {
      assert a + b == b;
    } else {
      assert (a + b)[0] == a[0];
      assert (a + b)[1..] == a[1..] + b;
      RegistrationsAppend(a[1..], b, w);
    }
  }

  /** `addOnResolveListener` for user code. */
  function AddCallback(o: Observer, key: nat, react: Event -> Option<Failure>): (r: Observer)
    requires Valid(o)
    ensures Valid(r)
    ensures |r.onResolve| == |o.onResolve| + 1 && IdOf(r.onResolve[|o.onResolve|]) == OfCallback(key)
    ensures r.onResolve[..|o.onResolve|] == o.onResolve
    ensures r.wrappers == o.wrappers && r.onShutdown == o.onShutdown && r.exceptions == o.exceptions
  {
    o.(onResolve := o.onResolve + [Callback(key, react)])
  }

  /** `removeOnResolveListener`: drops the first listener with that identity. */
  function RemoveResolveListener(o: Observer, id: ListenerId): (r: Observer)
    requires Valid(o)
    ensures Valid(r)
    ensures r.wrappers == o.wrappers && r.onShutdown == o.onShutdown && r.exceptions == o.exceptions
    ensures (forall k | 0 <= k < |o.onResolve| :: IdOf(o.onResolve[k]) != id) ==> r == o
    ensures forall i | 0 <= i < |o.onResolve| && IdOf(o.onResolve[i]) == id &&
        (forall k | 0 <= k < i :: IdOf(o.onResolve[k]) != id) ::
      r.onResolve == RemoveAt(o.onResolve, i)
  {
    var listeners := RemoveFirst(o.onResolve, (l: ResolveListener) => IdOf(l) == id);
    assert ListenersIn(listeners, |o.wrappers|) by {
      var i := IndexWhere(o.onResolve, (l: ResolveListener) => IdOf(l) == id);
      if i < |o.onResolve| {
        forall k | 0 <= k < |listeners| && listeners[k].WrapperListener?
          ensures listeners[k].wrapper < |o.wrappers|
        {
          if k >= i { assert listeners[k] == o.onResolve[k + 1]; }
        }
      }
    }
    o.(onResolve := listeners)
  }

  /** A removed callback no longer runs: with that callback registered once, the
      listeners after removal are the others in their order, and a dispatch
      collects no exception from it. */
  lemma RemovedCallbackSilent(o: Observer, i: nat, ev: Event)
    requires Valid(o)
    requires i < |o.onResolve| && o.onResolve[i].Callback?
    requires forall k | 0 <= k < |o.onResolve| && k != i :: IdOf(o.onResolve[k]) != IdOf(o.onResolve[i])
    ensures var r := RemoveResolveListener(o, IdOf(o.onResolve[i]));
      && r.onResolve == RemoveAt(o.onResolve, i)
      && Outcomes(r.onResolve, ev) == RemoveAt(Outcomes(o.onResolve, ev), i)
      && DispatchOnResolve(r, ev).wrappers == DispatchOnResolve(o, ev).wrappers
  {
    var id := IdOf(o.onResolve[i]);
    var r := RemoveResolveListener(o, id);
    RemoveFirstSole(o.onResolve, (l: ResolveListener) => IdOf(l) == id, i);
    var a := o.onResolve[..i];
    var b := o.onResolve[i + 1..];
    assert o.onResolve == a + [o.onResolve[i]] + b;
    assert r.onResolve == a + b;
    forall w | 0 <= w < |o.wrappers|
      ensures Registrations(r.onResolve, w) == Registrations(o.onResolve, w)
    {
      RegistrationsAppend(a, b, w);
      RegistrationsAppend(a + [o.onResolve[i]], b, w);
      RegistrationsAppend(a, [o.onResolve[i]], w);
    }
  }

  /** A removed decorator listener no longer runs: with decorator `w` registered
      once, after removal a dispatch leaves `w` as it was, observes every other
      decorator as before and collects the same exceptions. */
  lemma RemovedDecoratorDeaf(o: Observer, i: nat, ev: Event)
    requires Valid(o)
    requires i < |o.onResolve| && o.onResolve[i].WrapperListener?
    requires forall k | 0 <= k < |o.onResolve| && k != i :: IdOf(o.onResolve[k]) != IdOf(o.onResolve[i])
    ensures var w := o.onResolve[i].wrapper;
      var r := RemoveResolveListener(o, OfWrapper(w));
      && r.onResolve == RemoveAt(o.onResolve, i)
      && DispatchOnResolve(r, ev).wrappers[w] == o.wrappers[w]
      && (forall v | 0 <= v < |o.wrappers| && v != w ::
            DispatchOnResolve(r, ev).wrappers[v] == DispatchOnResolve(o, ev).wrappers[v])
      && DispatchOnResolve(r, ev).exceptions == DispatchOnResolve(o, ev).exceptions
  {
    var l := o.onResolve[i];
    var w := l.wrapper;
    var id := IdOf(l);
    var r := RemoveResolveListener(o, id);
    RemoveFirstSole(o.onResolve, (x: ResolveListener) => IdOf(x) == id, i);
    var a := o.onResolve[..i];
    var b := o.onResolve[i + 1..];
    assert o.onResolve == a + [l] + b;
    assert r.onResolve == a + b;
    RegistrationsAbsent(r.onResolve, w);
    DropDecoratorListener(a, l, b, ev);
  }

  /** Dropping decorator `l.wrapper`'s listener from a list changes no other
      decorator's registrations and no failure. */
  lemma DropDecoratorListener(a: seq<ResolveListener>, l: ResolveListener, b: seq<ResolveListener>, ev: Event)
    requires l.WrapperListener?
    ensures Somes(Outcomes(a + b, ev)) == Somes(Outcomes(a + [l] + b, ev))
    ensures forall v | v != l.wrapper :: Registrations(a + b, v) == Registrations(a + [l] + b, v)
  {
    forall v | v != l.wrapper
      ensures Registrations(a + b, v) == Registrations(a + [l] + b, v)
    {
      DropUnregistered(a, l, b, v);
    }
    DropSilent(a, l, b, ev);
  }

  lemma DropUnregistered(a: seq<ResolveListener>, l: ResolveListener, b: seq<ResolveListener>, v: nat)
    requires l != WrapperListener(v)
    ensures Registrations(a + b, v) == Registrations(a + [l] + b, v)
  {
    RegistrationsAppend(a, b, v);
    RegistrationsAppend(a + [l], b, v);
    RegistrationsAppend(a, [l], v);
  }

  lemma DropSilent(a: seq<ResolveListener>, l: ResolveListener, b: seq<ResolveListener>, ev: Event)
    requires Outcome(l, ev).None?
    ensures Somes(Outcomes(a + b, ev)) == Somes(Outcomes(a + [l] + b, ev))
  {
    var oa, ob := Outcomes(a, ev), Outcomes(b, ev);
    OutcomesAppend(a, b, ev);
    OutcomesAppend(a + [l], b, ev);
    OutcomesAppend(a, [l], ev);
    assert Outcomes(a + [l] + b, ev) == oa + [None] + ob;
    SomesAppend(oa, ob);
    SomesAppend(oa + [None], ob);
    SomesAppend(oa, [None]);
  }

  /** No listener in `listeners` is decorator `w`'s, so `w` is never registered. */
  lemma {:induction false} RegistrationsAbsent(listeners: seq<ResolveListener>, w: nat)
    requires forall k | 0 <= k < |listeners| :: IdOf(listeners[k]) != OfWrapper(w)
    ensures Registrations(listeners, w) == 0
    decreases |listeners|
  {
    if |listeners| > 0 {
      assert IdOf(listeners[0]) != OfWrapper(w);
      RegistrationsAbsent(listeners[1..], w);
    }
  }

  /** A removed shutdown listener no longer runs: with its key registered once,
      the outcomes at shutdown are the others', in their order. */
  lemma RemovedShutdownSilent(o: Observer, i: nat)
    requires i < |o.onShutdown|
    requires forall k | 0 <= k < |o.onShutdown| && k != i :: o.onShutdown[k].key != o.onShutdown[i].key
    ensures var r := RemoveShutdownListener(o, o.onShutdown[i].key);
      && r.onShutdown == RemoveAt(o.onShutdown, i)
      && ShutdownOutcomes(r) == RemoveAt(ShutdownOutcomes(o), i)
  {
    var key := o.onShutdown[i].key;
    var r := RemoveShutdownListener(o, key);
    assert r.onShutdown == RemoveAt(o.onShutdown, i);
    var before, after := ShutdownOutcomes(o), ShutdownOutcomes(r);
    forall k | 0 <= k < |after|
      ensures after[k] == RemoveAt(before, i)[k]
    {
      if k < i {
        assert r.onShutdown[k] == o.onShutdown[k];
      } else {
        assert r.onShutdown[k] == o.onShutdown[k + 1];
      }
    }
  }

  /** `record()`: a new recording decorator of `target`, registered once as an
      on-resolve listener; its index is returned. */
  function Record(o: Observer, target: Target, description: string): (r: (Observer, nat))
    requires Valid(o)
    ensures Valid(r.0)
    ensures r.1 == |o.wrappers| && r.0.wrappers == o.wrappers + [Recording(target, description, [])]
    ensures r.0.onResolve == o.onResolve + [WrapperListener(r.1)]
    ensures Registrations(r.0.onResolve, r.1) == 1
    ensures r.0.onShutdown == o.onShutdown && r.0.exceptions == o.exceptions
  {
    Decorate(o, Recording(target, description, []))
  }

  /** `count()`: a new counting decorator of `target`, registered once. */
  function Count(o: Observer, target: Target, description: string): (r: (Observer, nat))
    requires Valid(o)
    ensures Valid(r.0)
    ensures r.1 == |o.wrappers| && r.0.wrappers == o.wrappers + [Counting(target, description, 0)]
    ensures r.0.onResolve == o.onResolve + [WrapperListener(r.1)]
    ensures Registrations(r.0.onResolve, r.1) == 1
    ensures r.0.onShutdown == o.onShutdown && r.0.exceptions == o.exceptions
  {
    Decorate(o, Counting(target, description, 0))
  }

  function Decorate(o: Observer, w: Wrapper): (r: (Observer, nat))
    requires Valid(o)
    ensures Valid(r.0)
    ensures r.1 == |o.wrappers| && r.0.wrappers == o.wrappers + [w]
    ensures r.0.onResolve == o.onResolve + [WrapperListener(r.1)]
    ensures Registrations(r.0.onResolve, r.1) == 1
    ensures r.0.onShutdown == o.onShutdown && r.0.exceptions == o.exceptions
  {
    var index := |o.wrappers|;
    RegistrationsAppend(o.onResolve, [WrapperListener(index)], index);
    RegistrationsNone(o.onResolve, index, |o.wrappers|);
    (o.(wrappers := o.wrappers + [w], onResolve := o.onResolve + [WrapperListener(index)]), index)
  }

  /** Listeners that only refer to decorators below `n` never register decorator `n` or above. */
  lemma {:induction false} RegistrationsNone(listeners: seq<ResolveListener>, w: nat, n: nat)
    requires ListenersIn(listeners, n) && n <= w
    ensures Registrations(listeners, w) == 0
    decreases |listeners|
  {
    if |listeners| > 0 {
      RegistrationsNone(listeners[1..], w, n);
    }
  }

  /** Delivering one event to a decorator registered once applies `Observe` once. */
  lemma ObservedOnce(o: Observer, w: nat, ev: Event)
    requires Valid(o) && w < |o.wrappers| && Registrations(o.onResolve, w) == 1
    ensures DispatchOnResolve(o, ev).wrappers[w] == Observe(o.wrappers[w], ev)
  {
  }

  /** Successive `dispatchOnResolve` calls, one per event, in order. */
  function DispatchAll(o: Observer, events: seq<Event>): (r: Observer)
    requires Valid(o)
    ensures Valid(r)
    ensures r.onResolve == o.onResolve && r.onShutdown == o.onShutdown
    ensures |r.wrappers| == |o.wrappers|
    ensures |r.exceptions| >= |o.exceptions| && r.exceptions[..|o.exceptions|] == o.exceptions
    decreases |events|
  {
    if |events| == 0 then o
    else
      var next := DispatchOnResolve(o, events[0]);
      var r := DispatchAll(next, events[1..]);
      assert r.exceptions[..|o.exceptions|] == next.exceptions[..|next.exceptions|][..|o.exceptions|];
      r
  }

  /** A decorator registered once sees every event exactly once, in order. */
  lemma {:induction false} DispatchAllObserves(o: Observer, events: seq<Event>, w: nat)
    requires Valid(o) && w < |o.wrappers| && Registrations(o.onResolve, w) == 1
    ensures DispatchAll(o, events).wrappers[w] == ObserveAll(o.wrappers[w], events)
    decreases |events|
  {
    if |events| > 0 {
      ObservedOnce(o, w, events[0]);
      DispatchAllObserves(DispatchOnResolve(o, events[0]), events[1..], w);
    }
  }

  /** `addOnShutdownListener`. */
  function AddShutdownListener(o: Observer, l: ShutdownListener): (r: Observer)
    ensures Valid(o) ==> Valid(r)
    ensures r.onShutdown == o.onShutdown + [l]
    ensures r.onResolve == o.onResolve && r.wrappers == o.wrappers && r.exceptions == o.exceptions
  {
    o.(onShutdown := o.onShutdown + [l])
  }

  /** `removeOnShutdownListener`: drops the first listener with that identity. */
  function RemoveShutdownListener(o: Observer, key: nat): (r: Observer)
    ensures Valid(o) ==> Valid(r)
    ensures r.onResolve == o.onResolve && r.wrappers == o.wrappers && r.exceptions == o.exceptions
    ensures (forall k | 0 <= k < |o.onShutdown| :: o.onShutdown[k].key != key) ==> r == o
    ensures forall i | 0 <= i < |o.onShutdown| && o.onShutdown[i].key == key &&
        (forall k | 0 <= k < i :: o.onShutdown[k].key != key) ::
      r.onShutdown == RemoveAt(o.onShutdown, i)
  {
    o.(onShutdown := RemoveFirst(o.onShutdown, (l: ShutdownListener) => l.key == key))
  }

  /** What each on-shutdown listener throws, in registration order. */
  function ShutdownOutcomes(o: Observer): (r: seq<Option<Failure>>)
    ensures |r| == |o.onShutdown|
  {
    seq(|o.onShutdown|, i requires 0 <= i < |o.onShutdown| => o.onShutdown[i].run(o.wrappers))
  }

  /** `dispatchOnShutdown`: runs every shutdown listener in order; each failure
      is appended and the loop continues. */
  method DispatchOnShutdown(o: Observer) returns (r: Observer)
    ensures r.onResolve == o.onResolve && r.onShutdown == o.onShutdown && r.wrappers == o.wrappers
    ensures r.exceptions == o.exceptions + Somes(ShutdownOutcomes(o))
  {
    var outcomes := ShutdownOutcomes(o);
    var failures: seq<Failure> := [];
    var i := 0;
    while i < |o.onShutdown|
      invariant 0 <= i <= |o.onShutdown|
      invariant failures == Somes(outcomes[..i])
    {
      var outcome := o.onShutdown[i].run(o.wrappers);
      assert outcomes[..i + 1] == outcomes[..i] + [outcome];
      SomesAppend(outcomes[..i], [outcome]);
      match outcome {
        case Some(f) => failures := failures + [f];
        case None =>
      }
      i := i + 1;
    }
    assert outcomes[..i] == outcomes;
    r := o.(exceptions := o.exceptions + failures);
  }
}

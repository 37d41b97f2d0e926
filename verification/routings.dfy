/** Route registries. A registry is an insertion-ordered list of routes searched
    from the most recently added to the oldest, so later declarations override
    earlier ones. A one-off registry removes the route that matched; the
    composite registry tries its one-off tier, then its own routes, then the
    stub tier. */
module Routings {
  import opened Basics
  import opened Http
  import opened Routes

  /** One successful resolution: the request, the produced response and the
      route that produced it. */
  datatype ResolvedRoute = ResolvedRoute(request: Request, response: Response, route: Route)

  /** What resolving a request gives: a resolved route, nothing, or the exception
      a route's producer raised (which stops the search). */
  datatype Resolution = Resolved(resolved: ResolvedRoute) | Unresolved | Threw(cause: string)

  datatype Registry = Registry(routes: seq<Route>)

  /** The route at index `i` is the most recently added route accepting `req`. */
  predicate NewestMatch(routes: seq<Route>, req: Request, i: int)
  {
    0 <= i < |routes| && routes[i].accepts(req) &&
    forall k | i < k < |routes| :: !routes[k].accepts(req)
  }

  /** No route accepts `req`. */
  predicate NoneAccepts(routes: seq<Route>, req: Request)
  {
    forall k | 0 <= k < |routes| :: !routes[k].accepts(req)
  }

  /** No two routes of the registry are the same object. */
  predicate UniqueIds(routes: seq<Route>)
  {
    forall i, j | 0 <= i < j < |routes| :: routes[i].id != routes[j].id
  }

  predicate HasId(routes: seq<Route>, id: nat)
  {
    exists k | 0 <= k < |routes| :: routes[k].id == id
  }

  /** The resolution a route's producer outcome amounts to. */
  function OutcomeOf(req: Request, route: Route, o: Produced): Resolution
  {
    match o
    case Produced(response) => Resolved(ResolvedRoute(req, response, route))
    case Raised(cause) => Threw(cause)
  }

  /** Where the newest-first scan of `routes[..n]` stops. */
  datatype Hit = Hit(index: nat, outcome: Produced) | Miss

  /** The backward iteration shared by the persistent and one-off registries: the
      scan stops at the newest route of `routes[..n]` accepting the request. */
  function Search(routes: seq<Route>, req: Request, n: nat): (h: Hit)
    requires n <= |routes|
    ensures h.Miss? <==> forall k | 0 <= k < n :: !routes[k].accepts(req)
    ensures h.Hit? ==>
      && h.index < n
      && routes[h.index].accepts(req)
      && h.outcome == routes[h.index].respond(req)
      && forall k | h.index < k < n :: !routes[k].accepts(req)
    decreases n
  {
    if n == 0 then Miss
    else match Resolve(routes[n - 1], req)
      case Some(o) => Hit(n - 1, o)
      case None => Search(routes, req, n - 1)
  }

  /** `StaticRouting.resolve`: the newest matching route's outcome, or nothing
      when no route matches. The registry itself does not change. */
  function ResolveStatic(reg: Registry, req: Request): (r: Resolution)
    ensures r.Unresolved? <==> NoneAccepts(reg.routes, req)
    ensures forall i | NewestMatch(reg.routes, req, i) ::
      r == OutcomeOf(req, reg.routes[i], reg.routes[i].respond(req))
    ensures r.Resolved? ==> r.resolved.request == req
  {
    match Search(reg.routes, req, |reg.routes|)
    case Miss => Unresolved
    case Hit(i, o) =>
      assert forall j | NewestMatch(reg.routes, req, j) :: j == i by {
        forall j | NewestMatch(reg.routes, req, j) ensures j == i {
          NewestMatchUnique(reg.routes, req, i, j);
        }
      }
      OutcomeOf(req, reg.routes[i], o)
  }

  /** There is at most one newest match. */
  lemma NewestMatchUnique(routes: seq<Route>, req: Request, i: int, j: int)
    requires NewestMatch(routes, req, i) && NewestMatch(routes, req, j)
    ensures i == j
  {
  }

  /** `route(r)`: appends the route. */
  function Add(reg: Registry, route: Route): (r: Registry)
    ensures |r.routes| == |reg.routes| + 1 && r.routes[|reg.routes|] == route
    ensures r.routes[..|reg.routes|] == reg.routes
  {
    Registry(reg.routes + [route])
  }

  /** `remove(r)`: deletes the first occurrence of the route object, if any. */
  function Remove(reg: Registry, id: nat): (r: Registry)
    ensures !HasId(reg.routes, id) ==> r == reg
    ensures HasId(reg.routes, id) ==> exists i | 0 <= i < |reg.routes| ::
      && reg.routes[i].id == id
      && (forall k | 0 <= k < i :: reg.routes[k].id != id)
      && r.routes == RemoveAt(reg.routes, i)
  {
    var r := RemoveFirst(reg.routes, (route: Route) => route.id == id);
    var i := IndexWhere(reg.routes, (route: Route) => route.id == id);
    assert i < |reg.routes| ==> r == RemoveAt(reg.routes, i);
    Registry(r)
  }

  /** `clear()`. */
  function Clear(reg: Registry): (r: Registry)
    ensures |r.routes| == 0
  {
    Registry([])
  }

  /** Later declarations override earlier ones: a route just added that accepts
      the request is the one that answers it. */
  lemma AddedRouteWins(reg: Registry, route: Route, req: Request)
    requires route.accepts(req)
    ensures ResolveStatic(Add(reg, route), req) == OutcomeOf(req, route, route.respond(req))
  {
    assert NewestMatch(Add(reg, route).routes, req, |reg.routes|);
  }

  /** Adding a route that does not accept the request leaves its resolution as it was. */
  lemma AddedNonMatchKeepsResolution(reg: Registry, route: Route, req: Request)
    requires !route.accepts(req)
    ensures ResolveStatic(Add(reg, route), req) == ResolveStatic(reg, req)
  {
    var routes := Add(reg, route).routes;
    if !NoneAccepts(reg.routes, req) {
      var h := Search(reg.routes, req, |reg.routes|);
      assert NewestMatch(reg.routes, req, h.index);
      assert NewestMatch(routes, req, h.index);
    }
  }

  /** Adding a fresh route and removing it again restores the registry. */
  lemma AddThenRemove(reg: Registry, route: Route)
    requires !HasId(reg.routes, route.id)
    ensures Remove(Add(reg, route), route.id) == reg
  {
    var routes := Add(reg, route).routes;
    var i := IndexWhere(routes, (r: Route) => r.id == route.id);
    assert i == |reg.routes|;
    assert RemoveAt(routes, i) == reg.routes;
  }

  /** Deleting one route of a list of distinct routes leaves distinct routes, none
      of which has the deleted route's identity. */
  lemma RemoveAtUnique(routes: seq<Route>, i: nat)
    requires UniqueIds(routes) && i < |routes|
    ensures !HasId(RemoveAt(routes, i), routes[i].id)
    ensures UniqueIds(RemoveAt(routes, i))
  {
    var r := RemoveAt(routes, i);
    forall k | 0 <= k < |r|
      ensures r[k].id != routes[i].id
    {
      if k >= i { assert r[k] == routes[k + 1]; }
    }
    forall a, b | 0 <= a < b < |r|
      ensures r[a].id != r[b].id
    {
      var a' := if a < i then a else a + 1;
      var b' := if b < i then b else b + 1;
      assert r[a] == routes[a'] && r[b] == routes[b'];
    }
  }

  /** In a registry of distinct routes, a removed route never answers again. */
  lemma RemovedRouteGone(reg: Registry, id: nat, req: Request)
    requires UniqueIds(reg.routes)
    ensures !HasId(Remove(reg, id).routes, id)
    ensures UniqueIds(Remove(reg, id).routes)
    ensures ResolveStatic(Remove(reg, id), req).Resolved? ==>
      ResolveStatic(Remove(reg, id), req).resolved.route.id != id
  {
    var r := Remove(reg, id);
    if HasId(reg.routes, id) {
      var i :| 0 <= i < |reg.routes| && reg.routes[i].id == id &&
        (forall k | 0 <= k < i :: reg.routes[k].id != id) && r.routes == RemoveAt(reg.routes, i);
      RemoveAtUnique(reg.routes, i);
    }
    ResolvedRouteIsMember(r, req);
  }

  /** The route of a resolution is one of the registry's routes. */
  lemma ResolvedRouteIsMember(reg: Registry, req: Request)
    ensures ResolveStatic(reg, req).Resolved? ==>
      exists k | 0 <= k < |reg.routes| :: reg.routes[k] == ResolveStatic(reg, req).resolved.route
  {
    if !NoneAccepts(reg.routes, req) {
      var h := Search(reg.routes, req, |reg.routes|);
      assert NewestMatch(reg.routes, req, h.index);
    }
  }

  // ---------------------------------------------------------------------------
  // One-off registry
  // ---------------------------------------------------------------------------

  /** `OneOffRouting.resolve`: the same newest-first search, but the matched
      route is removed as part of a successful resolution. A producer that
      raises leaves the registry as it was. */
  function ResolveOneOff(reg: Registry, req: Request): (r: (Resolution, Registry))
    ensures r.0 == ResolveStatic(reg, req)
    ensures !r.0.Resolved? ==> r.1 == reg
    ensures forall i | NewestMatch(reg.routes, req, i) ::
      r.0.Resolved? ==> r.1.routes == RemoveAt(reg.routes, i)
  {
    match Search(reg.routes, req, |reg.routes|)
    case Miss => (Unresolved, reg)
    case Hit(i, Raised(cause)) => (Threw(cause), reg)
    case Hit(i, Produced(response)) =>
      (Resolved(ResolvedRoute(req, response, reg.routes[i])), Registry(RemoveAt(reg.routes, i)))
  }

  /** A one-off route fires at most once: after it resolved a request it is gone
      from a registry of distinct routes, so no later resolution returns it. */
  lemma OneOffFiresOnce(reg: Registry, req: Request, later: Request)
    requires UniqueIds(reg.routes)
    requires ResolveOneOff(reg, req).0.Resolved?
    ensures var (first, rest) := ResolveOneOff(reg, req);
      && UniqueIds(rest.routes)
      && !HasId(rest.routes, first.resolved.route.id)
      && (ResolveOneOff(rest, later).0.Resolved? ==>
            ResolveOneOff(rest, later).0.resolved.route.id != first.resolved.route.id)
  {
    var (first, rest) := ResolveOneOff(reg, req);
    var i := Search(reg.routes, req, |reg.routes|).index;
    assert NewestMatch(reg.routes, req, i);
    var id := reg.routes[i].id;
    assert Remove(reg, id) == rest by {
      IndexWhereUnique(reg.routes, (route: Route) => route.id == id, i);
    }
    RemovedRouteGone(reg, id, later);
  }

  /** Without distinct routes the one-off guarantee fails: the source lets the
      same route be added twice, and then it answers twice, the newer copy first. */
  lemma DuplicateOneOffFiresTwice(route: Route, req: Request)
    requires route.accepts(req) && route.respond(req).Produced?
    ensures var (first, rest) := ResolveOneOff(Registry([route, route]), req);
      && first == Resolved(ResolvedRoute(req, route.respond(req).response, route))
      && rest == Registry([route])
      && ResolveOneOff(rest, req) ==
           (Resolved(ResolvedRoute(req, route.respond(req).response, route)), Registry([]))
  {
    var reg := Registry([route, route]);
    assert NewestMatch(reg.routes, req, 1);
    assert RemoveAt(reg.routes, 1) == [route];
    assert NewestMatch([route], req, 0);
    assert RemoveAt([route], 0) == [];
  }

  // ---------------------------------------------------------------------------
  // Composite registry
  // ---------------------------------------------------------------------------

  /** The root registry: a one-off tier, its own routes and a stub tier. */
  datatype Composite = Composite(oneOff: Registry, own: Registry, stub: Registry)

  /** Which registry of the composite a declaration goes to (`oneOff { }`, the
      root itself, `stub { }`). */
  datatype Tier = OneOffTier | OwnTier | StubTier

  function TierOf(c: Composite, tier: Tier): Registry
  {
    match tier
    case OneOffTier => c.oneOff
    case OwnTier => c.own
    case StubTier => c.stub
  }

  function WithTier(c: Composite, tier: Tier, reg: Registry): (r: Composite)
    ensures TierOf(r, tier) == reg
    ensures forall t | t != tier :: TierOf(r, t) == TierOf(c, t)
  {
    match tier
    case OneOffTier => c.(oneOff := reg)
    case OwnTier => c.(own := reg)
    case StubTier => c.(stub := reg)
  }

  function AddTo(c: Composite, tier: Tier, route: Route): (r: Composite)
    ensures TierOf(r, tier) == Add(TierOf(c, tier), route)
    ensures forall t | t != tier :: TierOf(r, t) == TierOf(c, t)
  {
    WithTier(c, tier, Add(TierOf(c, tier), route))
  }

  function RemoveFrom(c: Composite, tier: Tier, id: nat): (r: Composite)
    ensures TierOf(r, tier) == Remove(TierOf(c, tier), id)
    ensures forall t | t != tier :: TierOf(r, t) == TierOf(c, t)
  {
    WithTier(c, tier, Remove(TierOf(c, tier), id))
  }

  function ClearTier(c: Composite, tier: Tier): (r: Composite)
    ensures |TierOf(r, tier).routes| == 0
    ensures forall t | t != tier :: TierOf(r, t) == TierOf(c, t)
  {
    WithTier(c, tier, Clear(TierOf(c, tier)))
  }

  /** `CompositeRouting.resolve`: the first tier that does not come back empty
      decides, in the order one-off, own, stub. Only the one-off tier changes,
      and only when it resolved the request. */
  function ResolveComposite(c: Composite, req: Request): (r: (Resolution, Composite))
    ensures r.1.own == c.own && r.1.stub == c.stub
    ensures !ResolveStatic(c.oneOff, req).Unresolved? ==>
      r.0 == ResolveStatic(c.oneOff, req) && r.1.oneOff == ResolveOneOff(c.oneOff, req).1
    ensures ResolveStatic(c.oneOff, req).Unresolved? ==> r.1 == c
    ensures ResolveStatic(c.oneOff, req).Unresolved? && !ResolveStatic(c.own, req).Unresolved? ==>
      r.0 == ResolveStatic(c.own, req)
    ensures ResolveStatic(c.oneOff, req).Unresolved? && ResolveStatic(c.own, req).Unresolved? ==>
      r.0 == ResolveStatic(c.stub, req)
    ensures r.0.Unresolved? <==>
      NoneAccepts(c.oneOff.routes, req) && NoneAccepts(c.own.routes, req) &&
      NoneAccepts(c.stub.routes, req)
  {
    var (first, oneOff') := ResolveOneOff(c.oneOff, req);
    if !first.Unresolved? then (first, c.(oneOff := oneOff'))
    else
      var second := ResolveStatic(c.own, req);
      if !second.Unresolved? then (second, c)
      else (ResolveStatic(c.stub, req), c)
  }

  /** A one-off route and an own route both match: the one-off answers first and
      is consumed, and the same request then falls through to the own route. */
  lemma OneOffThenOwn(c: Composite, req: Request, i: nat, j: nat)
    requires NewestMatch(c.oneOff.routes, req, i)
    requires forall k | 0 <= k < |c.oneOff.routes| && k != i :: !c.oneOff.routes[k].accepts(req)
    requires c.oneOff.routes[i].respond(req).Produced?
    requires NewestMatch(c.own.routes, req, j)
    ensures var (first, c1) := ResolveComposite(c, req);
      && first == OutcomeOf(req, c.oneOff.routes[i], c.oneOff.routes[i].respond(req))
      && c1.own == c.own && c1.stub == c.stub
      && ResolveComposite(c1, req).0 == OutcomeOf(req, c.own.routes[j], c.own.routes[j].respond(req))
  {
    var (first, c1) := ResolveComposite(c, req);
    var rest := c1.oneOff.routes;
    assert rest == RemoveAt(c.oneOff.routes, i);
    assert NoneAccepts(rest, req) by {
      forall k | 0 <= k < |rest| ensures !rest[k].accepts(req) {
        if k >= i { assert rest[k] == c.oneOff.routes[k + 1]; }
      }
    }
  }
}

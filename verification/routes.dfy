/** A route: a description, a request predicate and a response producer. Routes
    are immutable values; `id` stands for the object identity the registries and
    the recording/counting decorators compare routes by. */
module Routes {
  import opened Basics
  import opened Http
  import RequestMatching

  /** What a response producer gives back: a response, or an exception it raised. */
  datatype Produced = Produced(response: Response) | Raised(cause: string)

  datatype Route = Route(
    id: nat,
    description: string,
    accepts: Request -> bool,
    respond: Request -> Produced)

  /** `MatcherRoute.resolve`: the producer's outcome for a request the predicate
      accepts, and nothing (not an error) for any other request. The producer is
      applied to the request on every call, so echoing routes see each request. */
  function Resolve(route: Route, req: Request): (r: Option<Produced>)
    ensures r.Some? <==> route.accepts(req)
    ensures r.Some? ==> r.value == route.respond(req)
  {
    if route.accepts(req) then Some(route.respond(req)) else None
  }

  /** `route(description, request, response)` with a built request matcher and
      a producer computed from the request. */
  function MatcherRoute(
    id: nat, description: string, matcher: RequestMatching.RequestMatcher,
    respond: Request -> Produced): (r: Route)
    ensures r.id == id && r.description == description
    ensures forall req :: Resolve(r, req).Some? <==> RequestMatching.Accepts(matcher, req)
  {
    Route(id, description, req => RequestMatching.Accepts(matcher, req), respond)
  }

  /** `route(description, request, response)` with a fixed response. */
  function FixedRoute(
    id: nat, description: string, matcher: RequestMatching.RequestMatcher,
    response: Response): (r: Route)
    ensures forall req :: Resolve(r, req).Some? <==> RequestMatching.Accepts(matcher, req)
    ensures forall req :: Resolve(r, req).Some? ==> Resolve(r, req).value == Produced(response)
  {
    MatcherRoute(id, description, matcher, _ => Produced(response))
  }
}

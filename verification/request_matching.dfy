/** The request predicate: a builder that accepts at most one constraint per
    request field (method, path, query, body, headers) and builds the conjunction
    of the constraints that were set; plus the path and method shorthands. */
module RequestMatching {
  import opened Basics
  import opened Http
  import opened Text
  import QueryMatching

  /** The five request fields a definition may constrain. */
  datatype Field = MethodField | PathField | QueryField | BodyField | HeadersField

  /** One builder call: a predicate on one field of the request. */
  datatype Constraint =
    | MethodIs(onMethod: string -> bool)
    | PathIs(onPath: string -> bool)
    | QueryIs(onQuery: Option<string> -> bool)
    | BodyIs(onBody: string -> bool)
    | HeadersAre(onHeaders: Headers -> bool)

  function FieldOf(c: Constraint): Field
  {
    match c
    case MethodIs(_) => MethodField
    case PathIs(_) => PathField
    case QueryIs(_) => QueryField
    case BodyIs(_) => BodyField
    case HeadersAre(_) => HeadersField
  }

  /** The constraint's predicate applied to the request field it reads. */
  predicate Holds(c: Constraint, req: Request)
  {
    match c
    case MethodIs(p) => p(req.httpMethod)
    case PathIs(p) => p(req.path)
    case QueryIs(p) => p(req.query)
    case BodyIs(p) => p(req.body)
    case HeadersAre(p) => p(req.headers)
  }

  /** The builder's five optional slots. */
  datatype Builder = Builder(
    methodMatcher: Option<string -> bool>,
    pathMatcher: Option<string -> bool>,
    queryMatcher: Option<Option<string> -> bool>,
    bodyMatcher: Option<string -> bool>,
    headersMatcher: Option<Headers -> bool>)

  function EmptyBuilder(): Builder
  {
    Builder(None, None, None, None, None)
  }

  predicate IsSet(b: Builder, f: Field)
  {
    match f
    case MethodField => b.methodMatcher.Some?
    case PathField => b.pathMatcher.Some?
    case QueryField => b.queryMatcher.Some?
    case BodyField => b.bodyMatcher.Some?
    case HeadersField => b.headersMatcher.Some?
  }

  /** One builder call. A field may be defined once: a second definition fails
      with that field (the source's `require`) and no builder comes out of it. */
  function Define(b: Builder, c: Constraint): (r: Result<Builder, Field>)
    ensures r.Failure? <==> IsSet(b, FieldOf(c))
    ensures r.Failure? ==> r.error == FieldOf(c)
    ensures r.Success? ==> forall f :: IsSet(r.value, f) <==> IsSet(b, f) || f == FieldOf(c)
    ensures r.Success? ==> forall f | f != FieldOf(c) :: Slot(r.value, f) == Slot(b, f)
    ensures r.Success? ==> forall req :: SlotAccepts(r.value, FieldOf(c), req) == Holds(c, req)
  {
    match c
    case MethodIs(p) =>
      if b.methodMatcher.Some? then Failure(MethodField)
      else Success(b.(methodMatcher := Some(p)))
    case PathIs(p) =>
      if b.pathMatcher.Some? then Failure(PathField)
      else Success(b.(pathMatcher := Some(p)))
    case QueryIs(p) =>
      if b.queryMatcher.Some? then Failure(QueryField)
      else Success(b.(queryMatcher := Some(p)))
    case BodyIs(p) =>
      if b.bodyMatcher.Some? then Failure(BodyField)
      else Success(b.(bodyMatcher := Some(p)))
    case HeadersAre(p) =>
      if b.headersMatcher.Some? then Failure(HeadersField)
      else Success(b.(headersMatcher := Some(p)))
  }

  /** The property matcher of one slot, reading its field off the request. */
  function Slot(b: Builder, f: Field): Option<Request -> bool>
  {
    match f
    case MethodField =>
      if b.methodMatcher.Some? then Some((req: Request) => b.methodMatcher.value(req.httpMethod)) else None
    case PathField =>
      if b.pathMatcher.Some? then Some((req: Request) => b.pathMatcher.value(req.path)) else None
    case QueryField =>
      if b.queryMatcher.Some? then Some((req: Request) => b.queryMatcher.value(req.query)) else None
    case BodyField =>
      if b.bodyMatcher.Some? then Some((req: Request) => b.bodyMatcher.value(req.body)) else None
    case HeadersField =>
      if b.headersMatcher.Some? then Some((req: Request) => b.headersMatcher.value(req.headers)) else None
  }

  /** A built matcher: the conjunction of a list of property matchers. */
  datatype RequestMatcher = AllOf(properties: seq<Request -> bool>)

  predicate Accepts(m: RequestMatcher, req: Request)
  {
    forall i | 0 <= i < |m.properties| :: m.properties[i](req)
  }

  /** How many of the five fields are set. */
  function SetCount(b: Builder): (n: nat)
    ensures n <= 5
  {
    (if IsSet(b, MethodField) then 1 else 0) + (if IsSet(b, PathField) then 1 else 0) +
    (if IsSet(b, QueryField) then 1 else 0) + (if IsSet(b, BodyField) then 1 else 0) +
    (if IsSet(b, HeadersField) then 1 else 0)
  }

  /** `build()`: the property matchers of the slots that were set, in field order:
      one per set field, each set field's matcher among them. */
  function Build(b: Builder): (m: RequestMatcher)
    ensures |m.properties| == SetCount(b)
    ensures forall f | IsSet(b, f) :: Slot(b, f).Some? && Slot(b, f).value in m.properties
    ensures IsSet(b, MethodField) ==> m.properties[0] == Slot(b, MethodField).value
  {
    var s := [Slot(b, MethodField), Slot(b, PathField), Slot(b, QueryField),
              Slot(b, BodyField), Slot(b, HeadersField)];
    SlotsCount(b);
    SomesKeeps(s);
    assert forall f | IsSet(b, f) :: Slot(b, f) in s;
    AllOf(Somes(s))
  }

  lemma SlotsCount(b: Builder)
    ensures |Somes([Slot(b, MethodField), Slot(b, PathField), Slot(b, QueryField),
                    Slot(b, BodyField), Slot(b, HeadersField)])| == SetCount(b)
    ensures IsSet(b, MethodField) ==>
      Somes([Slot(b, MethodField), Slot(b, PathField), Slot(b, QueryField),
             Slot(b, BodyField), Slot(b, HeadersField)])[0] == Slot(b, MethodField).value
  {
    var s5 := [Slot(b, HeadersField)];
    var s4 := [Slot(b, BodyField)] + s5;
    var s3 := [Slot(b, QueryField)] + s4;
    var s2 := [Slot(b, PathField)] + s3;
    var s1 := [Slot(b, MethodField)] + s2;
    assert s1 == [Slot(b, MethodField), Slot(b, PathField), Slot(b, QueryField),
                  Slot(b, BodyField), Slot(b, HeadersField)];
    SomesCons(Slot(b, HeadersField), []);
    assert [Slot(b, HeadersField)] + [] == s5;
    SomesCons(Slot(b, BodyField), s5);
    SomesCons(Slot(b, QueryField), s4);
    SomesCons(Slot(b, PathField), s3);
    SomesCons(Slot(b, MethodField), s2);
  }

  /** The slot imposes no constraint when unset, and its predicate otherwise. */
  predicate SlotAccepts(b: Builder, f: Field, req: Request)
  {
    match Slot(b, f)
    case None => true
    case Some(p) => p(req)
  }

  lemma {:induction false} AllOfSomes(s: seq<Option<Request -> bool>>, req: Request)
    ensures Accepts(AllOf(Somes(s)), req)
        <==> forall i | 0 <= i < |s| :: s[i].Some? ==> s[i].value(req)
  {
    if |s| > 0 {
      var tail := s[1..];
      AllOfSomes(tail, req);
      var rest := Somes(tail);
      assert forall i | 1 <= i < |s| :: s[i] == tail[i - 1];
      match s[0]
      case None =>
        assert Somes(s) == rest;
      case Some(p) =>
        assert Somes(s) == [p] + rest;
        AcceptsCons(p, rest, req);
    }
  }

  /** A conjunction with one more property in front. */
  lemma AcceptsCons(p: Request -> bool, rest: seq<Request -> bool>, req: Request)
    ensures Accepts(AllOf([p] + rest), req) <==> p(req) && Accepts(AllOf(rest), req)
  {
    var all := [p] + rest;
    if p(req) && Accepts(AllOf(rest), req) {
      forall i | 0 <= i < |all|
        ensures all[i](req)
      {
        if i > 0 {
          assert all[i] == rest[i - 1];
        }
      }
    }
    if Accepts(AllOf(all), req) {
      assert all[0](req);
      forall i | 0 <= i < |rest|
        ensures rest[i](req)
      {
        assert all[i + 1] == rest[i];
      }
    }
  }

  /** A built matcher accepts a request iff every field that was set accepts the
      corresponding request property; unset fields impose nothing. */
  lemma BuildAccepts(b: Builder, req: Request)
    ensures Accepts(Build(b), req) <==>
      SlotAccepts(b, MethodField, req) && SlotAccepts(b, PathField, req) &&
      SlotAccepts(b, QueryField, req) && SlotAccepts(b, BodyField, req) &&
      SlotAccepts(b, HeadersField, req)
  {
    var s := [Slot(b, MethodField), Slot(b, PathField), Slot(b, QueryField),
              Slot(b, BodyField), Slot(b, HeadersField)];
    AllOfSomes(s, req);
    assert s[0] == Slot(b, MethodField) && s[1] == Slot(b, PathField) && s[2] == Slot(b, QueryField);
    assert s[3] == Slot(b, BodyField) && s[4] == Slot(b, HeadersField);
    assert (forall i | 0 <= i < |s| :: s[i].Some? ==> s[i].value(req)) <==>
      (s[0].Some? ==> s[0].value(req)) && (s[1].Some? ==> s[1].value(req)) &&
      (s[2].Some? ==> s[2].value(req)) && (s[3].Some? ==> s[3].value(req)) &&
      (s[4].Some? ==> s[4].value(req));
  }

  /** A builder with nothing set accepts every request. */
  lemma EmptyAcceptsAll(req: Request)
    ensures Accepts(Build(EmptyBuilder()), req)
  {
    BuildAccepts(EmptyBuilder(), req);
  }

  /** Defining a constraint adds exactly that conjunct to what the builder accepts. */
  lemma DefineAccepts(b: Builder, c: Constraint, req: Request)
    requires Define(b, c).Success?
    ensures Accepts(Build(Define(b, c).value), req) <==> Accepts(Build(b), req) && Holds(c, req)
  {
    BuildAccepts(b, req);
    BuildAccepts(Define(b, c).value, req);
  }

  /** Running a request definition: its builder calls in order, aborting at the
      first redefinition. */
  function Apply(b: Builder, defs: seq<Constraint>): (r: Result<Builder, Field>)
    ensures r.Failure? ==> exists i | 0 <= i < |defs| :: FieldOf(defs[i]) == r.error
    decreases |defs|
  {
    if |defs| == 0 then Success(b)
    else match Define(b, defs[0])
      case Failure(f) => Failure(f)
      case Success(b') => Apply(b', defs[1..])
  }

  /** `request { ... }`: a definition run on a fresh builder, then built. */
  function RequestOf(defs: seq<Constraint>): Result<RequestMatcher, Field>
  {
    match Apply(EmptyBuilder(), defs)
    case Failure(f) => Failure(f)
    case Success(b) => Success(Build(b))
  }

  /** No two calls of the definition constrain the same field. */
  predicate DistinctFields(defs: seq<Constraint>)
  {
    forall i, j | 0 <= i < j < |defs| :: FieldOf(defs[i]) != FieldOf(defs[j])
  }

  /** A definition runs through iff its fields are distinct and none was set before. */
  lemma {:induction false} ApplySucceeds(b: Builder, defs: seq<Constraint>)
    ensures Apply(b, defs).Success? <==>
      DistinctFields(defs) && forall i | 0 <= i < |defs| :: !IsSet(b, FieldOf(defs[i]))
    decreases |defs|
  {
    if |defs| > 0 {
      var r := Define(b, defs[0]);
      assert forall i | 1 <= i < |defs| :: defs[i] == defs[1..][i - 1];
      if r.Success? {
        ApplySucceeds(r.value, defs[1..]);
      }
    }
  }

  /** A definition that runs through accepts exactly the requests every one of
      its constraints holds for, on top of what the builder already demanded. */
  lemma {:induction false} ApplyAccepts(b: Builder, defs: seq<Constraint>, req: Request)
    requires Apply(b, defs).Success?
    ensures Accepts(Build(Apply(b, defs).value), req) <==>
      Accepts(Build(b), req) && forall i | 0 <= i < |defs| :: Holds(defs[i], req)
    decreases |defs|
  {
    if |defs| > 0 {
      var b' := Define(b, defs[0]).value;
      DefineAccepts(b, defs[0], req);
      ApplyAccepts(b', defs[1..], req);
      assert forall i | 1 <= i < |defs| :: defs[i] == defs[1..][i - 1];
    }
  }

  /** `request { ... }` either fails on a repeated field or accepts exactly the
      requests all its constraints hold for. */
  lemma RequestOfMeans(defs: seq<Constraint>, req: Request)
    ensures RequestOf(defs).Success? <==> DistinctFields(defs)
    ensures RequestOf(defs).Success? ==>
      (Accepts(RequestOf(defs).value, req) <==> forall i | 0 <= i < |defs| :: Holds(defs[i], req))
  {
    ApplySucceeds(EmptyBuilder(), defs);
    if RequestOf(defs).Success? {
      ApplyAccepts(EmptyBuilder(), defs, req);
      EmptyAcceptsAll(req);
    }
  }

  // ---------------------------------------------------------------------------
  // Shorthands
  // ---------------------------------------------------------------------------

  /** `method("GET")` and friends: the method compared for equality. */
  function MethodEqualTo(verb: string): (c: Constraint)
    ensures FieldOf(c) == MethodField
    ensures forall req :: Holds(c, req) <==> req.httpMethod == verb
  {
    MethodIs(m => m == verb)
  }

  /** `get { ... }`, `post { ... }`, `put { ... }`, `delete { ... }`: the method is
      fixed first, then the caller's definition runs. */
  function WithMethod(verb: string, defs: seq<Constraint>): Result<RequestMatcher, Field>
  {
    RequestOf([MethodEqualTo(verb)] + defs)
  }

  function Get(defs: seq<Constraint>): Result<RequestMatcher, Field> { WithMethod("GET", defs) }
  function Post(defs: seq<Constraint>): Result<RequestMatcher, Field> { WithMethod("POST", defs) }
  function Put(defs: seq<Constraint>): Result<RequestMatcher, Field> { WithMethod("PUT", defs) }
  function Delete(defs: seq<Constraint>): Result<RequestMatcher, Field> { WithMethod("DELETE", defs) }

  /** A method shorthand only accepts its own verb, and a definition inside it
      that sets the method again fails on the method field. */
  lemma {:induction false} WithMethodMeans(verb: string, defs: seq<Constraint>, req: Request)
    ensures (exists i | 0 <= i < |defs| :: FieldOf(defs[i]) == MethodField) ==>
      WithMethod(verb, defs).Failure?
    ensures WithMethod(verb, defs).Success? && Accepts(WithMethod(verb, defs).value, req) ==>
      req.httpMethod == verb
  {
    var all := [MethodEqualTo(verb)] + defs;
    var b1 := Define(EmptyBuilder(), MethodEqualTo(verb)).value;
    assert all[1..] == defs;
    assert Apply(EmptyBuilder(), all) == Apply(b1, defs);
    if exists i | 0 <= i < |defs| :: FieldOf(defs[i]) == MethodField {
      MethodRedefined(b1, defs);
    }
    if WithMethod(verb, defs).Success? {
      RequestOfMeans(all, req);
      assert all[0] == MethodEqualTo(verb);
    }
  }

  /** Once the method slot is taken, a definition that sets it again fails on it. */
  lemma {:induction false} MethodRedefined(b: Builder, defs: seq<Constraint>)
    requires IsSet(b, MethodField)
    requires exists i | 0 <= i < |defs| :: FieldOf(defs[i]) == MethodField
    ensures Apply(b, defs).Failure?
    decreases |defs|
  {
    var r := Define(b, defs[0]);
    if r.Success? {
      assert FieldOf(defs[0]) != MethodField;
      var i :| 0 <= i < |defs| && FieldOf(defs[i]) == MethodField;
      assert defs[1..][i - 1] == defs[i];
      MethodRedefined(r.value, defs[1..]);
    }
  }

  /** `path("/x")`: exact equality. */
  function PathEqualTo(path: string): Constraint
  {
    PathIs(p => p == path)
  }

  /** `pathEnd(end)`: suffix match. */
  function PathEnd(end: string): Constraint
  {
    PathIs(p => EndsWith(p, end))
  }

  /** `pathContains(fragment)`: substring match. */
  function PathContains(fragment: string): Constraint
  {
    PathIs(p => Contains(p, fragment))
  }

  /** `pathContainsAny(...)`: `anyOf` of substring matches (none for no fragments). */
  function PathContainsAny(fragments: seq<string>): Constraint
  {
    PathIs(p => exists i | 0 <= i < |fragments| :: Contains(p, fragments[i]))
  }

  /** `pathContainsAll(...)`: `allOf` of substring matches (any path for no fragments). */
  function PathContainsAll(fragments: seq<string>): Constraint
  {
    PathIs(p => forall i | 0 <= i < |fragments| :: Contains(p, fragments[i]))
  }

  /** How the path shorthands relate: exact implies suffix implies substring; a
      single fragment makes "any" and "all" coincide with `pathContains`; "all"
      of a non-empty list implies "any"; the empty lists accept nothing and
      everything respectively. */
  lemma PathShorthands(req: Request, path: string, fragments: seq<string>)
    ensures Holds(PathEqualTo(path), req) ==> Holds(PathEnd(path), req)
    ensures Holds(PathEnd(path), req) ==> Holds(PathContains(path), req)
    ensures Holds(PathContainsAny([path]), req) <==> Holds(PathContains(path), req)
    ensures Holds(PathContainsAll([path]), req) <==> Holds(PathContains(path), req)
    ensures |fragments| > 0 && Holds(PathContainsAll(fragments), req) ==>
      Holds(PathContainsAny(fragments), req)
    ensures !Holds(PathContainsAny([]), req) && Holds(PathContainsAll([]), req)
  {
    var p := req.path;
    assert [path][0] == path;
    if EndsWith(p, path) {
      assert OccursAt(path, p, |p| - |path|);
    }
    if |fragments| > 0 && Holds(PathContainsAll(fragments), req) {
      assert Contains(p, fragments[0]);
    }
  }

  /** `query(pairs)` on the builder: the query matcher with subset semantics. */
  function QueryPairs(pool: seq<QueryMatching.QueryPair>): (c: Constraint)
    ensures FieldOf(c) == QueryField
    ensures forall req :: Holds(c, req) <==>
      req.query.Some? && QueryMatching.QueryMatches(pool, false, req.query.value)
  {
    QueryIs(QueryMatching.QueryPredicate(pool, false))
  }
}

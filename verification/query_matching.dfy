/** The query-string matcher: the parser that cuts a raw query into (name, value)
    parameters, and the consuming match of those parameters against an ordered
    pool of (name predicate, value predicate) pairs. */
module QueryMatching {
  import opened Basics
  import opened Text

  // ---------------------------------------------------------------------------
  // Parsing
  // ---------------------------------------------------------------------------

  /** One `&`-separated segment cut at its first `=`; a segment without `=` is a
      name whose value is the empty string (never an absent value). */
  function ParseSegment(seg: string): (p: (string, string))
    ensures '=' !in p.0
    ensures '=' !in seg ==> p == (seg, "")
    ensures '=' in seg ==> p.0 + "=" + p.1 == seg
    ensures '&' !in seg ==> '&' !in p.0 && '&' !in p.1
  {
    var e := Find(seg, '=');
    if e == |seg| then (seg, "")
    else
      assert seg == seg[..e] + "=" + seg[e + 1..];
      (seg[..e], seg[e + 1..])
  }

  /** The parameters of a raw query string, in order: one per `&`-separated segment. */
  function Parameters(query: string): (ps: seq<(string, string)>)
    ensures |ps| == |Split(query, '&')|
  {
    ParseAll(Split(query, '&'))
  }

  /** Every segment parsed, in order. */
  function ParseAll(segs: seq<string>): (ps: seq<(string, string)>)
    ensures |ps| == |segs|
  {
    if |segs| == 0 then [] else [ParseSegment(segs[0])] + ParseAll(segs[1..])
  }

  /** Parameter `k` is segment `k` cut at its first `=`. */
  lemma {:induction false} ParseAllAt(segs: seq<string>, k: nat)
    requires k < |segs|
    ensures ParseAll(segs)[k] == ParseSegment(segs[k])
    decreases k
  {
    if k > 0 {
      ParseAllAt(segs[1..], k - 1);
    }
  }

  /** Parameter `k` is segment `k` cut at its first `=`: its name holds neither `=`
      nor `&`, and its value holds no `&`. */
  lemma ParameterAt(query: string, k: nat)
    requires k < |Parameters(query)|
    ensures Parameters(query)[k] == ParseSegment(Split(query, '&')[k])
    ensures '=' !in Parameters(query)[k].0
    ensures '&' !in Parameters(query)[k].0 && '&' !in Parameters(query)[k].1
  {
    ParseAllAt(Split(query, '&'), k);
  }

  /** A query with `n` ampersands has `n + 1` parameters. */
  lemma ParametersCount(query: string)
    ensures |Parameters(query)| == Count(query, '&') + 1
  {
    SplitCount(query, '&');
  }

  /** Unfolding of `Parameters` at the first `&`, at index `a`, the step the
      parser's loop takes. */
  lemma ParametersFirst(t: string, a: nat)
    requires Find(t, '&') == a
    ensures a == |t| ==> Parameters(t) == [ParseSegment(t)]
    ensures a < |t| ==> Parameters(t) == [ParseSegment(t[..a])] + Parameters(t[a + 1..])
  {
    SplitFirst(t, '&');
    if a < |t| {
      var restSegs := Split(t[a + 1..], '&');
      assert Split(t, '&') == [t[..a]] + restSegs;
      assert ([t[..a]] + restSegs)[1..] == restSegs;
    }
  }

  /** The parser as the source writes it: a cursor that jumps from one `&` to the
      next, locating the `=` with `indexOf` over the whole remaining string. */
  method ParseQuery(query: string) returns (pairs: seq<(string, string)>)
    ensures pairs == Parameters(query)
  {
    pairs := [];
    var pos := 0;
    assert query[pos..] == query;
    while pos <= |query|
      invariant 0 <= pos <= |query| + 1
      invariant pos <= |query| ==> pairs + Parameters(query[pos..]) == Parameters(query)
      invariant pos == |query| + 1 ==> pairs == Parameters(query)
      decreases |query| + 1 - pos
    {
      var pair, amp := NextPair(query, pos);
      Advance(query, pairs, pos, amp, pair);
      pairs := pairs + [pair];
      pos := amp + 1;
    }
  }

  /** One turn of the parser's loop body: the next `&` (or the end), the first `=`
      from `pos` on, and the pair cut out between them, which is the segment up
      to that `&` cut at its first `=`. */
  method NextPair(query: string, pos: nat) returns (pair: (string, string), amp: nat)
    requires pos <= |query|
    ensures pos <= amp <= |query|
    ensures amp < |query| ==> query[amp] == '&'
    ensures forall j | pos <= j < amp :: query[j] != '&'
    ensures pair == ParseSegment(query[pos..amp])
  {
    var a := IndexOf(query, '&', pos);
    if a == -1 {
      a := |query|;
    }
    amp := a;
    var eq := IndexOf(query, '=', pos);
    if eq == -1 || eq > amp {
      pair := (query[pos..amp], "");
    } else {
      pair := (query[pos..eq], query[eq + 1..amp]);
    }
    assert pair == CutPair(query, pos, amp, eq);
    SegmentAt(query, pos, amp, eq);
  }

  /** The loop invariant survives one turn of the parser's loop. */
  lemma Advance(query: string, pairs: seq<(string, string)>, pos: nat, amp: nat, pair: (string, string))
    requires pos <= amp <= |query|
    requires amp < |query| ==> query[amp] == '&'
    requires forall j | pos <= j < amp :: query[j] != '&'
    requires pair == ParseSegment(query[pos..amp])
    requires pairs + Parameters(query[pos..]) == Parameters(query)
    ensures amp < |query| ==> (pairs + [pair]) + Parameters(query[amp + 1..]) == Parameters(query)
    ensures amp == |query| ==> pairs + [pair] == Parameters(query)
  {
    FindInRest(query, pos, amp);
    if amp < |query| {
      ParseStep(query, pos, amp);
      var rest := Parameters(query[amp + 1..]);
      assert (pairs + [pair]) + rest == pairs + ([pair] + rest);
    } else {
      ParseLast(query, pos);
    }
  }

  /** One turn of the parser's loop: the segment up to the next `&` is the first
      parameter of the rest of the query, and the parser resumes after the `&`. */
  lemma ParseStep(query: string, pos: nat, amp: nat)
    requires pos <= amp < |query|
    requires Find(query[pos..], '&') == amp - pos
    ensures Parameters(query[pos..]) == [ParseSegment(query[pos..amp])] + Parameters(query[amp + 1..])
  {
    SplitAt(query, pos, amp, '&');
    ParseAllCons(query[pos..amp], Split(query[amp + 1..], '&'));
  }

  lemma ParseAllCons(seg: string, segs: seq<string>)
    ensures ParseAll([seg] + segs) == [ParseSegment(seg)] + ParseAll(segs)
  {
    assert ([seg] + segs)[1..] == segs;
  }

  /** The last turn: with no `&` left, the rest of the query is one parameter. */
  lemma ParseLast(query: string, pos: nat)
    requires pos <= |query|
    requires Find(query[pos..], '&') == |query| - pos
    ensures Parameters(query[pos..]) == [ParseSegment(query[pos..|query|])]
  {
    var t := query[pos..];
    ParametersFirst(t, |query| - pos);
    assert t == query[pos..|query|];
    assert ParseSegment(t) == ParseSegment(query[pos..|query|]);
  }

  /** The next `&` from `pos` on, seen from the rest of the query. */
  lemma FindInRest(query: string, pos: nat, amp: nat)
    requires pos <= amp <= |query|
    requires amp < |query| ==> query[amp] == '&'
    requires forall j | pos <= j < amp :: query[j] != '&'
    ensures Find(query[pos..], '&') == amp - pos
  {
    var t := query[pos..];
    forall j | 0 <= j < amp - pos
      ensures t[j] != '&'
    {
      assert t[j] == query[pos + j];
    }
    FindAt(t, '&', amp - pos);
  }

  /** The pair the parser cuts out of `query[pos..amp]` given the `=` position `eq`. */
  function CutPair(query: string, pos: nat, amp: nat, eq: int): (string, string)
    requires pos <= amp <= |query|
    requires eq == -1 || pos <= eq < |query|
    requires eq != amp
  {
    if eq == -1 || eq > amp then (query[pos..amp], "")
    else (query[pos..eq], query[eq + 1..amp])
  }

  /** The pair the parser builds from `indexOf('=')` is the segment cut at its first `=`. */
  lemma SegmentAt(query: string, pos: nat, amp: nat, eq: int)
    requires pos <= amp <= |query|
    requires amp < |query| ==> query[amp] == '&'
    requires eq == IndexOf(query, '=', pos)
    ensures ParseSegment(query[pos..amp]) == CutPair(query, pos, amp, eq)
  {
    if eq == -1 || eq > amp {
      SegmentWithoutEquals(query, pos, amp);
    } else {
      SegmentWithEquals(query, pos, amp, eq);
    }
  }

  lemma SegmentWithoutEquals(query: string, pos: nat, amp: nat)
    requires pos <= amp <= |query|
    requires forall j | pos <= j < amp :: query[j] != '='
    ensures ParseSegment(query[pos..amp]) == (query[pos..amp], "")
  {
    var seg := query[pos..amp];
    assert forall j | 0 <= j < |seg| :: seg[j] == query[pos + j];
    FindAt(seg, '=', |seg|);
  }

  lemma SegmentWithEquals(query: string, pos: nat, amp: nat, eq: nat)
    requires pos <= eq < amp <= |query|
    requires query[eq] == '=' && forall j | pos <= j < eq :: query[j] != '='
    ensures ParseSegment(query[pos..amp]) == (query[pos..eq], query[eq + 1..amp])
  {
    var seg := query[pos..amp];
    assert forall j | 0 <= j < eq - pos :: seg[j] == query[pos + j];
    assert seg[eq - pos] == query[eq];
    FindAt(seg, '=', eq - pos);
    assert seg[..eq - pos] == query[pos..eq];
    assert seg[eq - pos + 1..] == query[eq + 1..amp];
  }

  /** `Find` is pinned down by its defining properties. */
  lemma FindAt(s: string, c: char, i: nat)
    requires i <= |s|
    requires i < |s| ==> s[i] == c
    requires forall j | 0 <= j < i :: s[j] != c
    ensures Find(s, c) == i
  {
    if i < |s| {
      assert forall j | 0 <= j < i :: s[..i][j] == s[j];
    }
  }

  /** The value-less parameter of a segment without `=` is the empty string. */
  lemma ValuelessParameter(query: string, k: nat)
    requires k < |Split(query, '&')|
    requires '=' !in Split(query, '&')[k]
    ensures Parameters(query)[k] == (Split(query, '&')[k], "")
  {
    ParseAllAt(Split(query, '&'), k);
  }

  /** Joining parameters back as `name=value` pieces separated by `&`. */
  function Render(ps: seq<(string, string)>): string
  {
    Join(seq(|ps|, k requires 0 <= k < |ps| => ps[k].0 + "=" + ps[k].1), '&')
  }

  /** When every segment has an `=`, rendering the parsed parameters gives back the query. */
  lemma RenderParameters(query: string)
    requires forall k | 0 <= k < |Split(query, '&')| :: '=' in Split(query, '&')[k]
    ensures Render(Parameters(query)) == query
  {
    var segs := Split(query, '&');
    var ps := Parameters(query);
    var pieces := seq(|ps|, k requires 0 <= k < |ps| => ps[k].0 + "=" + ps[k].1);
    forall k | 0 <= k < |ps|
      ensures pieces[k] == segs[k]
    {
      ParseAllAt(segs, k);
    }
    assert pieces == segs;
    JoinSplit(query, '&');
  }

  /** The empty query is one parameter with an empty name and an empty value. */
  lemma EmptyQuery()
    ensures Parameters("") == [("", "")]
  {
    assert Find("", '&') == 0;
    assert Split("", '&') == [""];
  }

  /** A segment `name=value` whose name has no `=` parses to that name and value. */
  lemma SegmentWithValue(name: string, value: string)
    requires '=' !in name
    ensures ParseSegment(name + "=" + value) == (name, value)
  {
    var seg := name + "=" + value;
    FindAt(seg, '=', |name|);
    assert seg[..|name|] == name;
    assert seg[|name| + 1..] == value;
  }

  /** A query `segment&rest` whose first segment has no `&` parses segment first. */
  lemma ParametersCons(segment: string, rest: string)
    requires '&' !in segment
    ensures Parameters(segment + "&" + rest) == [ParseSegment(segment)] + Parameters(rest)
  {
    var q := segment + "&" + rest;
    FindAt(q, '&', |segment|);
    ParametersFirst(q, |segment|);
    assert q[..|segment|] == segment;
    assert q[|segment| + 1..] == rest;
  }

  /** A query without `&` is a single parameter. */
  lemma ParametersSingle(segment: string)
    requires '&' !in segment
    ensures Parameters(segment) == [ParseSegment(segment)]
  {
    FindAt(segment, '&', |segment|);
    ParametersFirst(segment, |segment|);
  }

  /** Three segments `n1=v1&n2&n3=v3`: the middle one has no `=` and gets the
      empty value; the last keeps every `=` after its first. */
  lemma {:induction false} ThreeSegments(n1: string, v1: string, n2: string, n3: string, v3: string)
    requires '&' !in n1 && '=' !in n1 && '&' !in v1
    requires '&' !in n2 && '=' !in n2
    requires '&' !in n3 && '=' !in n3 && '&' !in v3
    ensures Parameters(n1 + "=" + v1 + "&" + n2 + "&" + n3 + "=" + v3)
      == [(n1, v1), (n2, ""), (n3, v3)]
  {
    var s1 := n1 + "=" + v1;
    var s3 := n3 + "=" + v3;
    assert '&' !in s1 && '&' !in s3;
    assert n1 + "=" + v1 + "&" + n2 + "&" + n3 + "=" + v3 == s1 + "&" + (n2 + "&" + s3);
    ParametersCons(s1, n2 + "&" + s3);
    ParametersCons(n2, s3);
    ParametersSingle(s3);
    SegmentWithValue(n1, v1);
    SegmentWithValue(n3, v3);
  }

  /** The parser's documented example: `subject=math&easy&problem=5-2=3`. */
  lemma ParseExample()
    ensures Parameters("subject=math&easy&problem=5-2=3")
      == [("subject", "math"), ("easy", ""), ("problem", "5-2=3")]
  {
    assert "subject=math&easy&problem=5-2=3"
      == "subject" + "=" + "math" + "&" + "easy" + "&" + "problem" + "=" + "5-2=3";
    ThreeSegments("subject", "math", "easy", "problem", "5-2=3");
  }

  // ---------------------------------------------------------------------------
  // Matching
  // ---------------------------------------------------------------------------

  /** A declared query constraint: a predicate on the parameter name and one on
      its value, where `None` stands for "the parameter is absent". */
  datatype QueryPair = QueryPair(name: string -> bool, value: Option<string> -> bool)

  /** The pair accepts absence: it is optional. */
  predicate Optional(p: QueryPair)
  {
    p.value(None)
  }

  /** The pair decides the fate of parameter (n, v): its name predicate accepts
      `n` and its value predicate accepts either `v` or absence. */
  predicate Settles(p: QueryPair, n: string, v: string)
  {
    p.name(n) && (p.value(Some(v)) || p.value(None))
  }

  /** The scan over the remaining pool from index `i` for one parameter (n, v):
      `None` fails the whole match, `Some(rest)` continues with pool `rest`. */
  function Scan(pool: seq<QueryPair>, exactly: bool, n: string, v: string, i: nat)
    : (r: Option<seq<QueryPair>>)
    requires i <= |pool|
    ensures (forall k | i <= k < |pool| :: !Settles(pool[k], n, v)) ==>
      r == (if exactly then None else Some(pool))
    ensures forall d | i <= d < |pool| && Settles(pool[d], n, v) ::
      (forall k | i <= k < d :: !Settles(pool[k], n, v)) ==>
        r == (if pool[d].value(Some(v)) then Some(RemoveAt(pool, d)) else None)
    decreases |pool| - i
  {
    if i == |pool| then (if exactly then None else Some(pool))
    else if pool[i].name(n) then
      if pool[i].value(Some(v)) then Some(RemoveAt(pool, i))
      else if pool[i].value(None) then None
      else Scan(pool, exactly, n, v, i + 1)
    else Scan(pool, exactly, n, v, i + 1)
  }

  /** One parameter against the pool. The first pair that settles it decides: if
      its value predicate accepts the value, that pair alone is consumed and the
      rest keep their order; if it only accepts absence, the match fails at once.
      With no settling pair, the parameter is tolerated unless `exactly`. */
  function MatchParameter(pool: seq<QueryPair>, exactly: bool, n: string, v: string)
    : (r: Option<seq<QueryPair>>)
    ensures var d := IndexWhere(pool, p => Settles(p, n, v));
      r == if d == |pool| then (if exactly then None else Some(pool))
           else if pool[d].value(Some(v)) then Some(RemoveAt(pool, d))
           else None
  {
    Scan(pool, exactly, n, v, 0)
  }

  /** All parameters in order, stopping at the first failure. */
  function MatchAll(pool: seq<QueryPair>, exactly: bool, params: seq<(string, string)>)
    : (r: Option<seq<QueryPair>>)
    ensures r.Some? ==> |pool| - |params| <= |r.value| <= |pool|
    ensures r.Some? && exactly ==> |r.value| + |params| == |pool|
    ensures r.Some? ==> forall k | 0 <= k < |r.value| :: r.value[k] in pool
    decreases |params|
  {
    if |params| == 0 then Some(pool)
    else match MatchParameter(pool, exactly, params[0].0, params[0].1)
      case None => None
      case Some(rest) => MatchAll(rest, exactly, params[1..])
  }

  /** The parameters are matched in query order: matching `a + b` is matching `a`,
      then `b` against what `a` left, and a failure in `a` is final. With the
      one-parameter case below this pins `MatchAll` down as the in-order fold. */
  lemma {:induction false} MatchAllAppend(pool: seq<QueryPair>, exactly: bool,
                                          a: seq<(string, string)>, b: seq<(string, string)>)
    ensures MatchAll(pool, exactly, a + b) ==
      if MatchAll(pool, exactly, a).None? then None
      else MatchAll(MatchAll(pool, exactly, a).value, exactly, b)
    decreases |a|
  {
    if |a| == 0 {
      assert a + b == b;
    } else {
      assert (a + b)[0] == a[0];
      assert (a + b)[1..] == a[1..] + b;
      match MatchParameter(pool, exactly, a[0].0, a[0].1)
      case None =>
      case Some(rest) => MatchAllAppend(rest, exactly, a[1..], b);
    }
  }

  lemma MatchAllSingle(pool: seq<QueryPair>, exactly: bool, n: string, v: string)
    ensures MatchAll(pool, exactly, [(n, v)]) == MatchParameter(pool, exactly, n, v)
  {
    assert [(n, v)][1..] == [];
  }

  /** The pairs left once the optional ones are dropped (`removeIf` on absence). */
  function Required(pool: seq<QueryPair>): (r: seq<QueryPair>)
    ensures |r| <= |pool|
    ensures forall k | 0 <= k < |r| :: !Optional(r[k]) && r[k] in pool
    ensures |r| == 0 <==> forall k | 0 <= k < |pool| :: Optional(pool[k])
    ensures forall k | 0 <= k < |pool| && !Optional(pool[k]) :: pool[k] in r
  {
    if |pool| == 0 then []
    else
      var rest := Required(pool[1..]);
      assert forall k | 1 <= k < |pool| :: pool[k] == pool[1..][k - 1];
      if Optional(pool[0]) then rest else [pool[0]] + rest
  }

  /** `removeIf` keeps the order: dropping the optional pairs of a concatenation
      concatenates what is kept of each part. With the one-pair case below this
      pins `Required` down as the order-preserving filter. */
  lemma {:induction false} RequiredAppend(a: seq<QueryPair>, b: seq<QueryPair>)
    ensures Required(a + b) == Required(a) + Required(b)
  {
    if |a| == 0 {
      assert a + b == b;
    } else {
      assert (a + b)[0] == a[0];
      assert (a + b)[1..] == a[1..] + b;
      RequiredAppend(a[1..], b);
    }
  }

  /** One pair is kept iff it does not accept absence. */
  lemma RequiredSingle(p: QueryPair)
    ensures Required([p]) == if Optional(p) then [] else [p]
  {
    assert [p][1..] == [];
  }

  /** The whole query matcher on a present query string: every parameter passes
      and, after optional pairs are dropped, no declared pair is left over. */
  predicate QueryMatches(pool: seq<QueryPair>, exactly: bool, query: string)
  {
    match MatchAll(pool, exactly, Parameters(query))
    case None => false
    case Some(rest) => |Required(rest)| == 0
  }

  /** The matcher as a predicate on the request's query, which may be missing:
      the matcher is type-safe on strings, so a missing query never matches. */
  function QueryPredicate(pool: seq<QueryPair>, exactly: bool): (m: Option<string> -> bool)
    ensures !m(None)
    ensures forall q :: m(Some(q)) == QueryMatches(pool, exactly, q)
  {
    (q: Option<string>) => q.Some? && QueryMatches(pool, exactly, q.value)
  }

  /** Success means: the parameters run through the pool, and every pair that was
      never consumed accepts absence. */
  lemma {:induction false} QueryMatchesMeans(pool: seq<QueryPair>, exactly: bool, query: string)
    ensures QueryMatches(pool, exactly, query) <==>
      var r := MatchAll(pool, exactly, Parameters(query));
      r.Some? && forall k | 0 <= k < |r.value| :: Optional(r.value[k])
  {
  }

  /** Without `exactly`, a parameter that no pair settles leaves the pool unchanged. */
  lemma UnsettledTolerated(pool: seq<QueryPair>, n: string, v: string)
    requires forall k | 0 <= k < |pool| :: !Settles(pool[k], n, v)
    ensures MatchParameter(pool, false, n, v) == Some(pool)
  {
  }

  /** With `exactly`, a parameter that no pair accepts fails the match. */
  lemma UnacceptedRejectedWhenExact(pool: seq<QueryPair>, n: string, v: string)
    requires forall k | 0 <= k < |pool| :: !(pool[k].name(n) && pool[k].value(Some(v)))
    ensures MatchParameter(pool, true, n, v) == None
  {
  }

  /** With `exactly`, one parameter that no pair of the pool accepts makes the
      whole query fail, wherever it sits. */
  lemma {:induction false} ExactRejectsStranger(
    pool: seq<QueryPair>, params: seq<(string, string)>, i: nat)
    requires i < |params|
    requires forall p | p in pool :: !(p.name(params[i].0) && p.value(Some(params[i].1)))
    ensures MatchAll(pool, true, params) == None
    decreases |params|
  {
    var r := MatchParameter(pool, true, params[0].0, params[0].1);
    if i == 0 {
      assert forall k | 0 <= k < |pool| ::
        !(pool[k].name(params[0].0) && pool[k].value(Some(params[0].1))) by {
        forall k | 0 <= k < |pool| ensures pool[k] in pool { }
      }
      UnacceptedRejectedWhenExact(pool, params[0].0, params[0].1);
    } else if r.Some? {
      var rest := r.value;
      var d := IndexWhere(pool, p => Settles(p, params[0].0, params[0].1));
      assert forall p | p in rest :: p in pool by {
        forall p | p in rest ensures p in pool {
          var k :| 0 <= k < |rest| && rest[k] == p;
          if k < d { assert rest[k] == pool[k]; } else { assert rest[k] == pool[k + 1]; }
        }
      }
      assert params[1..][i - 1] == params[i];
      ExactRejectsStranger(rest, params[1..], i - 1);
    }
  }

  // ---------------------------------------------------------------------------
  // String-pair helpers
  // ---------------------------------------------------------------------------

  /** `name to value` from plain strings: both sides compared for equality, so a
      `None` value demands that the parameter be absent. */
  function EqualToPair(name: string, value: Option<string>): (p: QueryPair)
    ensures forall n :: p.name(n) <==> n == name
    ensures forall v :: p.value(v) <==> v == value
  {
    QueryPair(n => n == name, v => v == value)
  }

  function QueryEqualTo(pairs: seq<(string, Option<string>)>): (pool: seq<QueryPair>)
    ensures |pool| == |pairs|
    ensures forall k | 0 <= k < |pool| :: pool[k] == EqualToPair(pairs[k].0, pairs[k].1)
  {
    seq(|pairs|, k requires 0 <= k < |pairs| => EqualToPair(pairs[k].0, pairs[k].1))
  }

  /** `name to matcher`: the name compared for equality, the value by the matcher. */
  function QueryNameEqualTo(pairs: seq<(string, Option<string> -> bool)>): (pool: seq<QueryPair>)
    ensures |pool| == |pairs|
    ensures forall k | 0 <= k < |pool| ::
      (forall n :: pool[k].name(n) <==> n == pairs[k].0) && pool[k].value == pairs[k].1
  {
    seq(|pairs|, k requires 0 <= k < |pairs| => QueryPair(n => n == pairs[k].0, pairs[k].1))
  }

  /** The pair `name to null` on its own: it survives every parameter of another
      name and fails on the first parameter with its name. */
  lemma {:induction false} ForbiddenRun(name: string, params: seq<(string, string)>)
    ensures MatchAll([EqualToPair(name, None)], false, params)
      == if exists k | 0 <= k < |params| :: params[k].0 == name then None
         else Some([EqualToPair(name, None)])
    decreases |params|
  {
    var pool := [EqualToPair(name, None)];
    if |params| > 0 {
      if params[0].0 == name {
        assert Settles(pool[0], params[0].0, params[0].1);
        assert IndexWhere(pool, p => Settles(p, params[0].0, params[0].1)) == 0;
      } else {
        assert !Settles(pool[0], params[0].0, params[0].1);
        ForbiddenRun(name, params[1..]);
        assert (exists k | 0 <= k < |params| :: params[k].0 == name)
           <==> (exists k | 0 <= k < |params[1..]| :: params[1..][k].0 == name) by {
          if exists k | 0 <= k < |params| :: params[k].0 == name {
            var k :| 0 <= k < |params| && params[k].0 == name;
            assert params[1..][k - 1] == params[k];
          }
        }
      }
    }
  }

  /** A string pair `(name, null)` means "name must not appear": the query
      matches exactly when no parameter carries that name. */
  lemma ForbiddenParameter(name: string, query: string)
    ensures QueryMatches(QueryEqualTo([(name, None)]), false, query)
      <==> forall k | 0 <= k < |Parameters(query)| :: Parameters(query)[k].0 != name
  {
    assert QueryEqualTo([(name, None)]) == [EqualToPair(name, None)];
    ForbiddenRun(name, Parameters(query));
  }

  /** Two segments `n1=v1&n2=v2` parse to two parameters. */
  lemma {:induction false} TwoSegments(n1: string, v1: string, n2: string, v2: string)
    requires '&' !in n1 && '=' !in n1 && '&' !in v1
    requires '&' !in n2 && '=' !in n2 && '&' !in v2
    ensures Parameters(n1 + "=" + v1 + "&" + n2 + "=" + v2) == [(n1, v1), (n2, v2)]
  {
    var s1 := n1 + "=" + v1;
    var s2 := n2 + "=" + v2;
    assert '&' !in s1 && '&' !in s2;
    assert n1 + "=" + v1 + "&" + n2 + "=" + v2 == s1 + "&" + s2;
    ParametersCons(s1, s2);
    ParametersSingle(s2);
    SegmentWithValue(n1, v1);
    SegmentWithValue(n2, v2);
  }

  /** One required parameter `n=v` followed by a stranger `n2=v2`: the required
      pair is consumed, and the stranger is tolerated exactly when not `exactly`. */
  lemma {:induction false} RequiredThenStranger(
    n: string, v: string, n2: string, v2: string, exactly: bool)
    ensures MatchAll([EqualToPair(n, Some(v))], exactly, [(n, v), (n2, v2)])
      == if exactly then None else Some([])
  {
    var pool := [EqualToPair(n, Some(v))];
    var ps := [(n, v), (n2, v2)];
    assert Settles(pool[0], n, v);
    assert IndexWhere(pool, p => Settles(p, n, v)) == 0;
    assert MatchParameter(pool, exactly, n, v) == Some([]);
    assert ps[1..] == [(n2, v2)];
    assert MatchAll([], exactly, [(n2, v2)]) == MatchAll([], exactly, []) || exactly;
  }

  /** A query `n=v&n2=v2` against the single required pair `n=v`: subset
      semantics tolerates the second parameter, exact semantics rejects it. */
  lemma StrangerTolerated(n: string, v: string, n2: string, v2: string, exactly: bool)
    requires '&' !in n && '=' !in n && '&' !in v
    requires '&' !in n2 && '=' !in n2 && '&' !in v2
    ensures QueryMatches(QueryEqualTo([(n, Some(v))]), exactly, n + "=" + v + "&" + n2 + "=" + v2) <==> !exactly
  {
    TwoSegments(n, v, n2, v2);
    assert QueryEqualTo([(n, Some(v))]) == [EqualToPair(n, Some(v))];
    RequiredThenStranger(n, v, n2, v2, exactly);
  }

  /** Subset semantics tolerates the extra parameter of `page=1&extra=x`;
      exact semantics rejects it. */
  lemma ExtraParameterExample()
    ensures QueryMatches(QueryEqualTo([("page", Some("1"))]), false, "page=1&extra=x")
    ensures !QueryMatches(QueryEqualTo([("page", Some("1"))]), true, "page=1&extra=x")
  {
    assert "page=1&extra=x" == "page" + "=" + "1" + "&" + "extra" + "=" + "x";
    StrangerTolerated("page", "1", "extra", "x", false);
    StrangerTolerated("page", "1", "extra", "x", true);
  }

}

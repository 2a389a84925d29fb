/** The closure `router!` expands to: try each route in registration order,
    keep the first answer, and call the default handler when none answers. */
module Dispatch {
  import opened Wrappers
  import opened Routes
  import opened Matcher
  import opened Coerce

  /** One `METHOD /seg/... => handler` entry. The handler receives the caller's
      context and the coerced arguments, in placeholder order. */
  datatype Route<!C, R> = Route(verb: Method, segments: seq<Segment>, handler: (C, seq<Value>) -> R)

  /** The three entry arms of the macro: routes with at least one segment each;
      the home route `/` first and then such routes; or the default alone.
      A lone `_ => default` is already taken by the first arm with no routes
      (`_` is not an `ident`), so the third arm is never selected; `DefaultOnly`
      answers exactly what `General([], fallback)` answers. */
  datatype Router<!C, R> =
    | General(routes: seq<Route<C, R>>, fallback: C -> R)
    | HomeFirst(home: Route<C, R>, routes: seq<Route<C, R>>, fallback: C -> R)
    | DefaultOnly(fallback: C -> R)

  /** The routes of a router in the order they are tried. */
  function Table<C, R>(router: Router<C, R>): seq<Route<C, R>>
  {
    match router
    case General(routes, _) => routes
    case HomeFirst(home, routes, _) => [home] + routes
    case DefaultOnly(_) => []
  }

  /** A route the macro expands: segments it accepts and at most seven placeholders. */
  predicate ValidRoute<C, R>(route: Route<C, R>)
  {
    ValidSegments(route.segments) && NumPlaceholders(route.segments) <= MaxPlaceholders
  }

  /** What each entry arm accepts: only the home arm admits a route without segments. */
  predicate ValidRouter<C, R>(router: Router<C, R>)
  {
    && (forall i :: 0 <= i < |Table(router)| ==> ValidRoute(Table(router)[i]))
    && (!router.DefaultOnly? ==> forall i :: 0 <= i < |router.routes| ==> router.routes[i].segments != [])
    && (router.HomeFirst? ==> router.home.segments == [])
  }

  /** One route tried against a request: `None` when the method differs, the
      path does not match, or a capture does not parse as its type. */
  function RouteResult<C, R>(route: Route<C, R>, ctx: C, m: Method, path: string): Option<R>
  {
    if m != route.verb then None
    else match MatchSegments(route.segments, path)
      case None => None
      case Some(caps) =>
        match CoerceAll(CallTypes(route.segments), caps)
        case None => None
        case Some(args) => Some(route.handler(ctx, args))
  }

  /** The answer of the first route that answers, if any. */
  function FirstMatch<C, R>(routes: seq<Route<C, R>>, ctx: C, m: Method, path: string): Option<R>
  {
    if routes == [] then None
    else match RouteResult(routes[0], ctx, m, path)
      case Some(v) => Some(v)
      case None => FirstMatch(routes[1..], ctx, m, path)
  }

  lemma {:induction false} FirstMatchSnoc<C, R>(routes: seq<Route<C, R>>, last: Route<C, R>, ctx: C, m: Method, path: string)
    ensures FirstMatch(routes + [last], ctx, m, path)
         == if FirstMatch(routes, ctx, m, path).Some? then FirstMatch(routes, ctx, m, path)
            else RouteResult(last, ctx, m, path)
  {
    if routes == [] {
      assert routes + [last] == [last];
    } else {
      assert (routes + [last])[1..] == routes[1..] + [last];
      FirstMatchSnoc(routes[1..], last, ctx, m, path);
    }
  }

  /** Dispatch falls back exactly when no route answers. */
  lemma {:induction false} FirstMatchNone<C, R>(routes: seq<Route<C, R>>, ctx: C, m: Method, path: string)
    ensures FirstMatch(routes, ctx, m, path).None?
        <==> forall i :: 0 <= i < |routes| ==> RouteResult(routes[i], ctx, m, path).None?
  {
    if routes != [] {
      FirstMatchNone(routes[1..], ctx, m, path);
      assert forall i :: 1 <= i < |routes| ==> routes[i] == routes[1..][i - 1];
    }
  }

  /** Registration order decides: the first route that answers gives the
      result, whatever the routes after it would have answered. */
  lemma {:induction false} FirstAnswerWins<C, R>(routes: seq<Route<C, R>>, k: nat, ctx: C, m: Method, path: string)
    requires k < |routes|
    requires RouteResult(routes[k], ctx, m, path).Some?
    requires forall j :: 0 <= j < k ==> RouteResult(routes[j], ctx, m, path).None?
    ensures FirstMatch(routes, ctx, m, path) == RouteResult(routes[k], ctx, m, path)
  {
    if k > 0 {
      assert forall j :: 0 <= j < k - 1 ==> routes[1..][j] == routes[j + 1];
      FirstAnswerWins(routes[1..], k - 1, ctx, m, path);
    }
  }

  /** Once a route has answered, routes registered after it change nothing. */
  lemma {:induction false} LaterRoutesIgnored<C, R>(routes: seq<Route<C, R>>, later: seq<Route<C, R>>, ctx: C, m: Method, path: string)
    requires FirstMatch(routes, ctx, m, path).Some?
    ensures FirstMatch(routes + later, ctx, m, path) == FirstMatch(routes, ctx, m, path)
  {
    assert routes != [];
    if RouteResult(routes[0], ctx, m, path).None? {
      assert (routes + later)[1..] == routes[1..] + later;
      LaterRoutesIgnored(routes[1..], later, ctx, m, path);
    }
  }

  /** A route that does not answer is as good as absent: dispatch moves on to
      the routes after it, and to the default when none is left. */
  lemma {:induction false} SilentRouteSkipped<C, R>(before: seq<Route<C, R>>, route: Route<C, R>, after: seq<Route<C, R>>, ctx: C, m: Method, path: string)
    requires RouteResult(route, ctx, m, path).None?
    ensures FirstMatch(before + [route] + after, ctx, m, path) == FirstMatch(before + after, ctx, m, path)
  {
    if before == [] {
      assert before + [route] + after == [route] + after;
      assert ([route] + after)[1..] == after;
      assert before + after == after;
    } else {
      assert (before + [route] + after)[1..] == before[1..] + [route] + after;
      assert (before + after)[1..] == before[1..] + after;
      SilentRouteSkipped(before[1..], route, after, ctx, m, path);
    }
  }

  /** What one route answers once its method and path match: the handler
      applied to the captures coerced in order (the i-th capture to the i-th
      argument), or nothing when some capture does not parse. */
  lemma RouteAnswer<C, R>(route: Route<C, R>, ctx: C, m: Method, path: string, caps: seq<string>)
    requires m == route.verb && MatchSegments(route.segments, path) == Some(caps)
    ensures var types := CallTypes(route.segments);
      (RouteResult(route, ctx, m, path).Some?
       <==> forall i :: 0 <= i < |caps| ==> CoerceParam(types[i], caps[i]).Some?)
    ensures var types := CallTypes(route.segments);
      RouteResult(route, ctx, m, path).Some? ==>
        RouteResult(route, ctx, m, path).value
          == route.handler(ctx, seq(|caps|, i requires 0 <= i < |caps| => CoerceParam(types[i], caps[i]).value))
  {
    var types := CallTypes(route.segments);
    var r := CoerceAll(types, caps);
    if r.Some? {
      assert r.value == seq(|caps|, i requires 0 <= i < |caps| => CoerceParam(types[i], caps[i]).value);
    }
  }

  /** A capture that fails to parse silences its route without an error:
      dispatch continues with the later routes and then the default. */
  lemma CoercionFailureFallsThrough<C, R>(before: seq<Route<C, R>>, route: Route<C, R>, after: seq<Route<C, R>>,
                                         ctx: C, m: Method, path: string, k: nat)
    requires MatchSegments(route.segments, path).Some?
    requires k < |MatchSegments(route.segments, path).value|
    requires CoerceParam(CallTypes(route.segments)[k], MatchSegments(route.segments, path).value[k]).None?
    ensures RouteResult(route, ctx, m, path).None?
    ensures FirstMatch(before + [route] + after, ctx, m, path) == FirstMatch(before + after, ctx, m, path)
  {
    if m == route.verb {
      RouteAnswer(route, ctx, m, path, MatchSegments(route.segments, path).value);
    }
    SilentRouteSkipped(before, route, after, ctx, m, path);
  }

  /** A route registered for another method never answers, whatever the path,
      and so does not take part in dispatch. */
  lemma MethodMismatchSkipped<C, R>(before: seq<Route<C, R>>, route: Route<C, R>, after: seq<Route<C, R>>,
                                   ctx: C, m: Method, path: string)
    requires route.verb != m
    ensures RouteResult(route, ctx, m, path).None?
    ensures FirstMatch(before + [route] + after, ctx, m, path) == FirstMatch(before + after, ctx, m, path)
  {
    SilentRouteSkipped(before, route, after, ctx, m, path);
  }

  /** A route whose segment count differs from that of a route the path
      matches never answers that path, and so does not take part in dispatch. */
  lemma SegmentCountMismatchSkipped<C, R>(before: seq<Route<C, R>>, route: Route<C, R>, after: seq<Route<C, R>>,
                                         ctx: C, m: Method, path: string, segs: seq<Segment>)
    requires ValidSegments(route.segments) && ValidSegments(segs)
    requires MatchSegments(segs, path).Some? && |route.segments| != |segs|
    ensures RouteResult(route, ctx, m, path).None?
    ensures FirstMatch(before + [route] + after, ctx, m, path) == FirstMatch(before + after, ctx, m, path)
  {
    if MatchSegments(route.segments, path).Some? {
      SegmentCountDetermined(route.segments, segs, path);
    }
    SilentRouteSkipped(before, route, after, ctx, m, path);
  }

  /** The texts the arguments take in a path, in order; routable arguments
      give texts the placeholders capture whole. */
  function Texts(args: seq<Value>): (texts: seq<string>)
    ensures (forall i :: 0 <= i < |args| ==> Routable(args[i])) ==> AllRouteText(texts)
  {
    ShowAllRouteText(args);
    seq(|args|, i requires 0 <= i < |args| => Show(args[i]))
  }

  lemma ShowAllRouteText(args: seq<Value>)
    ensures forall i :: 0 <= i < |args| && Routable(args[i]) ==> IsRouteText(Show(args[i]))
  {
    forall i | 0 <= i < |args| && Routable(args[i]) ensures IsRouteText(Show(args[i])) {
      ShowIsRouteText(args[i]);
    }
  }

  /** Reverse routing round trip: writing well-typed arguments into a route's
      path and dispatching that path to the route calls its handler with those
      very arguments. */
  lemma ReverseRouteAnswers<C, R>(route: Route<C, R>, ctx: C, args: seq<Value>)
    requires ValidRoute(route)
    requires |args| == NumPlaceholders(route.segments)
    requires forall i :: 0 <= i < |args| ==> HasType(args[i], CallTypes(route.segments)[i])
    requires forall i :: 0 <= i < |args| ==> Routable(args[i])
    ensures RouteResult(route, ctx, route.verb, Instantiate(route.segments, Texts(args)))
         == Some(route.handler(ctx, args))
  {
    var segs := route.segments;
    var caps := Texts(args);
    var types := CallTypes(segs);
    assert FitsRoute(segs, caps);
    var path := Instantiate(segs, caps);
    MatchSegmentsIff(segs, path, caps);
    forall i | 0 <= i < |caps| ensures CoerceParam(types[i], caps[i]) == Some(args[i]) {
      CoerceShow(args[i], types[i]);
    }
    var coerced := CoerceAll(types, caps);
    assert coerced.value == args;
  }

  /** What the router answers: the first route's answer, or the default's. */
  function Answer<C, R>(router: Router<C, R>, ctx: C, m: Method, path: string): R
  {
    match FirstMatch(Table(router), ctx, m, path)
    case Some(v) => v
    case None => router.fallback(ctx)
  }

  /** A request no route answers gets the default handler's answer; for a
      router with only a default, every request does. */
  lemma FallbackWhenNoRouteAnswers<C, R>(router: Router<C, R>, ctx: C, m: Method, path: string)
    requires forall i :: 0 <= i < |Table(router)| ==> RouteResult(Table(router)[i], ctx, m, path).None?
    ensures Answer(router, ctx, m, path) == router.fallback(ctx)
  {
    FirstMatchNone(Table(router), ctx, m, path);
  }

  /** Route `j` of `routes` is evaluated: every route before it gave nothing. */
  predicate Reached<C, R>(routes: seq<Route<C, R>>, j: nat, ctx: C, m: Method, path: string)
    requires j <= |routes|
  {
    forall k :: 0 <= k < j ==> RouteResult(routes[k], ctx, m, path).None?
  }

  lemma ReachedIffNoAnswer<C, R>(routes: seq<Route<C, R>>, j: nat, ctx: C, m: Method, path: string)
    requires j <= |routes|
    ensures Reached(routes, j, ctx, m, path) <==> FirstMatch(routes[..j], ctx, m, path).None?
  {
    FirstMatchNone(routes[..j], ctx, m, path);
    assert forall k :: 0 <= k < j ==> routes[..j][k] == routes[k];
  }

  /** What the dispatch loop knows after the first `i` routes: `result` is the
      first answer among them, and exactly the routes before `tried` were
      evaluated. */
  ghost predicate LoopState<C, R>(table: seq<Route<C, R>>, i: nat, result: Option<R>, tried: nat,
                            ctx: C, m: Method, path: string)
  {
    && i <= |table|
    && result == FirstMatch(table[..i], ctx, m, path)
    && tried <= i
    && (result.None? ==> tried == i)
    && forall j :: 0 <= j < i ==> (j < tried <==> Reached(table, j, ctx, m, path))
  }

  /** One turn of the loop: route `i` is evaluated only while no result is set. */
  lemma LoopStep<C, R>(table: seq<Route<C, R>>, i: nat, result: Option<R>, tried: nat,
                       ctx: C, m: Method, path: string)
    requires LoopState(table, i, result, tried, ctx, m, path) && i < |table|
    ensures result.None? ==>
      LoopState(table, i + 1, RouteResult(table[i], ctx, m, path), tried + 1, ctx, m, path)
    ensures result.Some? ==> LoopState(table, i + 1, result, tried, ctx, m, path)
  {
    ReachedIffNoAnswer(table, i, ctx, m, path);
    FirstMatchSnoc(table[..i], table[i], ctx, m, path);
    assert table[..i + 1] == table[..i] + [table[i]];
  }

  /** The router closure: the home arm evaluates its root route first, every
      arm then tries its routes in order while no result is set, and the
      default handler answers when none did. The ghost `tried` counts the
      routes evaluated: exactly those all of whose predecessors gave nothing. */
  method Dispatch<C, R>(router: Router<C, R>, ctx: C, m: Method, path: string) returns (r: R, ghost tried: nat)
    ensures r == Answer(router, ctx, m, path)
    ensures tried <= |Table(router)|
    ensures forall j :: 0 <= j < |Table(router)| ==> (j < tried <==> Reached(Table(router), j, ctx, m, path))
  {
    var table := Table(router);
    var result: Option<R> := None;
    var i := 0;
    tried := 0;
    if router.HomeFirst? {
      LoopStep(table, 0, result, tried, ctx, m, path);
      result := RouteResult(router.home, ctx, m, path);
      i, tried := 1, 1;
    }
    while i < |table|
      invariant LoopState(table, i, result, tried, ctx, m, path)
    {
      LoopStep(table, i, result, tried, ctx, m, path);
      if result.None? {
        result := RouteResult(table[i], ctx, m, path);
        tried := tried + 1;
      }
      i := i + 1;
    }
    assert table[..i] == table;
    r := if result.Some? then result.value else router.fallback(ctx);
  }
}

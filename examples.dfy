/** The routers of the crate's tests (`test_home`, `test_fallback`,
    `test_verbs`, `test_params_number`, `it_works`) with the answers those
    tests expect. */
module Examples {
  import opened Wrappers
  import opened Routes
  import opened Matcher
  import opened Coerce
  import opened Dispatch

  /** The router of the `test_home` test: `GET / => get_home, _ => unreachable`.
      The default's panic is not modelled; it answers `unreachable` here. */
  function HomeOnly(): Router<int, string>
  {
    HomeFirst(GetHome(), [], _ => "unreachable")
  }

  /** `GET / => get_home` */
  function GetHome(): Route<int, string>
  {
    Route(GET, [], (_, _) => "get_home")
  }

  /** `GET /` reaches the home route, and any other request the default. */
  lemma HomeOnlyAnswers(m: Method, path: string)
    ensures Answer(HomeOnly(), 0, m, path) == if m == GET && path == "/" then "get_home" else "unreachable"
  {
    var home := GetHome();
    assert Table(HomeOnly()) == [home];
    assert CallTypes([]) == [];
    assert RouteResult(home, 0, m, path) == if m == GET && path == "/" then Some("get_home") else None;
    assert [home][1..] == [];
    assert FirstMatch(Table(HomeOnly()), 0, m, path) == RouteResult(home, 0, m, path);
    assert HomeOnly().fallback(0) == "unreachable";
  }

  /** `POST /users => users` */
  function UsersRoute(): Route<int, string>
  {
    Route(POST, [Literal("users")], (_, _) => "users")
  }

  /** The router of the `test_fallback` test:
      `GET / => home, POST /users => users, _ => fallback`. */
  function HomeUsers(): Router<int, string>
  {
    HomeFirst(Route(GET, [], (_, _) => "home"), [UsersRoute()], _ => "fallback")
  }

  /** `/` reaches the home route for `GET` only. */
  lemma HomeAnswers()
    ensures Answer(HomeUsers(), 0, GET, "/") == "home"
    ensures Answer(HomeUsers(), 0, PATCH, "/") == "fallback"
  {
  }

  /** The route `/users` matches the path `/users`, with no captures to parse. */
  lemma UsersPath()
    ensures MatchSegments([Literal("users")], "/users") == Some([])
    ensures CallTypes([Literal("users")]) == []
  {
    SplitPieces(["users"], "/users");
    assert DeclaredTypes([Literal("users")]) == [];
  }

  /** `/users` reaches the users route for `POST` only. */
  lemma UsersAnswers()
    ensures Answer(HomeUsers(), 0, POST, "/users") == "users"
    ensures Answer(HomeUsers(), 0, GET, "/users") == "fallback"
  {
    UsersPath();
    assert [UsersRoute()][1..] == [];
  }

  lemma PrefixOfUsersMisses()
    ensures Answer(HomeUsers(), 0, GET, "/us") == "fallback"
  {
    SplitPieces(["us"], "/us");
  }

  const AllMethods: seq<Method> := [GET, POST, PUT, PATCH, DELETE, OPTIONS, CONNECT, TRACE, HEAD]

  /** `<v> /users`, answering with its own method. */
  function VerbRoute(v: Method): Route<int, Method>
  {
    Route(v, [Literal("users")], (_, _) => v)
  }

  /** One `/users` route per method of `ms`, in order. */
  function VerbRoutes(ms: seq<Method>): (routes: seq<Route<int, Method>>)
    ensures |routes| == |ms|
  {
    if ms == [] then [] else [VerbRoute(ms[0])] + VerbRoutes(ms[1..])
  }

  /** The router of the `test_verbs` test. */
  function Verbs(): Router<int, Method>
  {
    General(VerbRoutes(AllMethods), _ => GET)
  }

  lemma VerbRouteResult(v: Method, m: Method)
    ensures RouteResult(VerbRoute(v), 0, m, "/users") == if v == m then Some(v) else None
  {
    UsersPath();
  }

  /** A method listed in `ms` reaches its own route. */
  lemma {:induction false} VerbRoutesAnswer(ms: seq<Method>, m: Method)
    requires m in ms
    ensures FirstMatch(VerbRoutes(ms), 0, m, "/users") == Some(m)
  {
    var routes := VerbRoutes(ms);
    assert routes[0] == VerbRoute(ms[0]) && routes[1..] == VerbRoutes(ms[1..]);
    VerbRouteResult(ms[0], m);
    if ms[0] != m {
      assert m in ms[1..] by {
        var i :| 0 <= i < |ms| && ms[i] == m;
        assert ms[1..][i - 1] == m;
      }
      VerbRoutesAnswer(ms[1..], m);
    }
  }

  /** Every method reaches the route declared for it: a route answers, so the
      default (which answers `GET` here) is not called. */
  lemma VerbsAnswer(m: Method)
    ensures FirstMatch(Table(Verbs()), 0, m, "/users") == Some(m)
    ensures Answer(Verbs(), 0, m, "/users") == m
  {
    assert m in AllMethods by {
      match m
      case GET => assert AllMethods[0] == m;
      case POST => assert AllMethods[1] == m;
      case PUT => assert AllMethods[2] == m;
      case PATCH => assert AllMethods[3] == m;
      case DELETE => assert AllMethods[4] == m;
      case OPTIONS => assert AllMethods[5] == m;
      case CONNECT => assert AllMethods[6] == m;
      case TRACE => assert AllMethods[7] == m;
      case HEAD => assert AllMethods[8] == m;
    }
    VerbRoutesAnswer(AllMethods, m);
  }

  const UsersNames: seq<string> := ["users", "users2", "users3", "users4", "users5", "users6", "users7"]
  const ParamNames: seq<string> := ["p1", "p2", "p3", "p4", "p5", "p6", "p7"]

  /** `/usersK/{pK: String}` for K = k+1 .. n, where `users1` is written `users`. */
  function ParamPairs(k: nat, n: nat): (segs: seq<Segment>)
    requires k <= n <= 7
    decreases n - k
  {
    if k == n then []
    else [Literal(UsersNames[k]), Placeholder(ParamNames[k], StringType)] + ParamPairs(k + 1, n)
  }

  /** The segments of the `test_params_number` route with `n` placeholders:
      `/users` for none, else `/users/{p1: String}/users2/{p2: String}/...`. */
  function ParamSegments(n: nat): seq<Segment>
    requires n <= 7
  {
    if n == 0 then [Literal("users")] else ParamPairs(0, n)
  }

  /** The texts run together, as `format!("{}{}...", ...)` does. */
  function Concat(texts: seq<string>): string
  {
    if texts == [] then "" else texts[0] + Concat(texts[1..])
  }

  /** The route with `n` placeholders; its handler concatenates its arguments. */
  function ParamRoute(n: nat): Route<int, string>
    requires n <= 7
  {
    Route(GET, ParamSegments(n), (_, args) => Concat(Texts(args)))
  }

  /** The router of the `test_params_number` test: routes with 0 to 7
      placeholders, in that order. */
  function Params(): Router<int, string>
  {
    General(seq(8, n requires 0 <= n < 8 => ParamRoute(n)), _ => "unreachable")
  }

  lemma ParamIdentifiers()
    ensures forall k :: 0 <= k < 7 ==> IsIdentifier(UsersNames[k]) && IsIdentifier(ParamNames[k])
  {
    assert IsIdentifier("users") && IsIdentifier("users2") && IsIdentifier("users3");
    assert IsIdentifier("users4") && IsIdentifier("users5") && IsIdentifier("users6");
    assert IsIdentifier("users7");
    assert IsIdentifier("p1") && IsIdentifier("p2") && IsIdentifier("p3") && IsIdentifier("p4");
    assert IsIdentifier("p5") && IsIdentifier("p6") && IsIdentifier("p7");
  }

  lemma {:induction false} ParamPairsShape(k: nat, n: nat)
    requires k <= n <= 7
    ensures |ParamPairs(k, n)| == 2 * (n - k)
    ensures ValidSegments(ParamPairs(k, n))
    ensures DeclaredTypes(ParamPairs(k, n)) == seq(n - k, _ => StringType)
    decreases n - k
  {
    if k < n {
      ParamIdentifiers();
      ParamPairsShape(k + 1, n);
      var rest := ParamPairs(k + 1, n);
      var segs := ParamPairs(k, n);
      assert segs[1..] == [Placeholder(ParamNames[k], StringType)] + rest;
      assert segs[1..][1..] == rest;
      assert forall i :: 2 <= i < |segs| ==> segs[i] == rest[i - 2];
    }
  }

  /** The route with `n` placeholders is one the macro accepts, has `2n`
      segments (one for `/users`), and parses every capture as a `String`. */
  lemma ParamShape(n: nat)
    requires n <= 7
    ensures ValidRoute(ParamRoute(n))
    ensures |ParamSegments(n)| == if n == 0 then 1 else 2 * n
    ensures NumPlaceholders(ParamSegments(n)) == n
    ensures forall i :: 0 <= i < n ==> CallTypes(ParamSegments(n))[i] == StringType
  {
    if n == 0 {
      assert IsIdentifier("users");
    } else {
      ParamPairsShape(0, n);
    }
  }

  /** `/users/<id1>/users2/<id2>/...` with `|ids|` placeholders filled in. */
  function ParamPath(ids: seq<string>): string
    requires |ids| <= 7
  {
    ParamShape(|ids|);
    Instantiate(ParamSegments(|ids|), ids)
  }

  /** A route with fewer placeholders has fewer segments, so it does not match
      a path of the route with `n` placeholders. */
  lemma ShorterParamRouteSilent(j: nat, n: nat, path: string)
    requires j < n <= 7
    requires MatchSegments(ParamSegments(n), path).Some?
    ensures RouteResult(ParamRoute(j), 0, GET, path).None?
  {
    ParamShape(j);
    ParamShape(n);
    if MatchSegments(ParamSegments(j), path).Some? {
      SegmentCountDetermined(ParamSegments(j), ParamSegments(n), path);
    }
  }

  /** Texts as `String` arguments. */
  function TextValues(ids: seq<string>): (args: seq<Value>)
    ensures Texts(args) == ids
  {
    seq(|ids|, i requires 0 <= i < |ids| => Text(ids[i]))
  }

  /** A route whose placeholders are all `String`s hands any captures to its
      handler unchanged. */
  lemma StringRouteAnswers(route: Route<int, string>, ids: seq<string>)
    requires ValidRoute(route) && |ids| == NumPlaceholders(route.segments) && AllRouteText(ids)
    requires forall i :: 0 <= i < |ids| ==> CallTypes(route.segments)[i] == StringType
    ensures RouteResult(route, 0, route.verb, Instantiate(route.segments, ids))
         == Some(route.handler(0, TextValues(ids)))
  {
    ReverseRouteAnswers(route, 0, TextValues(ids));
  }

  /** The route with `|ids|` placeholders answers its own path with the ids
      run together. */
  lemma ParamRouteAnswers(ids: seq<string>)
    requires |ids| <= 7 && AllRouteText(ids)
    ensures RouteResult(ParamRoute(|ids|), 0, GET, ParamPath(ids)) == Some(Concat(ids))
  {
    ParamShape(|ids|);
    StringRouteAnswers(ParamRoute(|ids|), ids);
  }

  /** No route before the one with `n` placeholders answers its paths. */
  lemma ShorterParamRoutesSilent(n: nat, path: string)
    requires n <= 7
    requires MatchSegments(ParamSegments(n), path).Some?
    ensures forall j :: 0 <= j < n ==> RouteResult(Table(Params())[j], 0, GET, path).None?
  {
    forall j | 0 <= j < n ensures RouteResult(Table(Params())[j], 0, GET, path).None? {
      ShorterParamRouteSilent(j, n, path);
    }
  }

  /** Each route of `test_params_number` gets exactly its own path, and its
      handler receives the ids in order (the test's `id1id2...`). */
  lemma ParamsAnswer(ids: seq<string>)
    requires |ids| <= 7 && AllRouteText(ids)
    ensures Answer(Params(), 0, GET, ParamPath(ids)) == Concat(ids)
  {
    var n := |ids|;
    var routes := Table(Params());
    ParamRouteAnswers(ids);
    assert routes[n] == ParamRoute(n);
    ShorterParamRoutesSilent(n, ParamPath(ids));
    FirstAnswerWins(routes, n, 0, GET, ParamPath(ids));
  }

  const TransactionsPrefix: seq<Segment> :=
    [Literal("users"), Literal("transactions"), Placeholder("transaction_id", StringType), Literal("accounts")]

  const NumberedSegments: seq<Segment> :=
    [ Literal("users"), Literal("transactions"), Placeholder("transaction_id", StringType), Literal("accounts"),
      Placeholder("account_id", U32Type) ]

  /** `POST /users/transactions/{transaction_id: String}/accounts/{account_id: u32} => yo2` */
  function NumberedRoute(): Route<int, int>
  {
    Route(POST, NumberedSegments, (x, _) => x + 2)
  }

  /** `GET /users/transactions/{transaction_id: String}/accounts => yo1` */
  function ListingRoute(): Route<int, int>
  {
    Route(GET, TransactionsPrefix, (x, _) => x + 1)
  }

  /** The router of the `it_works` test: the context is a number, each handler
      adds its own offset to it, and the default `yo` returns it unchanged. */
  function Accounts(): Router<int, int>
  {
    General([NumberedRoute(), ListingRoute()], x => x)
  }

  lemma PrefixTypes()
    ensures DeclaredTypes(TransactionsPrefix) == [StringType]
  {
    var p := TransactionsPrefix;
    assert DeclaredTypes(p[3..]) == [] by { assert p[3..][1..] == []; }
    assert DeclaredTypes(p[2..]) == [StringType] by { assert p[2..][1..] == p[3..]; }
    assert DeclaredTypes(p[1..]) == [StringType] by { assert p[1..][1..] == p[2..]; }
  }

  lemma NumberedTypes()
    ensures DeclaredTypes(NumberedSegments) == [StringType, U32Type]
  {
    var s := NumberedSegments;
    assert DeclaredTypes(s[4..]) == [U32Type] by { assert s[4..][1..] == []; }
    assert DeclaredTypes(s[3..]) == [U32Type] by { assert s[3..][1..] == s[4..]; }
    assert DeclaredTypes(s[2..]) == [StringType, U32Type] by { assert s[2..][1..] == s[3..]; }
    assert DeclaredTypes(s[1..]) == [StringType, U32Type] by { assert s[1..][1..] == s[2..]; }
  }

  lemma Identifiers()
    ensures IsIdentifier("users") && IsIdentifier("transactions") && IsIdentifier("accounts")
    ensures IsIdentifier("transaction_id") && IsIdentifier("account_id")
  {
    assert IsIdentifier("users");
    assert IsIdentifier("transactions");
    assert IsIdentifier("accounts");
    assert IsIdentifier("transaction_id");
    assert IsIdentifier("account_id");
  }

  lemma NumberedValid()
    ensures ValidSegments(TransactionsPrefix) && ValidSegments(NumberedSegments)
  {
    Identifiers();
    assert forall i :: 0 <= i < 4 ==> NumberedSegments[i] == TransactionsPrefix[i];
  }

  lemma AccountsValid()
    ensures ValidSegments(TransactionsPrefix) && NumPlaceholders(TransactionsPrefix) == 1
    ensures ValidSegments(NumberedSegments) && NumPlaceholders(NumberedSegments) == 2
    ensures CallTypes(NumberedSegments) == [StringType, U32Type]
  {
    PrefixTypes();
    NumberedTypes();
    NumberedValid();
  }

  /** `/users/transactions/<id>/accounts`. */
  function ListingPath(id: string): string
  {
    AccountsValid();
    Instantiate(TransactionsPrefix, [id])
  }

  /** `/users/transactions/<id>/accounts/<last>`. */
  function NumberedPath(id: string, last: string): string
  {
    AccountsValid();
    Instantiate(NumberedSegments, [id, last])
  }

  /** `GET /users/transactions/<id>/accounts` reaches the second handler. */
  lemma AccountsListing(x: int, id: string)
    requires IsRouteText(id)
    ensures Answer(Accounts(), x, GET, ListingPath(id)) == x + 1
  {
    AccountsValid();
    assert Texts([Text(id)]) == [id];
    ReverseRouteAnswers(ListingRoute(), x, [Text(id)]);
    assert RouteResult(NumberedRoute(), x, GET, ListingPath(id)).None?;
    FirstAnswerWins([NumberedRoute(), ListingRoute()], 1, x, GET, ListingPath(id));
  }

  /** `POST /users/transactions/<id>/accounts/<n>` with a number `n` reaches the
      first handler. */
  lemma AccountsNumbered(x: int, id: string, n: u32)
    requires IsRouteText(id)
    ensures Answer(Accounts(), x, POST, NumberedPath(id, Decimal(n as nat))) == x + 2
  {
    AccountsValid();
    assert Texts([Text(id), Number(n)]) == [id, Decimal(n as nat)];
    ReverseRouteAnswers(NumberedRoute(), x, [Text(id), Number(n)]);
    FirstAnswerWins([NumberedRoute(), ListingRoute()], 0, x, POST, NumberedPath(id, Decimal(n as nat)));
  }

  /** The numbered route captures the transaction id and the last piece. */
  lemma NumberedCaptures(id: string, last: string)
    requires IsRouteText(id) && IsRouteText(last)
    ensures MatchSegments(NumberedSegments, NumberedPath(id, last)) == Some([id, last])
  {
    AccountsValid();
    MatchSegmentsIff(NumberedSegments, NumberedPath(id, last), [id, last]);
  }

  /** The same request whose last piece is not a `u32` (the test's `dgdfg`)
      falls through past both routes to the default handler. */
  lemma AccountsNotNumbered(x: int, id: string, last: string)
    requires IsRouteText(id) && IsRouteText(last) && ParseU32(last).None?
    ensures Answer(Accounts(), x, POST, NumberedPath(id, last)) == x
  {
    AccountsValid();
    var path := NumberedPath(id, last);
    NumberedCaptures(id, last);
    assert CoerceParam(CallTypes(NumberedSegments)[1], last).None?;
    CoercionFailureFallsThrough([], NumberedRoute(), [], x, POST, path, 1);
    assert RouteResult(ListingRoute(), x, POST, path).None?;
    FirstMatchNone([NumberedRoute(), ListingRoute()], x, POST, path);
  }

  lemma DgdfgIsNotNumber()
    ensures IsRouteText("dgdfg") && ParseU32("dgdfg").None?
  {
  }

  /** `/users/transact` has two pieces where the route has four. */
  lemma ShortPathMisses()
    ensures MatchSegments(TransactionsPrefix, "/users/transact").None?
  {
    SplitPieces(["users", "transact"], "/users/transact");
  }

  /** `GET /users/transact` matches no route. */
  lemma AccountsUnknown(x: int)
    ensures Answer(Accounts(), x, GET, "/users/transact") == x
  {
    ShortPathMisses();
    assert RouteResult(NumberedRoute(), x, GET, "/users/transact").None?;
    assert RouteResult(ListingRoute(), x, GET, "/users/transact").None?;
    FirstMatchNone([NumberedRoute(), ListingRoute()], x, GET, "/users/transact");
  }

  /** A seven-placeholder route whose sixth placeholder is a `u32` and whose
      seventh is a `String`: the seventh capture is parsed as a `u32`, so the
      capture `x` is refused although its declared type would accept it. */
  const SevenSegments: seq<Segment> :=
    [ Placeholder("p1", StringType), Placeholder("p2", StringType),
      Placeholder("p3", StringType), Placeholder("p4", StringType),
      Placeholder("p5", StringType), Placeholder("p6", U32Type),
      Placeholder("p7", StringType) ]

  lemma SeventhCaptureUsesSixthType()
    ensures DeclaredTypes(SevenSegments)[6] == StringType
    ensures CallTypes(SevenSegments)[6] == U32Type
    ensures CoerceAll(CallTypes(SevenSegments), ["a", "b", "c", "d", "e", "1", "x"]).None?
  {
    assert DeclaredTypes(SevenSegments) == [StringType, StringType, StringType, StringType, StringType, U32Type, StringType];
    assert CoerceParam(U32Type, "x") == None by {
      assert !IsDigit('x');
    }
  }
}

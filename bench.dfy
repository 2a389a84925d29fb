/** The router of the crate's benchmark (benches/router.rs) with the answers
    its test cases expect. */
module Benchmark {
  import opened Wrappers
  import opened Routes
  import opened Matcher
  import opened Coerce
  import opened Dispatch

  /** The texts separated by `, `. */
  function Separated(texts: seq<string>): string
    requires texts != []
  {
    if |texts| == 1 then texts[0] else texts[0] + ", " + Separated(texts[1..])
  }

  /** What the benchmark's handlers answer: their own name, followed by their
      arguments in parentheses (`format!("patch_users({})", id)`) when they
      have any. */
  function Formatted(name: string, args: seq<Value>): string
  {
    if args == [] then name else name + "(" + Separated(Texts(args)) + ")"
  }

  function BenchRoute(v: Method, segs: seq<Segment>, name: string): Route<int, string>
  {
    Route(v, segs, (_, args) => Formatted(name, args))
  }

  const UsersSegments: seq<Segment> := [Literal("users")]
  const UserSegments: seq<Segment> := [Literal("users"), Placeholder("user_id", U32Type)]
  const TransactionsSegments: seq<Segment> :=
    [Literal("users"), Placeholder("user_id", U32Type), Literal("transactions")]
  const HashSegments: seq<Segment> :=
    [Literal("users"), Placeholder("user_id", U32Type), Literal("transactions"), Placeholder("hash", StringType)]

  /** The benchmark's routes after the home route `GET / => get_users`. */
  function BenchRoutes(): seq<Route<int, string>>
  {
    [ BenchRoute(GET, UsersSegments, "get_users"),
      BenchRoute(POST, UsersSegments, "post_users"),
      BenchRoute(PATCH, UserSegments, "patch_users"),
      BenchRoute(DELETE, UserSegments, "delete_users"),
      BenchRoute(GET, TransactionsSegments, "get_transactions"),
      BenchRoute(POST, TransactionsSegments, "post_transactions"),
      BenchRoute(PATCH, HashSegments, "patch_transactions"),
      BenchRoute(DELETE, HashSegments, "delete_transactions") ]
  }

  /** The benchmark's router; its default answers `404`. */
  function Bench(): Router<int, string>
  {
    HomeFirst(BenchRoute(GET, [], "get_users"), BenchRoutes(), _ => "404")
  }

  lemma BenchTypes()
    ensures DeclaredTypes(UsersSegments) == []
    ensures DeclaredTypes(UserSegments) == [U32Type]
    ensures DeclaredTypes(TransactionsSegments) == [U32Type]
    ensures DeclaredTypes(HashSegments) == [U32Type, StringType]
  {
    assert UsersSegments[1..] == [];
    var u := UserSegments;
    assert DeclaredTypes(u[1..]) == [U32Type] by { assert u[1..][1..] == []; }
    var t := TransactionsSegments;
    assert DeclaredTypes(t[2..]) == [] by { assert t[2..][1..] == []; }
    assert DeclaredTypes(t[1..]) == [U32Type] by { assert t[1..][1..] == t[2..]; }
    var s := HashSegments;
    assert DeclaredTypes(s[3..]) == [StringType] by { assert s[3..][1..] == []; }
    assert DeclaredTypes(s[2..]) == [StringType] by { assert s[2..][1..] == s[3..]; }
    assert DeclaredTypes(s[1..]) == [U32Type, StringType] by { assert s[1..][1..] == s[2..]; }
  }

  lemma BenchIdentifiers()
    ensures IsIdentifier("users") && IsIdentifier("user_id")
    ensures IsIdentifier("transactions") && IsIdentifier("hash")
  {
    assert IsIdentifier("users");
    assert IsIdentifier("user_id");
    assert IsIdentifier("transactions");
    assert IsIdentifier("hash");
  }

  lemma BenchSegmentsValid()
    ensures ValidSegments(UsersSegments) && ValidSegments(UserSegments)
    ensures ValidSegments(TransactionsSegments) && ValidSegments(HashSegments)
  {
    BenchIdentifiers();
  }

  /** Every route is one the macro accepts. */
  lemma BenchValid()
    ensures |Table(Bench())| == 9
    ensures forall j :: 0 <= j < 9 ==> ValidRoute(Table(Bench())[j])
  {
    BenchSegmentsValid();
    BenchTypes();
  }

  /** Two routes of the same method always differ in their number of
      segments; only the last two have four. */
  lemma BenchShape()
    ensures |Table(Bench())| == 9
    ensures forall j :: 0 <= j < 9 ==> ValidRoute(Table(Bench())[j])
    ensures forall i, j :: 0 <= i < j < 9 && Table(Bench())[i].verb == Table(Bench())[j].verb ==>
              |Table(Bench())[i].segments| != |Table(Bench())[j].segments|
    ensures forall j :: 0 <= j < 7 ==> |Table(Bench())[j].segments| < 4
    ensures Table(Bench())[7] == BenchRoute(PATCH, HashSegments, "patch_transactions")
    ensures Table(Bench())[8] == BenchRoute(DELETE, HashSegments, "delete_transactions")
    ensures ValidSegments(HashSegments) && CallTypes(HashSegments) == [U32Type, StringType]
  {
    BenchValid();
    BenchSegmentsValid();
    BenchTypes();
  }

  /** `/users/<id>/transactions/<hash>`. */
  function HashPath(id: string, hash: string): string
  {
    BenchTypes();
    Instantiate(HashSegments, [id, hash])
  }

  /** On a path of the two four-segment routes, no other route answers. */
  lemma HashPathOthersSilent(m: Method, path: string)
    requires MatchSegments(HashSegments, path).Some?
    ensures forall j :: 0 <= j < 7 ==> RouteResult(Table(Bench())[j], 0, m, path).None?
    ensures m != PATCH ==> RouteResult(Table(Bench())[7], 0, m, path).None?
    ensures m != DELETE ==> RouteResult(Table(Bench())[8], 0, m, path).None?
  {
    BenchShape();
    var table := Table(Bench());
    forall j | 0 <= j < 7 ensures RouteResult(table[j], 0, m, path).None? {
      SegmentCountMismatchSkipped([], table[j], [], 0, m, path, HashSegments);
    }
  }

  lemma HashPathMatches(id: string, hash: string)
    requires IsRouteText(id) && IsRouteText(hash)
    ensures MatchSegments(HashSegments, HashPath(id, hash)) == Some([id, hash])
  {
    BenchShape();
    MatchSegmentsIff(HashSegments, HashPath(id, hash), [id, hash]);
  }

  /** Every route of the benchmark is reached by its own paths: with
      well-typed arguments written in, its method and path call its handler
      with exactly those arguments (the nine positive cases, from
      `GET /` to `delete_transactions(534, 0x234)`). */
  lemma BenchRouteReached(k: nat, args: seq<Value>)
    requires k < 9
    requires |args| == NumPlaceholders(Table(Bench())[k].segments)
    requires forall i :: 0 <= i < |args| ==> HasType(args[i], CallTypes(Table(Bench())[k].segments)[i])
    requires forall i :: 0 <= i < |args| ==> Routable(args[i])
    ensures Answer(Bench(), 0, Table(Bench())[k].verb, Instantiate(Table(Bench())[k].segments, Texts(args)))
         == Table(Bench())[k].handler(0, args)
  {
    var table := Table(Bench());
    var route := table[k];
    var path := Instantiate(route.segments, Texts(args));
    BenchShape();
    ReverseRouteAnswers(route, 0, args);
    MatchSegmentsIff(route.segments, path, Texts(args));
    forall j | 0 <= j < k ensures RouteResult(table[j], 0, route.verb, path).None? {
      if table[j].verb == route.verb {
        SegmentCountMismatchSkipped([], table[j], [], 0, route.verb, path, route.segments);
      }
    }
    FirstAnswerWins(table, k, 0, route.verb, path);
  }

  /** `DELETE /users/<id>/transactions/<hash>` with an id that is not a `u32`
      (the case `5d34`) reaches the default. */
  lemma BenchNotAUser(id: string, hash: string)
    requires IsRouteText(id) && IsRouteText(hash) && ParseU32(id).None?
    ensures Answer(Bench(), 0, DELETE, HashPath(id, hash)) == "404"
  {
    var path := HashPath(id, hash);
    var table := Table(Bench());
    BenchShape();
    HashPathMatches(id, hash);
    HashPathOthersSilent(DELETE, path);
    CoercionFailureFallsThrough([], table[8], [], 0, DELETE, path, 0);
    FallbackWhenNoRouteAnswers(Bench(), 0, DELETE, path);
  }

  lemma FiveD34IsNotNumber()
    ensures IsRouteText("5d34") && IsRouteText("0x234") && ParseU32("5d34").None?
  {
    assert !IsDigit('d');
  }

  /** `POST /users/<id>/transactions/<hash>` reaches the default: the
      `POST` routes have one and three segments. */
  lemma BenchPostTransaction(id: string, hash: string)
    requires IsRouteText(id) && IsRouteText(hash)
    ensures Answer(Bench(), 0, POST, HashPath(id, hash)) == "404"
  {
    var path := HashPath(id, hash);
    HashPathMatches(id, hash);
    HashPathOthersSilent(POST, path);
    FallbackWhenNoRouteAnswers(Bench(), 0, POST, path);
  }

  /** `/` with any method but `GET` reaches the default: only the home route
      has no segments (the case `POST /`). */
  lemma BenchRootOtherMethod(m: Method)
    requires m != GET
    ensures Answer(Bench(), 0, m, "/") == "404"
  {
    var table := Table(Bench());
    BenchShape();
    assert MatchSegments([], "/").Some?;
    forall j | 0 <= j < |table| ensures RouteResult(table[j], 0, m, "/").None? {
      if j > 0 {
        SegmentCountMismatchSkipped([], table[j], [], 0, m, "/", []);
      }
    }
    FallbackWhenNoRouteAnswers(Bench(), 0, m, "/");
  }

  /** `GET /u` reaches the default: the one-segment routes want `users`, and
      the others have another segment count. */
  lemma BenchUnknownPath()
    ensures Answer(Bench(), 0, GET, "/u") == "404"
  {
    var table := Table(Bench());
    var unknown := [Literal("u")];
    BenchShape();
    assert IsIdentifier("u");
    SplitPieces(["u"], "/u");
    assert MatchSegments(unknown, "/u").Some?;
    assert MatchSegments(UsersSegments, "/u").None?;
    forall j | 0 <= j < |table| ensures RouteResult(table[j], 0, GET, "/u").None? {
      if j != 1 && j != 2 {
        SegmentCountMismatchSkipped([], table[j], [], 0, GET, "/u", unknown);
      }
    }
    FallbackWhenNoRouteAnswers(Bench(), 0, GET, "/u");
  }
}

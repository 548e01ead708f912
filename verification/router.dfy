/**
 * The request router at the top of api/index.php: the path is taken from
 * the request URI, a leading "/api" is removed, and the first pattern of
 * the request method's ordered table that matches the whole path names the
 * handler; its `(\d+)` capture becomes the handler's argument.
 */
module Router {
  import opened Wrappers
  import opened PhpStrings

  // ---------------------------------------------------------------------------
  // The path
  // ---------------------------------------------------------------------------

  /**
   * `parse_url($uri, PHP_URL_PATH)` for a request URI: the bytes before the
   * query ('?') or the fragment ('#').
   */
  function UrlPath(uri: string): (r: string)
    ensures '?' !in r && '#' !in r
    ensures |r| <= |uri| && r == uri[..|r|]
    ensures |r| < |uri| ==> uri[|r|] == '?' || uri[|r|] == '#'
  {
    TakeUntil(TakeUntil(uri, '?'), '#')
  }

  /** `preg_replace('~^/api~', '', $path)`: one leading "/api", even when no '/' follows it. */
  function StripApi(path: string): (r: string)
    ensures StartsWith(path, "/api") ==> path == "/api" + r
    ensures !StartsWith(path, "/api") ==> r == path
  {
    if StartsWith(path, "/api") then path[4..] else path
  }

  // ---------------------------------------------------------------------------
  // Patterns
  // ---------------------------------------------------------------------------

  /**
   * A route pattern: a literal prefix, followed by `(\d+)` when `capture`
   * holds. Every pattern of the table has this shape.
   */
  datatype Pattern = Pattern(prefix: string, capture: bool)

  /** The pattern matches all of `s`, with no line end taken into account. */
  predicate MatchesExactly(p: Pattern, s: string) {
    if p.capture then StartsWith(s, p.prefix) && |s| > |p.prefix| && AllDigits(s[|p.prefix|..])
    else s == p.prefix
  }

  /**
   * `preg_match('~^' . pattern . '$~', $s)`: without the D modifier `$`
   * also matches before one final "\n", so the pattern may match all of `s`
   * or all of `s` but a trailing line end.
   */
  predicate Matches(p: Pattern, s: string) {
    MatchesExactly(p, s) || MatchesExactly(p, Chomp(s))
  }

  /** The captured digits, without the full match that `array_shift` removes. */
  function Captures(p: Pattern, s: string): (r: seq<string>)
    requires Matches(p, s)
    ensures !p.capture ==> r == []
    ensures p.capture ==> |r| == 1 && |r[0]| > 0 && AllDigits(r[0])
    ensures p.capture ==> s == p.prefix + r[0] || s == p.prefix + r[0] + "\n"
  {
    if !p.capture then []
    else
      var t := if MatchesExactly(p, s) then s else Chomp(s);
      assert t == p.prefix + t[|p.prefix|..];
      [t[|p.prefix|..]]
  }

  // ---------------------------------------------------------------------------
  // The route table
  // ---------------------------------------------------------------------------

  datatype Handler =
    | GetPublicTiles | GetTiles | GetTile | GetMedia | ServeMedia | GetSettings | Health
    | Login | Logout | CreateTile | UploadMedia
    | UpdateTile | UpdateSettings
    | ReorderTiles
    | DeleteTile | DeleteMedia

  datatype Route = Route(pattern: Pattern, handler: Handler)

  function Literal(prefix: string, h: Handler): Route { Route(Pattern(prefix, false), h) }
  function Numbered(prefix: string, h: Handler): Route { Route(Pattern(prefix, true), h) }

  /** The tables of `$routes`, in the order of the source. */
  const GetRoutes: seq<Route> :=
    [Literal("/public/tiles", GetPublicTiles), Literal("/tiles", GetTiles), Numbered("/tiles/", GetTile),
     Literal("/media", GetMedia), Numbered("/media/serve/", ServeMedia), Literal("/settings", GetSettings),
     Literal("/health", Health)]
  const PostRoutes: seq<Route> :=
    [Literal("/auth/login", Login), Literal("/auth/logout", Logout), Literal("/tiles", CreateTile),
     Literal("/media", UploadMedia)]
  const PutRoutes: seq<Route> := [Numbered("/tiles/", UpdateTile), Literal("/settings", UpdateSettings)]
  const PatchRoutes: seq<Route> := [Literal("/tiles/reorder", ReorderTiles)]
  const DeleteRoutes: seq<Route> := [Numbered("/tiles/", DeleteTile), Numbered("/media/", DeleteMedia)]

  /** `$routes[$method]`; None when `isset` fails. Method names are case-sensitive. */
  function RoutesFor(verb: string): (r: Option<seq<Route>>)
    ensures r.Some? <==> verb in {"GET", "POST", "PUT", "PATCH", "DELETE"}
  {
    if verb == "GET" then Some(GetRoutes)
    else if verb == "POST" then Some(PostRoutes)
    else if verb == "PUT" then Some(PutRoutes)
    else if verb == "PATCH" then Some(PatchRoutes)
    else if verb == "DELETE" then Some(DeleteRoutes)
    else None
  }

  /** What the router does with a request. */
  datatype Response =
    | NotFound                                     // 404 {"error": "Not found"}
    | Dispatch(handler: Handler, args: seq<string>)

  /** No route before `i` matches `path`. */
  predicate NoneBefore(routes: seq<Route>, path: string, i: int)
    requires 0 <= i <= |routes|
  {
    forall j :: 0 <= j < i ==> !Matches(routes[j].pattern, path)
  }

  /** The route that handles `path`: the first whose pattern matches it. */
  function FirstMatch(routes: seq<Route>, path: string): Response
    decreases |routes|
  {
    if |routes| == 0 then NotFound
    else if Matches(routes[0].pattern, path) then Dispatch(routes[0].handler, Captures(routes[0].pattern, path))
    else FirstMatch(routes[1..], path)
  }

  /**
   * First match wins: no route matches and the answer is 404, or the
   * answer is the handler of a matching route that no earlier route
   * matches, called with that route's captures.
   */
  lemma {:induction false} FirstMatchWins(routes: seq<Route>, path: string)
    ensures FirstMatch(routes, path).NotFound? <==> NoneBefore(routes, path, |routes|)
    ensures FirstMatch(routes, path).Dispatch? ==>
              exists i :: 0 <= i < |routes| && Matches(routes[i].pattern, path) && NoneBefore(routes, path, i)
                          && FirstMatch(routes, path) == Dispatch(routes[i].handler, Captures(routes[i].pattern, path))
    decreases |routes|
  {
    if |routes| > 0 && !Matches(routes[0].pattern, path) {
      FirstMatchWins(routes[1..], path);
      assert forall j :: 1 <= j <= |routes| ==> (NoneBefore(routes, path, j) <==> NoneBefore(routes[1..], path, j - 1));
      var r := FirstMatch(routes[1..], path);
      if r.Dispatch? {
        var i :| 0 <= i < |routes[1..]| && Matches(routes[1..][i].pattern, path) && NoneBefore(routes[1..], path, i)
                 && r == Dispatch(routes[1..][i].handler, Captures(routes[1..][i].pattern, path));
        assert NoneBefore(routes, path, i + 1);
      }
    } else if |routes| > 0 {
      assert NoneBefore(routes, path, 0);
    }
  }

  /** The `foreach ... break` loop over one method's table. */
  method FindRoute(routes: seq<Route>, path: string) returns (r: Response)
    ensures r == FirstMatch(routes, path)
  {
    var i := 0;
    while i < |routes|
      invariant 0 <= i <= |routes|
      invariant FirstMatch(routes, path) == FirstMatch(routes[i..], path)
    {
      if Matches(routes[i].pattern, path) {
        return Dispatch(routes[i].handler, Captures(routes[i].pattern, path));
      }
      assert routes[i..][1..] == routes[i + 1..];
      i := i + 1;
    }
    return NotFound;
  }

  /** The router for a request method and URI. */
  function HandleRequest(verb: string, uri: string): (r: Response)
    ensures r.NotFound? <==> RoutesFor(verb).None? || NoneBefore(RoutesFor(verb).value, StripApi(UrlPath(uri)),
                                                                 |RoutesFor(verb).value|)
    ensures r.Dispatch? ==> var routes, path := RoutesFor(verb).value, StripApi(UrlPath(uri));
              exists i :: 0 <= i < |routes| && Matches(routes[i].pattern, path) && NoneBefore(routes, path, i)
                          && r == Dispatch(routes[i].handler, Captures(routes[i].pattern, path))
  {
    match RoutesFor(verb)
    case None => NotFound
    case Some(routes) =>
      FirstMatchWins(routes, StripApi(UrlPath(uri)));
      FirstMatch(routes, StripApi(UrlPath(uri)))
  }

  // ---------------------------------------------------------------------------
  // The table is unambiguous
  // ---------------------------------------------------------------------------

  /**
   * A shape condition under which two patterns can never match the same
   * path: no line end in either prefix, and neither prefix extends the
   * other in a way the digits of a capture could fill.
   */
  predicate Separated(p: Pattern, q: Pattern) {
    && '\n' !in p.prefix && '\n' !in q.prefix
    && (if !p.capture && !q.capture then p.prefix != q.prefix
        else if !p.capture then !StartsWith(p.prefix, q.prefix)
        else if !q.capture then !StartsWith(q.prefix, p.prefix)
        else !StartsWith(p.prefix, q.prefix) && !StartsWith(q.prefix, p.prefix))
  }

  lemma ExactMatchShape(p: Pattern, s: string)
    requires MatchesExactly(p, s) && '\n' !in p.prefix
    ensures StartsWith(s, p.prefix) && (|s| > 0 ==> s[|s| - 1] != '\n')
    ensures !p.capture ==> s == p.prefix
  {
    if |s| > 0 && p.capture {
      assert |s| - 1 >= |p.prefix|;
      assert s[|s| - 1] == s[|p.prefix|..][|s| - 1 - |p.prefix|];
    }
  }

  /** What matching tells about the path: which prefix it starts with, and whether it can be longer. */
  lemma MatchShape(p: Pattern, s: string)
    requires Matches(p, s) && '\n' !in p.prefix
    ensures var t := Chomp(s); MatchesExactly(p, t) && StartsWith(t, p.prefix)
    ensures !p.capture ==> Chomp(s) == p.prefix
  {
    if MatchesExactly(p, s) {
      ExactMatchShape(p, s);
    } else {
      ExactMatchShape(p, Chomp(s));
    }
  }

  /** A path with no line end at its end matches exactly or not at all. */
  lemma MatchesViaChomp(q: Pattern, s: string)
    requires '\n' !in q.prefix
    ensures Matches(q, s) <==> MatchesExactly(q, Chomp(s))
  {
    if MatchesExactly(q, s) {
      ExactMatchShape(q, s);
    }
  }

  /** Two prefixes of one string are prefixes of each other. */
  lemma PrefixesComparable(t: string, a: string, b: string)
    requires StartsWith(t, a)
    ensures StartsWith(t, b) ==> StartsWith(a, b) || StartsWith(b, a)
  {
    if StartsWith(t, b) {
      if |b| <= |a| {
        assert a[..|b|] == t[..|a|][..|b|];
      } else {
        assert b[..|a|] == t[..|b|][..|a|];
      }
    }
  }

  /** Separated patterns have no path in common. */
  lemma SeparatedDisjoint(p: Pattern, q: Pattern, s: string)
    requires Separated(p, q)
    ensures !(Matches(p, s) && Matches(q, s))
  {
    if Matches(p, s) {
      MatchShape(p, s);
      MatchesViaChomp(q, s);
      PrefixesComparable(Chomp(s), p.prefix, q.prefix);
    }
  }

  /** Every two routes of the table are separated. */
  predicate PairwiseSeparated(routes: seq<Route>) {
    forall i, j :: 0 <= i < j < |routes| ==> Separated(routes[i].pattern, routes[j].pattern)
  }

  /**
   * Two prefixes that differ in their second byte are not prefixes of each
   * other, and a string never starts with a longer one.
   */
  lemma DifferentPrefixes(a: string, b: string)
    ensures |a| > 1 && |b| > 1 && a[1] != b[1] ==> !StartsWith(a, b) && !StartsWith(b, a) && a != b
    ensures |a| < |b| ==> !StartsWith(a, b)
  {
    if |a| > 1 && |b| > 1 && a[1] != b[1] {
      if |b| <= |a| { assert a[..|b|][1] == a[1]; }
      if |a| <= |b| { assert b[..|a|][1] == b[1]; }
    }
  }

  /** Every two routes of a table whose prefixes tell them apart by a byte or by length are separated. */
  lemma PairsSeparated(routes: seq<Route>)
    requires forall i :: 0 <= i < |routes| ==> '\n' !in routes[i].pattern.prefix
    requires forall i, j :: 0 <= i < j < |routes| ==>
               var p, q := routes[i].pattern, routes[j].pattern;
               || (|p.prefix| > 1 && |q.prefix| > 1 && p.prefix[1] != q.prefix[1])
               || (!p.capture && !q.capture && |p.prefix| != |q.prefix|)
               || (!p.capture && q.capture && |p.prefix| < |q.prefix|)
               || (p.capture && !q.capture && |q.prefix| < |p.prefix|)
    ensures PairwiseSeparated(routes)
  {
    forall i, j | 0 <= i < j < |routes| ensures Separated(routes[i].pattern, routes[j].pattern) {
      DifferentPrefixes(routes[i].pattern.prefix, routes[j].pattern.prefix);
      DifferentPrefixes(routes[j].pattern.prefix, routes[i].pattern.prefix);
    }
  }

  /**
   * For every method at most one route matches any path, so the order of
   * the table never decides which handler runs.
   */
  lemma TableUnambiguous(verb: string, path: string)
    requires RoutesFor(verb).Some?
    ensures var routes := RoutesFor(verb).value;
            forall i, j :: 0 <= i < j < |routes| ==>
              !(Matches(routes[i].pattern, path) && Matches(routes[j].pattern, path))
  {
    var routes := RoutesFor(verb).value;
    TableSeparated(verb);
    forall i, j | 0 <= i < j < |routes|
      ensures !(Matches(routes[i].pattern, path) && Matches(routes[j].pattern, path))
    {
      SeparatedDisjoint(routes[i].pattern, routes[j].pattern, path);
    }
  }

  lemma TableSeparated(verb: string)
    requires RoutesFor(verb).Some?
    ensures PairwiseSeparated(RoutesFor(verb).value)
  {
    if verb == "GET" {
      GetRoutesSeparated();
    } else {
      OtherRoutesSeparated();
    }
  }

  lemma GetRoutesSeparated()
    ensures PairwiseSeparated(GetRoutes)
  {
    PairsSeparated(GetRoutes);
  }

  lemma OtherRoutesSeparated()
    ensures PairwiseSeparated(PostRoutes) && PairwiseSeparated(PutRoutes)
    ensures PairwiseSeparated(PatchRoutes) && PairwiseSeparated(DeleteRoutes)
  {
    PostRoutesSeparated();
    PairsSeparated(PutRoutes);
    PairsSeparated(PatchRoutes);
    PairsSeparated(DeleteRoutes);
  }

  lemma PostRoutesSeparated()
    ensures PairwiseSeparated(PostRoutes)
  {
    PairsSeparated(PostRoutes);
  }

  // ---------------------------------------------------------------------------
  // Examples
  // ---------------------------------------------------------------------------

  /** The path of a URI is what comes before its query or fragment. */
  lemma UrlPathOf(path: string, rest: string)
    requires '?' !in path && '#' !in path
    requires |rest| == 0 || rest[0] == '?' || rest[0] == '#'
    ensures UrlPath(path + rest) == path
  {
    TakeUntilAppend(path, rest, '?');
    var cut := TakeUntil(rest, '?');
    assert |cut| == 0 || cut[0] == '#';
    TakeUntilAppend(path, cut, '#');
    assert path + "" == path;
  }

  /** A path that ends in a digit has no line end to drop. */
  lemma DigitsEndLine(prefix: string, id: string)
    requires |id| > 0 && AllDigits(id)
    ensures Chomp(prefix + id) == prefix + id
  {
    var s := prefix + id;
    assert s[|s| - 1] == id[|id| - 1];
  }

  /** A prefix followed by digits matches the numbered pattern, which captures the digits. */
  lemma NumberedMatch(prefix: string, id: string)
    requires |id| > 0 && AllDigits(id)
    ensures Matches(Pattern(prefix, true), prefix + id)
    ensures Captures(Pattern(prefix, true), prefix + id) == [id]
  {
    var s := prefix + id;
    DigitsEndLine(prefix, id);
    assert s[..|prefix|] == prefix && s[|prefix|..] == id;
  }

  /** The routed path of an API URI: the prefix "/api" and the query are gone. */
  lemma ApiPath(path: string, rest: string)
    requires '?' !in path && '#' !in path
    requires |rest| == 0 || rest[0] == '?' || rest[0] == '#'
    ensures StripApi(UrlPath("/api" + path + rest)) == path
  {
    var full := "/api" + path;
    assert '?' !in full && '#' !in full by {
      assert forall c :: c in full ==> c in "/api" || c in path;
    }
    UrlPathOf(full, rest);
    assert full[..4] == "/api" && full[4..] == path;
  }

  /**
   * Any run of digits after "/api/tiles/" reaches `handleGetTile` as its
   * one argument, whatever query or fragment follows.
   */
  lemma GetTileById(id: string, rest: string)
    requires |id| > 0 && AllDigits(id)
    requires |rest| == 0 || rest[0] == '?' || rest[0] == '#'
    ensures HandleRequest("GET", "/api/tiles/" + id + rest) == Dispatch(GetTile, [id])
  {
    TileUri(id, rest);
    TileIdRoute(id);
  }

  lemma TileUri(id: string, rest: string)
    requires AllDigits(id)
    requires |rest| == 0 || rest[0] == '?' || rest[0] == '#'
    ensures StripApi(UrlPath("/api/tiles/" + id + rest)) == "/tiles/" + id
  {
    var path := "/tiles/" + id;
    assert "/api/tiles/" + id + rest == "/api" + path + rest by {
      AppendAssociative("/api", "/tiles/", id);
    }
    assert '?' !in path && '#' !in path by {
      assert forall c :: c in path ==> c in "/tiles/" || c in id;
    }
    ApiPath(path, rest);
  }

  lemma TileIdRoute(id: string)
    requires |id| > 0 && AllDigits(id)
    ensures FirstMatch(GetRoutes, "/tiles/" + id) == Dispatch(GetTile, [id])
  {
    TilePathPatterns(id);
    ThirdGetRoute("/tiles/" + id);
  }

  /** How the first three GET patterns treat "/tiles/<digits>". */
  lemma TilePathPatterns(id: string)
    requires |id| > 0 && AllDigits(id)
    ensures var path := "/tiles/" + id;
            && !Matches(Pattern("/public/tiles", false), path) && !Matches(Pattern("/tiles", false), path)
            && Matches(Pattern("/tiles/", true), path) && Captures(Pattern("/tiles/", true), path) == [id]
  {
    var path := "/tiles/" + id;
    assert path[1] == 't';
    DigitsEndLine("/tiles/", id);
    LiteralMiss("/public/tiles", path);
    LiteralMiss("/tiles", path);
    NumberedMatch("/tiles/", id);
  }

  lemma ThirdGetRoute(path: string)
    requires !Matches(Pattern("/public/tiles", false), path) && !Matches(Pattern("/tiles", false), path)
    requires Matches(Pattern("/tiles/", true), path)
    ensures FirstMatch(GetRoutes, path) == Dispatch(GetTile, Captures(Pattern("/tiles/", true), path))
  {
    assert GetRoutes[1..][1..] == GetRoutes[2..];
  }

  /** A literal pattern misses a path without a line end that differs from it in length or second byte. */
  lemma LiteralMiss(prefix: string, s: string)
    requires Chomp(s) == s
    requires |s| != |prefix| || (|s| > 1 && |prefix| > 1 && s[1] != prefix[1])
    ensures !Matches(Pattern(prefix, false), s)
  {
  }

  /** Reordering is a PATCH route; PUT on the same path finds no digits to capture. */
  lemma ReorderOnlyByPatch(path: string, rest: string)
    requires path == "/tiles/reorder"
    requires |rest| == 0 || rest[0] == '?' || rest[0] == '#'
    ensures HandleRequest("PATCH", "/api" + path + rest) == Dispatch(ReorderTiles, [])
    ensures HandleRequest("PUT", "/api" + path + rest) == NotFound
  {
    ApiPath(path, rest);
    ReorderRoutes(path);
  }

  lemma ReorderRoutes(path: string)
    requires path == "/tiles/reorder"
    ensures FirstMatch(PatchRoutes, path) == Dispatch(ReorderTiles, [])
    ensures FirstMatch(PutRoutes, path) == NotFound
  {
    assert path[7..] == "reorder" && !IsDigit(path[7]);
    assert path[1] == 't' && "/settings"[1] == 's';
  }

  /** An unknown method is a 404 whatever the path. */
  lemma UnknownMethodNotFound(uri: string)
    ensures HandleRequest("OPTIONS", uri) == NotFound
    ensures HandleRequest("get", uri) == NotFound
  {
  }
}

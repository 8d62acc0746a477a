/**
 Two routers that show what strict slashes can do: a request that the trailing-slash shortcut answers
 differently, and a path that redirects to its twin and back.
 */
module SlashExamples {
  import opened Base
  import opened Segments
  import opened Paths
  import opened Trie
  import opened Routes
  import opened Search
  import opened Allow
  import opened Table
  import opened Serve
  import opened Dispatch
  import opened Registration
  import opened RouterRuns
  import opened TrailingSkip

  const POST := "POST"

  function ById(handler: Handler): Attempt {
    Attempt("", GET, "/:id", Some(handler))
  }

  function WithSlash(handler: Handler): Attempt {
    Attempt("", GET, "/b/", Some(handler))
  }

  function Strict(): Router {
    NewRouter(false, true, false)
  }

  // ---------------------------------------------------------------- paths and patterns

  lemma OneSegment(part: string, trailing: bool)
    requires Sanitary(part) && DotFree([part])
    ensures var p := "/" + part + if trailing then "/" else "";
            Parts(p, 0) == [part] && CleanPath(p) == p && !HasControl(p)
  {
    assert forall i | 0 <= i < |part| :: part[i] in part;
    BuiltParts([part], trailing);
    BuiltIsCanonical([part], trailing);
    JoinHasNoControl([part]);
    BuiltHasNoControl([part], trailing);
    assert "/" + part + (if trailing then "/" else "") == Built([part], trailing);
  }

  lemma ByIdArguments(handler: Handler)
    ensures ArgumentError(GET, "/:id", Some(handler)).None?
    ensures RouteFor("/:id", handler, false) == Route([":id"], "/:id", handler)
  {
    OneSegment(":id", false);
    assert "/" + ":id" + "" == "/:id";
  }

  lemma WithSlashArguments(handler: Handler)
    ensures ArgumentError(GET, "/b/", Some(handler)).None?
    ensures RouteFor("/b/", handler, false) == Route(["b"], "/b/", handler)
  {
    OneSegment("b", true);
    assert "/" + "b" + "/" == "/b/";
  }

  lemma ExamplePaths()
    ensures Parts("/x", 0) == ["x"] && CleanPath("/x") == "/x" && !HasControl("/x")
    ensures Parts("/x/", 0) == ["x"] && CleanPath("/x/") == "/x/" && !HasControl("/x/")
    ensures AlternatePath("/x") == Some("/x/") && AlternatePath("/x/") == Some("/x")
  {
    OneSegment("x", false);
    OneSegment("x", true);
    assert "/" + "x" + "" == "/x" && "/" + "x" + "/" == "/x/" == "/x" + "/";
    assert "/x/"[..2] == "/x";
  }

  // ---------------------------------------------------------------- tables with routes for GET only

  lemma PostUnserved(t: RouteTable, routes: seq<Route>, path: string)
    requires GetOnly(t, routes)
    ensures ServeInTable(t, POST, path, path).None?
  {
    EmptyRootServesNothing(t, POST, path);
  }

  /** The route "/:id" makes GET allowed at every path of one segment. */
  lemma ByIdAllows(t: RouteTable, routes: seq<Route>, handler: Handler, path: string)
    requires GetOnly(t, routes) && Route([":id"], "/:id", handler) in Accepted(routes)
    requires |Parts(path, 0)| == 1 && !HasControl(path)
    ensures AllowedSet(t, path) != {}
  {
    BuildStoresAccepted(routes);
    var root := Build(routes);
    assert RootOf(t, GET) == root;
    assert Lookup(root, [":id"]).Some?;
    EmptyStoresNothing("", [":id"]);
    StoresByRoot(t, GET);
    assert IsDynamic([":id"][0]);
    assert HasParams(t, GET);
    ByIdMatches(root, path);
    TrieServes(t, GET, path);
    AllowAgreesWithServing(t, path, path, GET);
  }

  lemma ByIdMatches(root: Node, path: string)
    requires RootOk(root) && Lookup(root, [":id"]).Some? && |Parts(path, 0)| == 1
    ensures TrieMatches(root, path)
  {
    SegmentedPath(path, path);
    var segs := Segment(path, path);
    FindIsBestMatch(root, segs, 0);
    assert segs.parts[0..] == segs.parts && segs.parts[1..] == [] && [":id"][1..] == [];
    assert Matches([":id"], segs.parts[0..]);
  }

  // ---------------------------------------------------------------- the shortcut is visible

  lemma ByIdTable(handler: Handler)
    ensures var r := HandleAll(Strict(), [ById(handler)]);
            && Configured(r, false, true, false) && GetOnly(r.table, [Route([":id"], "/:id", handler)])
            && !r.table.hasTrailing
  {
    var a, route := ById(handler), Route([":id"], "/:id", handler);
    ByIdArguments(handler);
    OneAttempt(a, route);
    GetOnlyAfter(true, false, [a], [route]);
    OneRouteNoTrailing(HandleAll(Strict(), [a]).table, route);
  }

  lemma OneRouteNoTrailing(t: RouteTable, route: Route)
    requires GetOnly(t, [route]) && !HasTrailingSlash(route.pattern)
    ensures !t.hasTrailing
  {
    BuildStoresAccepted([route]);
    AcceptedOne(route);
    forall m
      ensures !StoresTrailing(t, m)
    {
      StoresByRoot(t, m);
      assert RootOf(t, m) == if m == GET then Build([route]) else EMPTY_ROOT;
      forall p
        ensures Lookup(EMPTY_ROOT, p).None?
      {
        EmptyStoresNothing("", p);
      }
    }
  }

  lemma AcceptedOne(route: Route)
    ensures Accepted([route]) == [route]
  {
    assert [route][..0] == [];
  }

  /**
   With GET "/:id" alone and strict slashes, POST "/x" is refused; without the shortcut it would be
   redirected to "/x/".
   */
  lemma SkipIsVisible(handler: Handler)
    ensures var r, ctx := HandleAll(Strict(), [ById(handler)]), Context(POST, "/x", false, false);
            && TryTable(r.table, ctx, true) != TryTable(Unskipped(r.table), ctx, true)
            && TryTable(Unskipped(r.table), ctx, true) == Some(RedirectTo(POST, "/x/", false))
  {
    var r, ctx := HandleAll(Strict(), [ById(handler)]), Context(POST, "/x", false, false);
    var route := Route([":id"], "/:id", handler);
    ByIdTable(handler);
    ExamplePaths();
    AcceptedOne(route);
    ByIdAllows(r.table, [route], handler, "/x/");
    PostUnserved(r.table, [route], "/x");
    assert ctx.MatchPath() + "/" == "/x/";
    SkipChangesExactly(r.table, ctx, true);
    UnskippedAlternate(r.table, ctx, true);
    UnskippedServes(r.table, POST, "/x", "/x");
  }

  // ---------------------------------------------------------------- a redirect loop

  lemma LoopTable(handler: Handler)
    ensures var r, routes := HandleAll(Strict(), [ById(handler), WithSlash(handler)]),
                             [Route([":id"], "/:id", handler), Route(["b"], "/b/", handler)];
            && Configured(r, false, true, false) && GetOnly(r.table, routes) && Accepted(routes) == routes
            && r.table.hasTrailing
  {
    var a, b := ById(handler), WithSlash(handler);
    var x, y := Route([":id"], "/:id", handler), Route(["b"], "/b/", handler);
    ByIdArguments(handler);
    WithSlashArguments(handler);
    TwoAttempts(a, b, x, y);
    GetOnlyAfter(true, false, [a, b], [x, y]);
    TwoAccepted(x, y);
    TrailingStored(HandleAll(Strict(), [a, b]).table, [x, y], y);
  }

  lemma TwoAccepted(x: Route, y: Route)
    requires !Conflict(y.parts, x.parts)
    ensures Accepted([x, y]) == [x, y]
  {
    AcceptedOne(x);
    assert [x, y][..1] == [x];
    assert [x] + [y] == [x, y];
  }

  lemma TrailingStored(t: RouteTable, routes: seq<Route>, y: Route)
    requires GetOnly(t, routes) && y in Accepted(routes) && HasTrailingSlash(y.pattern)
    ensures t.hasTrailing
  {
    BuildStoresAccepted(routes);
    assert Lookup(RootOf(t, GET), y.parts) == Some(RouteLeaf(y));
    StoresByRoot(t, GET);
    assert StoresTrailing(t, GET);
  }

  lemma LoopOnTable(t: RouteTable, routes: seq<Route>, handler: Handler)
    requires GetOnly(t, routes) && Route([":id"], "/:id", handler) in Accepted(routes) && t.hasTrailing
    ensures OnDefaultTable(t, POST, "/x", false) == Some(Redirect("/x/", false, 308))
    ensures OnDefaultTable(t, POST, "/x/", false) == Some(Redirect("/x", false, 308))
  {
    ExamplePaths();
    ByIdAllows(t, routes, handler, "/x");
    ByIdAllows(t, routes, handler, "/x/");
    PostUnserved(t, routes, "/x");
    PostUnserved(t, routes, "/x/");
    RedirectLoopExactly(t, POST, "/x", false);
  }

  /** With GET "/:id" and GET "/b/" and strict slashes, POST "/x" and POST "/x/" redirect to each other. */
  lemma RedirectLoopExists(handler: Handler)
    ensures var r := HandleAll(Strict(), [ById(handler), WithSlash(handler)]);
            && ServeHTTP(r, Request(POST, "", "/x", "", "/x")) == Redirect("/x/", false, 308)
            && ServeHTTP(r, Request(POST, "", "/x/", "", "/x/")) == Redirect("/x", false, 308)
  {
    var r := HandleAll(Strict(), [ById(handler), WithSlash(handler)]);
    var routes := [Route([":id"], "/:id", handler), Route(["b"], "/b/", handler)];
    LoopTable(handler);
    ExamplePaths();
    assert routes[0] in Accepted(routes);
    LoopOnTable(r.table, routes, handler);
    DefaultDispatch(r, Request(POST, "", "/x", "", "/x"));
    DefaultDispatch(r, Request(POST, "", "/x/", "", "/x/"));
  }
}

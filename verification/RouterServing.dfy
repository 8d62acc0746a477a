/**
 What a router serves after any run of registrations, in terms of the registered routes alone.
 */
module RouterServing {
  import opened Base
  import opened Segments
  import opened Paths
  import opened Trie
  import opened Routes
  import opened Search
  import opened BestRoute
  import opened Table
  import opened Serve
  import opened Dispatch
  import opened Registration
  import opened RouterRuns

  /** A static route registered under exactly this path. */
  predicate StaticAt(r: Route, path: string) {
    !AnyDynamic(r.parts) && r.pattern == path
  }

  /** Some route has a parameter or a wildcard, and the path can be split: only then is the trie searched. */
  ghost predicate TrieAsked(routes: seq<Route>, path: string) {
    !Unsearchable(path) && exists d :: d in routes && AnyDynamic(d.parts)
  }

  function AnswerOf(r: Route, segs: PathSegments): Answer
    requires Segmented(segs)
  {
    Answer(r.handler, if AnyDynamic(r.parts) then Bindings(r.parts, segs, 0) else [])
  }

  /**
   What a method with these routes answers at a path: a static route under exactly this path first;
   failing that, and if the trie is searched at all, the best match with its bindings.
   */
  ghost predicate ServedFrom(routes: seq<Route>, path: string, raw: string, answer: Option<Answer>)
    requires |raw| == |path|
  {
    SegmentedPath(path, raw);
    var segs := Segment(path, raw);
    if exists s :: s in routes && StaticAt(s, path) then
      exists s :: s in routes && StaticAt(s, path) && answer == Some(Answer(s.handler, []))
    else if TrieAsked(routes, path) && exists a :: a in routes && Matches(a.parts, segs.parts) then
      exists r :: BestOf(routes, r, segs.parts) && answer == Some(AnswerOf(r, segs))
    else answer == None
  }

  /** The tries of a table, one method at a time. */
  ghost predicate TrieHolds(t: RouteTable, m: string, routes: seq<Route>) {
    TableOk(t) && RootOk(RootOf(t, m)) && Stores(RootOf(t, m), routes) && forall r <- routes :: Registrable(r)
  }

  /** The static index answers for the static route under this path, if there is one. */
  lemma IndexAnswers(t: RouteTable, m: string, routes: seq<Route>, path: string)
    requires TrieHolds(t, m, routes)
    ensures IndexHit(t, m, path).Some? ==>
            exists s :: s in routes && StaticAt(s, path) && IndexHit(t, m, path) == Some(s.handler)
    ensures forall s <- routes :: StaticAt(s, path) ==> IndexHit(t, m, path) == Some(s.handler)
  {
    assert IndexHit(t, m, path) == TrieHit(t, m, path);
    EmptyStoresNothing("", Parts(path, 0));
    if IndexHit(t, m, path).Some? {
      var s :| s in routes && s.parts == Parts(path, 0);
      assert Lookup(RootOf(t, m), s.parts) == Some(RouteLeaf(s));
    }
    forall s <- routes | StaticAt(s, path)
      ensures IndexHit(t, m, path) == Some(s.handler)
    {
      assert Parts(path, 0) == s.parts && Lookup(RootOf(t, m), s.parts) == Some(RouteLeaf(s));
    }
  }

  lemma ParamsFromRoutes(t: RouteTable, m: string, routes: seq<Route>)
    requires TrieHolds(t, m, routes)
    ensures HasParams(t, m) <==> exists d :: d in routes && AnyDynamic(d.parts)
    ensures HasParams(t, m) ==> m in t.roots
  {
    StoresByRoot(t, m);
    if d :| d in routes && AnyDynamic(d.parts) {
      assert Lookup(RootOf(t, m), d.parts).Some?;
    }
  }

  lemma TableServes(t: RouteTable, m: string, routes: seq<Route>, path: string, raw: string)
    requires TrieHolds(t, m, routes) && |raw| == |path|
    ensures ServedFrom(routes, path, raw, ServeMethod(t, m, path, raw))
  {
    IndexAnswers(t, m, routes, path);
    ParamsFromRoutes(t, m, routes);
    SegmentedPath(path, raw);
    var segs := Segment(path, raw);
    if IndexHit(t, m, path).None? && TrieAsked(routes, path) {
      AnswersFromStore(RootOf(t, m), routes, segs);
      TrieAnswers(routes, segs, Find(t.roots[m], segs, 0));
    }
  }

  lemma TrieAnswers(routes: seq<Route>, segs: PathSegments, found: Option<Match>)
    requires Segmented(segs) && Answers(routes, segs, found)
    ensures if exists a :: a in routes && Matches(a.parts, segs.parts)
            then exists r :: BestOf(routes, r, segs.parts) && ServeMatch(found) == Some(AnswerOf(r, segs))
            else ServeMatch(found) == None
  {
    if found.Some? {
      var r :| BestOf(routes, r, segs.parts) && found.value == Match(RouteLeaf(r), Bindings(r.parts, segs, 0));
      assert ServeMatch(found) == Some(AnswerOf(r, segs));
    }
  }

  /** There is one such answer. */
  lemma ServedOnce(t: RouteTable, m: string, routes: seq<Route>, path: string, raw: string, answer: Option<Answer>)
    requires TrieHolds(t, m, routes) && |raw| == |path| && ServedFrom(routes, path, raw, answer)
    ensures answer == ServeMethod(t, m, path, raw)
  {
    IndexAnswers(t, m, routes, path);
    TableServes(t, m, routes, path, raw);
    SegmentedPath(path, raw);
    var segs := Segment(path, raw);
    if answer.Some? && !exists s :: s in routes && StaticAt(s, path) {
      var r :| BestOf(routes, r, segs.parts) && answer == Some(AnswerOf(r, segs));
      var r' :| BestOf(routes, r', segs.parts) && ServeMethod(t, m, path, raw) == Some(AnswerOf(r', segs));
      BestStored(RootOf(t, m), routes, segs, r, r');
    }
  }

  lemma BestStored(root: Node, routes: seq<Route>, segs: PathSegments, r: Route, r': Route)
    requires Segmented(segs) && RootOk(root) && Stores(root, routes)
    requires BestOf(routes, r, segs.parts) && BestOf(routes, r', segs.parts)
    ensures r == r'
  {
    assert segs.parts[0..] == segs.parts;
    BestIsUnique(root, segs, 0, r.parts, r'.parts);
    assert Lookup(root, r.parts) == Some(RouteLeaf(r)) && Lookup(root, r'.parts) == Some(RouteLeaf(r'));
  }

  lemma RunHolds(ignoreCase: bool, strictSlash: bool, useRawPath: bool, attempts: seq<Attempt>, host: string, m: string)
    ensures var r := HandleAll(NewRouter(ignoreCase, strictSlash, useRawPath), attempts);
            TrieHolds(TableAt(r, host), m, Accepted(RoutesFor(attempts, host, m, ignoreCase)))
  {
    var r := HandleAll(NewRouter(ignoreCase, strictSlash, useRawPath), attempts);
    var routes := RoutesFor(attempts, host, m, ignoreCase);
    ReachableRouterOk(ignoreCase, strictSlash, useRawPath, attempts);
    TablesOk(r, host);
    RunBuilds(ignoreCase, strictSlash, useRawPath, attempts, host, m);
    RoutesForValid(attempts, host, m, ignoreCase);
    BuildStoresAccepted(routes);
    AcceptedAttempted(routes);
  }

  /**
   What any router that registrations can build serves for a method on one of its tables, whatever
   the order and the rejections: the static route under exactly this path; else, only if the method
   has a route with parameters, the best accepted route that matches, with its bindings; else nothing.
   */
  lemma RunServesRoutes(ignoreCase: bool, strictSlash: bool, useRawPath: bool, attempts: seq<Attempt>,
                        host: string, m: string, path: string, raw: string, answer: Option<Answer>)
    requires |raw| == |path|
    ensures var r := HandleAll(NewRouter(ignoreCase, strictSlash, useRawPath), attempts);
            var routes := Accepted(RoutesFor(attempts, host, m, ignoreCase));
            ServeMethod(TableAt(r, host), m, path, raw) == answer <==> ServedFrom(routes, path, raw, answer)
  {
    var t := TableAt(HandleAll(NewRouter(ignoreCase, strictSlash, useRawPath), attempts), host);
    var routes := Accepted(RoutesFor(attempts, host, m, ignoreCase));
    RunHolds(ignoreCase, strictSlash, useRawPath, attempts, host, m);
    TableServes(t, m, routes, path, raw);
    if ServedFrom(routes, path, raw, answer) {
      ServedOnce(t, m, routes, path, raw, answer);
    }
  }
}

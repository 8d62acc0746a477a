/**
 Runs of registrations on the whole router, seen from the tries of its tables: what every run builds,
 when a registration is rejected, why the order does not matter to any request, and what a 405 lists.
 */
module RouterRuns {
  import opened Base
  import opened Segments
  import opened Paths
  import opened Trie
  import opened Routes
  import opened Allow
  import opened Table
  import opened Serve
  import opened Dispatch
  import opened Registration

  // ---------------------------------------------------------------- the tries of a run

  ghost predicate PassesTo(a: Attempt, host: string, m: string) {
    a.host == host && a.method_ == m && ArgumentError(a.method_, a.pattern, a.handler).None?
  }

  /** The routes that a run of attempts hands to the trie of one host and method, accepted there or not. */
  ghost function RoutesFor(attempts: seq<Attempt>, host: string, m: string, fold: bool): seq<Route> {
    if attempts == [] then []
    else
      var a := attempts[|attempts| - 1];
      RoutesFor(attempts[..|attempts| - 1], host, m, fold) +
      if PassesTo(a, host, m) then [RouteFor(a.pattern, a.handler.value, fold)] else []
  }

  ghost function Perform(r: Router, a: Attempt): Handled {
    Handle(r, a.host, a.method_, a.pattern, a.handler)
  }

  lemma {:induction false} HandleAllSnoc(r: Router, attempts: seq<Attempt>, a: Attempt)
    ensures HandleAll(r, attempts + [a]) == Perform(HandleAll(r, attempts), a).router
    decreases |attempts|
  {
    var all := attempts + [a];
    if attempts == [] {
      assert all[1..] == [];
      assert HandleAll(Perform(r, a).router, []) == Perform(r, a).router;
    } else {
      assert all[0] == attempts[0] && all[1..] == attempts[1..] + [a];
      HandleAllSnoc(Perform(r, attempts[0]).router, attempts[1..], a);
    }
  }

  /** The options of a router, and a latch that agrees with them. */
  ghost predicate Configured(r: Router, ignoreCase: bool, strictSlash: bool, useRawPath: bool) {
    && r.ignoreCase == ignoreCase && r.strictSlash == strictSlash && r.useRawPath == useRawPath
    && (r.ignoreCaseSet ==> r.ignoreCaseEnabled == ignoreCase)
  }

  lemma PerformKeepsOptions(r: Router, a: Attempt, ignoreCase: bool, strictSlash: bool, useRawPath: bool)
    requires Configured(r, ignoreCase, strictSlash, useRawPath)
    ensures Configured(Perform(r, a).router, ignoreCase, strictSlash, useRawPath)
  {
    if ArgumentError(a.method_, a.pattern, a.handler).None? {
      var locked := LockIgnoreCase(r);
      StoreKeepsOptions(locked, a.host, a.method_, RouteFor(a.pattern, a.handler.value, locked.ignoreCaseEnabled));
    }
  }

  lemma StoreKeepsOptions(r: Router, host: string, m: string, route: Route)
    ensures var r' := Store(r, host, m, route).router;
            && r'.ignoreCaseSet == r.ignoreCaseSet && r'.ignoreCaseEnabled == r.ignoreCaseEnabled
            && r'.ignoreCase == r.ignoreCase && r'.strictSlash == r.strictSlash && r'.useRawPath == r.useRawPath
  {
    var t := TableInsert(TableAt(r, host), m, route).table;
    assert WithTable(r, host, t).strictSlash == r.strictSlash && WithTable(r, host, t).useRawPath == r.useRawPath;
    StoreKeepsLatch(r, host, m, route);
  }

  lemma StoreTables(r: Router, host: string, m: string, route: Route, h: string)
    ensures TableAt(Store(r, host, m, route).router, h) ==
            if h == host then TableInsert(TableAt(r, host), m, route).table else TableAt(r, h)
  {
    WithTableAt(r, host, TableInsert(TableAt(r, host), m, route).table, h);
  }

  lemma WithTableAt(r: Router, host: string, t: RouteTable, h: string)
    ensures TableAt(WithTable(r, host, t), h) == if h == host then t else TableAt(r, h)
  {
  }

  lemma InsertedRoots(t: RouteTable, m: string, route: Route, m': string)
    ensures RootOf(TableInsert(t, m, route).table, m') ==
            if m' == m then Register(RootOf(t, m), route).node else RootOf(t, m')
  {
  }

  /** One attempt changes at most the trie of its own host and method. */
  lemma PerformRoots(r: Router, a: Attempt, host: string, m: string, fold: bool)
    requires IgnoreCaseActive(r) == fold
    ensures RootOf(TableAt(Perform(r, a).router, host), m) ==
            if PassesTo(a, host, m)
              then Register(RootOf(TableAt(r, host), m), RouteFor(a.pattern, a.handler.value, fold)).node
            else RootOf(TableAt(r, host), m)
  {
    if ArgumentError(a.method_, a.pattern, a.handler).None? {
      var locked := LockIgnoreCase(r);
      var route := RouteFor(a.pattern, a.handler.value, fold);
      StoreTables(locked, a.host, a.method_, route, host);
      InsertedRoots(TableAt(locked, a.host), a.method_, route, m);
    }
  }

  lemma BuildSnoc(routes: seq<Route>, r: Route)
    ensures Build(routes + [r]) == Register(Build(routes), r).node
    ensures Accepted(routes + [r]) ==
      if exists a :: a in Accepted(routes) && Conflict(r.parts, a.parts)
        then Accepted(routes)
        else Accepted(routes) + [r]
  {
    assert (routes + [r])[..|routes|] == routes;
  }

  /** After any run, the trie of a host and method is the one its own routes build. */
  lemma {:induction false} RunBuilds(ignoreCase: bool, strictSlash: bool, useRawPath: bool, attempts: seq<Attempt>,
                                     host: string, m: string)
    ensures var r := HandleAll(NewRouter(ignoreCase, strictSlash, useRawPath), attempts);
            && Configured(r, ignoreCase, strictSlash, useRawPath)
            && RootOf(TableAt(r, host), m) == Build(RoutesFor(attempts, host, m, ignoreCase))
    decreases |attempts|
  {
    var r0 := NewRouter(ignoreCase, strictSlash, useRawPath);
    if attempts != [] {
      var before, a := attempts[..|attempts| - 1], attempts[|attempts| - 1];
      assert attempts == before + [a];
      RunBuilds(ignoreCase, strictSlash, useRawPath, before, host, m);
      HandleAllSnoc(r0, before, a);
      var r := HandleAll(r0, before);
      PerformKeepsOptions(r, a, ignoreCase, strictSlash, useRawPath);
      PerformRoots(r, a, host, m, ignoreCase);
      var routes := RoutesFor(before, host, m, ignoreCase);
      if PassesTo(a, host, m) {
        BuildSnoc(routes, RouteFor(a.pattern, a.handler.value, ignoreCase));
      } else {
        assert RoutesFor(attempts, host, m, ignoreCase) == routes + [] == routes;
      }
    }
  }

  lemma {:induction false} RoutesForValid(attempts: seq<Attempt>, host: string, m: string, fold: bool)
    ensures forall route <- RoutesFor(attempts, host, m, fold) :: Registrable(route)
    ensures AllValid(RoutesFor(attempts, host, m, fold))
    decreases |attempts|
  {
    if attempts != [] {
      var a := attempts[|attempts| - 1];
      RoutesForValid(attempts[..|attempts| - 1], host, m, fold);
      if PassesTo(a, host, m) {
        RouteForRegistrable(m, a.pattern, a.handler.value, fold);
      }
    }
  }

  // ---------------------------------------------------------------- when a registration is rejected

  ghost predicate ConflictsWithAccepted(routes: seq<Route>, r: Route) {
    exists a :: a in Accepted(routes) && Conflict(r.parts, a.parts)
  }

  lemma StoreRejects(r: Router, host: string, m: string, route: Route)
    ensures Store(r, host, m, route).error.Some? <==> Register(RootOf(TableAt(r, host), m), route).error.Some?
  {
  }

  /**
   After any run, Handle rejects an attempt exactly when its arguments are bad or its route conflicts
   with one accepted before for the same host and method.
   */
  lemma HandleRejectsExactly(ignoreCase: bool, strictSlash: bool, useRawPath: bool, attempts: seq<Attempt>, a: Attempt)
    ensures Perform(HandleAll(NewRouter(ignoreCase, strictSlash, useRawPath), attempts), a).error.Some?
       <==> || ArgumentError(a.method_, a.pattern, a.handler).Some?
            || ConflictsWithAccepted(RoutesFor(attempts, a.host, a.method_, ignoreCase),
                                     RouteFor(a.pattern, a.handler.value, ignoreCase))
  {
    var r := HandleAll(NewRouter(ignoreCase, strictSlash, useRawPath), attempts);
    RunBuilds(ignoreCase, strictSlash, useRawPath, attempts, a.host, a.method_);
    if ArgumentError(a.method_, a.pattern, a.handler).None? {
      RoutesForValid(attempts, a.host, a.method_, ignoreCase);
      PerformRejects(r, a, RoutesFor(attempts, a.host, a.method_, ignoreCase), ignoreCase);
    }
  }

  lemma PerformRejects(r: Router, a: Attempt, routes: seq<Route>, fold: bool)
    requires Configured(r, fold, r.strictSlash, r.useRawPath) && ArgumentError(a.method_, a.pattern, a.handler).None?
    requires AllValid(routes) && RootOf(TableAt(r, a.host), a.method_) == Build(routes)
    ensures Perform(r, a).error.Some? <==> ConflictsWithAccepted(routes, RouteFor(a.pattern, a.handler.value, fold))
  {
    var route := RouteFor(a.pattern, a.handler.value, fold);
    RouteForRegistrable(a.method_, a.pattern, a.handler.value, fold);
    RegistrationFailsOnConflict(routes, route);
    StoreRejects(LockIgnoreCase(r), a.host, a.method_, route);
  }

  /** Every attempt of the run is accepted. */
  ghost predicate AllPerformed(r: Router, attempts: seq<Attempt>) {
    forall i | 0 <= i < |attempts| :: Perform(HandleAll(r, attempts[..i]), attempts[i]).error.None?
  }

  ghost predicate ArgumentsOk(attempts: seq<Attempt>) {
    forall a <- attempts :: ArgumentError(a.method_, a.pattern, a.handler).None?
  }

  ghost predicate NoneConflict(attempts: seq<Attempt>, fold: bool) {
    forall host, m :: Accepted(RoutesFor(attempts, host, m, fold)) == RoutesFor(attempts, host, m, fold)
  }

  lemma RoutesForSnoc(before: seq<Attempt>, a: Attempt, host: string, m: string, fold: bool)
    ensures RoutesFor(before + [a], host, m, fold) == RoutesFor(before, host, m, fold) +
      if PassesTo(a, host, m) then [RouteFor(a.pattern, a.handler.value, fold)] else []
  {
    assert (before + [a])[..|before|] == before;
  }

  lemma NoneConflictSnoc(before: seq<Attempt>, a: Attempt, fold: bool)
    requires ArgumentError(a.method_, a.pattern, a.handler).None?
    ensures NoneConflict(before + [a], fold) <==>
      NoneConflict(before, fold) &&
      !ConflictsWithAccepted(RoutesFor(before, a.host, a.method_, fold), RouteFor(a.pattern, a.handler.value, fold))
  {
    var route := RouteFor(a.pattern, a.handler.value, fold);
    forall host, m
      ensures Accepted(RoutesFor(before + [a], host, m, fold)) == RoutesFor(before + [a], host, m, fold) <==>
        Accepted(RoutesFor(before, host, m, fold)) == RoutesFor(before, host, m, fold) &&
        (PassesTo(a, host, m) ==> !ConflictsWithAccepted(RoutesFor(before, host, m, fold), route))
    {
      RoutesForSnoc(before, a, host, m, fold);
      var routes := RoutesFor(before, host, m, fold);
      if PassesTo(a, host, m) {
        AcceptedSnoc(routes, route);
      } else {
        assert routes + [] == routes;
      }
    }
    assert PassesTo(a, a.host, a.method_);
  }

  /** One more route is accepted with all the others exactly when it conflicts with none of them. */
  lemma AcceptedSnoc(routes: seq<Route>, r: Route)
    ensures Accepted(routes + [r]) == routes + [r] <==> Accepted(routes) == routes && !ConflictsWithAccepted(routes, r)
  {
    BuildSnoc(routes, r);
    AllAcceptedWhenCompatible(routes);
    if Accepted(routes + [r]) == routes + [r] {
      assert |Accepted(routes + [r])| == |routes| + 1;
      assert Accepted(routes) == (routes + [r])[..|routes|] == routes;
    }
  }

  /** A run is accepted as a whole exactly when all arguments are good and no two routes of a trie conflict. */
  lemma {:induction false} AllPerformedExactly(ignoreCase: bool, strictSlash: bool, useRawPath: bool,
                                               attempts: seq<Attempt>)
    ensures AllPerformed(NewRouter(ignoreCase, strictSlash, useRawPath), attempts) <==>
            ArgumentsOk(attempts) && NoneConflict(attempts, ignoreCase)
    decreases |attempts|
  {
    var r0 := NewRouter(ignoreCase, strictSlash, useRawPath);
    if attempts != [] {
      var before, a := attempts[..|attempts| - 1], attempts[|attempts| - 1];
      assert attempts == before + [a];
      AllPerformedExactly(ignoreCase, strictSlash, useRawPath, before);
      AllPerformedSnoc(r0, before, a);
      HandleRejectsExactly(ignoreCase, strictSlash, useRawPath, before, a);
      if ArgumentError(a.method_, a.pattern, a.handler).None? {
        NoneConflictSnoc(before, a, ignoreCase);
      }
    }
  }

  lemma AllPerformedSnoc(r: Router, before: seq<Attempt>, a: Attempt)
    ensures AllPerformed(r, before + [a]) <==> AllPerformed(r, before) && Perform(HandleAll(r, before), a).error.None?
  {
    var all := before + [a];
    assert all[..|before|] == before && all[|before|] == a;
    assert forall i | 0 <= i < |before| :: all[..i] == before[..i] && all[i] == before[i];
  }

  // ---------------------------------------------------------------- the order does not matter

  lemma {:induction false} RoutesForConcat(x: seq<Attempt>, y: seq<Attempt>, host: string, m: string, fold: bool)
    ensures RoutesFor(x + y, host, m, fold) == RoutesFor(x, host, m, fold) + RoutesFor(y, host, m, fold)
    decreases |y|
  {
    if y == [] {
      assert x + y == x;
    } else {
      var before, a := y[..|y| - 1], y[|y| - 1];
      assert x + y == (x + before) + [a] && y == before + [a];
      RoutesForConcat(x, before, host, m, fold);
      RoutesForSnoc(x + before, a, host, m, fold);
      RoutesForSnoc(before, a, host, m, fold);
    }
  }

  lemma RemoveOne<T>(before: seq<T>, a: T, left: seq<T>, right: seq<T>)
    requires multiset(before + [a]) == multiset(left + ([a] + right))
    ensures multiset(left + right) == multiset(before)
  {
    var kept := multiset(left) + multiset(right);
    assert multiset(before + [a]) == multiset(before) + multiset{a};
    assert multiset(left + ([a] + right)) == multiset(left) + multiset([a] + right) == kept + multiset{a};
    assert multiset(before) == multiset(before) + multiset{a} - multiset{a};
    assert kept == kept + multiset{a} - multiset{a};
    assert multiset(left + right) == kept;
  }

  lemma InsertOne<T>(before: seq<T>, a: seq<T>, left: seq<T>, right: seq<T>)
    requires multiset(before) == multiset(left + right)
    ensures multiset(before + a) == multiset(left + (a + right))
  {
  }

  /** Permuting the attempts permutes the routes of each trie. */
  lemma {:induction false} RoutesForPermuted(x: seq<Attempt>, y: seq<Attempt>, host: string, m: string, fold: bool)
    requires multiset(x) == multiset(y)
    ensures multiset(RoutesFor(x, host, m, fold)) == multiset(RoutesFor(y, host, m, fold))
    decreases |x|
  {
    if x == [] {
      assert multiset(y) == multiset{};
      assert y == [];
    } else {
      var before, a := x[..|x| - 1], x[|x| - 1];
      assert x == before + [a];
      assert a in multiset(y);
      var i :| 0 <= i < |y| && y[i] == a;
      var left, right := y[..i], y[i + 1..];
      assert y == left + ([a] + right);
      RemoveOne(before, a, left, right);
      RoutesForPermuted(before, left + right, host, m, fold);
      RoutesForConcat(left, right, host, m, fold);
      RoutesForConcat(left, [a] + right, host, m, fold);
      RoutesForConcat([a], right, host, m, fold);
      RoutesForConcat(before, [a], host, m, fold);
      InsertOne(RoutesFor(before, host, m, fold), RoutesFor([a], host, m, fold),
                RoutesFor(left, host, m, fold), RoutesFor(right, host, m, fold));
    }
  }

  /** Both tables hold the same tries, an absent one counting as empty. */
  ghost predicate SameRoots(t: RouteTable, u: RouteTable) {
    forall m :: RootOf(t, m) == RootOf(u, m)
  }

  /** Everything a table answers with is determined by its tries. */
  lemma SameRootsSameFlags(t: RouteTable, u: RouteTable)
    requires TableOk(t) && TableOk(u) && SameRoots(t, u)
    ensures forall m :: HasParams(t, m) == HasParams(u, m)
    ensures t.hasTrailing == u.hasTrailing
  {
    forall m
      ensures StoresParams(t, m) <==> StoresParams(u, m)
      ensures StoresTrailing(t, m) <==> StoresTrailing(u, m)
    {
      StoresByRoot(t, m);
      StoresByRoot(u, m);
    }
  }

  ghost predicate RootParams(n: Node) {
    exists p :: Lookup(n, p).Some? && AnyDynamic(p)
  }

  ghost predicate RootTrailing(n: Node) {
    exists p :: Lookup(n, p).Some? && HasTrailingSlash(Lookup(n, p).value.pattern)
  }

  lemma StoresByRoot(t: RouteTable, m: string)
    ensures StoresParams(t, m) <==> RootParams(RootOf(t, m))
    ensures StoresTrailing(t, m) <==> RootTrailing(RootOf(t, m))
  {
    if m in t.roots {
      assert RootOf(t, m) == t.roots[m];
    } else {
      forall p
        ensures Lookup(EMPTY_ROOT, p).None?
      {
        EmptyStoresNothing("", p);
      }
    }
  }

  lemma SameRootsSameIndex(t: RouteTable, u: RouteTable, m: string, path: string)
    requires TableOk(t) && TableOk(u) && SameRoots(t, u)
    ensures IndexHit(t, m, path) == IndexHit(u, m, path)
  {
    assert IndexHit(t, m, path) == TrieHit(t, m, path) && IndexHit(u, m, path) == TrieHit(u, m, path);
    assert RootOf(t, m) == RootOf(u, m);
    EmptyStoresNothing("", Parts(path, 0));
  }

  lemma SameRootsServe(t: RouteTable, u: RouteTable, m: string, path: string, raw: string)
    requires TableOk(t) && TableOk(u) && SameRoots(t, u) && |raw| == |path|
    ensures ServeMethod(t, m, path, raw) == ServeMethod(u, m, path, raw)
  {
    SameRootsSameIndex(t, u, m, path);
    SameRootsSameFlags(t, u);
    assert HasParams(t, m) ==> StoresParams(t, m);
    assert HasParams(u, m) ==> StoresParams(u, m);
    assert RootOf(t, m) == RootOf(u, m);
  }

  lemma SameRootsAllow(t: RouteTable, u: RouteTable, path: string)
    requires TableOk(t) && TableOk(u) && SameRoots(t, u)
    ensures AllowedInTable(t, path) == AllowedInTable(u, path)
  {
    forall m
      ensures m in Found(t, path) <==> m in Found(u, path)
    {
      FoundIsServed(t, m, path, path);
      FoundIsServed(u, m, path, path);
      SameRootsServe(t, u, m, path, path);
    }
    assert Found(t, path) == Found(u, path);
    AllowedIsSet(t, path);
    AllowedIsSet(u, path);
  }

  lemma SameRootsServeTable(t: RouteTable, u: RouteTable, m: string, path: string, raw: string)
    requires TableOk(t) && TableOk(u) && SameRoots(t, u) && |raw| == |path|
    ensures ServeInTable(t, m, path, raw) == ServeInTable(u, m, path, raw)
  {
    SameRootsServe(t, u, m, path, raw);
    SameRootsServe(t, u, HEAD, path, raw);
    SameRootsServe(t, u, GET, path, raw);
  }

  lemma SameRootsAnswer(t: RouteTable, u: RouteTable, ctx: Context, strict: bool)
    requires TableOk(t) && TableOk(u) && SameRoots(t, u)
    ensures TryTable(t, ctx, strict) == TryTable(u, ctx, strict)
  {
    var path := ctx.MatchPath();
    SameRootsSameFlags(t, u);
    SameRootsServeTable(t, u, ctx.method_, path, ctx.paramPath);
    SameRootsAllow(t, u, path);
    AlternateFolds(ctx);
    var alt := AlternatePath(path);
    if alt.Some? {
      SameRootsServeTable(t, u, ctx.method_, alt.value, AlternatePath(ctx.paramPath).value);
      SameRootsAllow(t, u, alt.value);
    }
    SameParts(t, u, ctx, strict);
  }

  /** The answer of a table is made of these values only. */
  lemma SameParts(t: RouteTable, u: RouteTable, ctx: Context, strict: bool)
    requires t.hasTrailing == u.hasTrailing && AllowedInTable(t, ctx.MatchPath()) == AllowedInTable(u, ctx.MatchPath())
    requires ServeInTable(t, ctx.method_, ctx.MatchPath(), ctx.paramPath) ==
             ServeInTable(u, ctx.method_, ctx.MatchPath(), ctx.paramPath)
    requires AlternatePath(ctx.MatchPath()).Some? ==>
      var alt := AlternatePath(ctx.MatchPath()).value;
      && AlternatePath(ctx.paramPath).Some? && |alt| == |AlternatePath(ctx.paramPath).value|
      && AllowedInTable(t, alt) == AllowedInTable(u, alt)
      && ServeInTable(t, ctx.method_, alt, AlternatePath(ctx.paramPath).value) ==
         ServeInTable(u, ctx.method_, alt, AlternatePath(ctx.paramPath).value)
    ensures TryTable(t, ctx, strict) == TryTable(u, ctx, strict)
  {
  }

  lemma NewTableAnswersNothing(ctx: Context, strict: bool)
    ensures TryTable(NEW_TABLE, ctx, strict) == None
  {
    forall path
      ensures AllowedInTable(NEW_TABLE, path) == None
    {
      NewTableOk();
      assert StaticMethods(NEW_TABLE.statics, path) == {};
    }
    AlternateFolds(ctx);
  }

  /** Routers with the same options and the same tries answer every request alike. */
  lemma SameTriesSameDispatch(r: Router, q: Router, req: Request)
    requires RouterOk(r) && RouterOk(q) && IgnoreCaseActive(r) == IgnoreCaseActive(q)
    requires r.strictSlash == q.strictSlash && r.useRawPath == q.useRawPath
    requires forall host :: SameRoots(TableAt(r, host), TableAt(q, host))
    ensures ServeHTTP(r, req) == ServeHTTP(q, req)
  {
    var prepared := Prepare(req, r.useRawPath, IgnoreCaseActive(r));
    if prepared.Go? {
      ServeByTables(r, req);
      ServeByTables(q, req);
      TablesOk(r, req.host);
      TablesOk(q, req.host);
      assert SameRoots(TableAt(r, ""), TableAt(q, "")) && SameRoots(TableAt(r, req.host), TableAt(q, req.host));
      SameRootsAnswer(r.table, q.table, prepared.ctx, r.strictSlash);
      SameRootsAnswer(TableAt(r, req.host), TableAt(q, req.host), prepared.ctx, r.strictSlash);
    }
  }

  lemma TablesOk(r: Router, host: string)
    requires RouterOk(r)
    ensures TableOk(r.table) && TableOk(TableAt(r, host))
  {
    NewTableOk();
  }

  /** A missing host table is as good as an empty one. */
  lemma ServeByTables(r: Router, req: Request)
    requires Prepare(req, r.useRawPath, IgnoreCaseActive(r)).Go?
    ensures var ctx := Prepare(req, r.useRawPath, IgnoreCaseActive(r)).ctx;
            ServeHTTP(r, req) == Answered(FirstOutcome(
              if req.host == "" then None else TryTable(TableAt(r, req.host), ctx, r.strictSlash),
              TryTable(r.table, ctx, r.strictSlash)))
  {
    NewTableAnswersNothing(Prepare(req, r.useRawPath, IgnoreCaseActive(r)).ctx, r.strictSlash);
  }

  /**
   The order of registration does not matter: a permutation of an accepted run is accepted too, and
   the two routers answer every request alike.
   */
  lemma RunOrderIrrelevant(ignoreCase: bool, strictSlash: bool, useRawPath: bool, x: seq<Attempt>, y: seq<Attempt>,
                           req: Request)
    requires multiset(x) == multiset(y) && AllPerformed(NewRouter(ignoreCase, strictSlash, useRawPath), x)
    ensures AllPerformed(NewRouter(ignoreCase, strictSlash, useRawPath), y)
    ensures ServeHTTP(HandleAll(NewRouter(ignoreCase, strictSlash, useRawPath), x), req)
         == ServeHTTP(HandleAll(NewRouter(ignoreCase, strictSlash, useRawPath), y), req)
  {
    var r0 := NewRouter(ignoreCase, strictSlash, useRawPath);
    AllPerformedExactly(ignoreCase, strictSlash, useRawPath, x);
    AllPerformedExactly(ignoreCase, strictSlash, useRawPath, y);
    forall host, m
      ensures Accepted(RoutesFor(y, host, m, ignoreCase)) == RoutesFor(y, host, m, ignoreCase)
      ensures RootOf(TableAt(HandleAll(r0, x), host), m) == RootOf(TableAt(HandleAll(r0, y), host), m)
    {
      RoutesForPermuted(x, y, host, m, ignoreCase);
      RoutesForValid(x, host, m, ignoreCase);
      OrderIrrelevant(RoutesFor(x, host, m, ignoreCase), RoutesFor(y, host, m, ignoreCase));
      RunBuilds(ignoreCase, strictSlash, useRawPath, x, host, m);
      RunBuilds(ignoreCase, strictSlash, useRawPath, y, host, m);
    }
    SameArguments(x, y);
    RunBuilds(ignoreCase, strictSlash, useRawPath, x, "", GET);
    RunBuilds(ignoreCase, strictSlash, useRawPath, y, "", GET);
    ReachableRouterOk(ignoreCase, strictSlash, useRawPath, x);
    ReachableRouterOk(ignoreCase, strictSlash, useRawPath, y);
    SameTriesSameDispatch(HandleAll(r0, x), HandleAll(r0, y), req);
  }

  lemma SameArguments(x: seq<Attempt>, y: seq<Attempt>)
    requires multiset(x) == multiset(y) && ArgumentsOk(x)
    ensures ArgumentsOk(y)
  {
    forall a <- y
      ensures a in x
    {
      assert a in multiset(y);
    }
  }

  // ---------------------------------------------------------------- routes for GET on the default table

  /** Only GET has routes. */
  ghost predicate GetOnly(t: RouteTable, routes: seq<Route>) {
    TableOk(t) && AllValid(routes) && forall m :: RootOf(t, m) == if m == GET then Build(routes) else EMPTY_ROOT
  }

  /** An attempt that passes to GET on the default table, with its route. */
  ghost predicate PassAs(a: Attempt, route: Route) {
    PassesTo(a, "", GET) && RouteFor(a.pattern, a.handler.value, false) == route
  }

  lemma GetOnlyAfter(strictSlash: bool, useRawPath: bool, attempts: seq<Attempt>, routes: seq<Route>)
    requires forall m :: RoutesFor(attempts, "", m, false) == if m == GET then routes else []
    ensures var r := HandleAll(NewRouter(false, strictSlash, useRawPath), attempts);
            RouterOk(r) && Configured(r, false, strictSlash, useRawPath) && GetOnly(r.table, routes)
  {
    var r := HandleAll(NewRouter(false, strictSlash, useRawPath), attempts);
    ReachableRouterOk(false, strictSlash, useRawPath, attempts);
    RoutesForValid(attempts, "", GET, false);
    RunBuilds(false, strictSlash, useRawPath, attempts, "", GET);
    forall m
      ensures RootOf(r.table, m) == if m == GET then Build(routes) else EMPTY_ROOT
    {
      RunBuilds(false, strictSlash, useRawPath, attempts, "", m);
    }
  }

  lemma OneAttempt(a: Attempt, x: Route)
    requires PassAs(a, x)
    ensures forall m :: RoutesFor([a], "", m, false) == if m == GET then [x] else []
  {
    assert [a][..0] == [];
  }

  lemma TwoAttempts(a: Attempt, b: Attempt, x: Route, y: Route)
    requires PassAs(a, x) && PassAs(b, y)
    ensures forall m :: RoutesFor([a, b], "", m, false) == if m == GET then [x, y] else []
  {
    OneAttempt(a, x);
    assert [a, b] == [a] + [b] && [x, y] == [x] + [y];
    forall m
      ensures RoutesFor([a, b], "", m, false) == if m == GET then [x, y] else []
    {
      RoutesForSnoc([a], b, "", m, false);
    }
  }

  /** Registrations on the default table make no host tables. */
  lemma {:induction false} NoHostTables(r: Router, attempts: seq<Attempt>)
    requires r.hosts == map[] && forall a <- attempts :: a.host == ""
    ensures HandleAll(r, attempts).hosts == map[]
    decreases |attempts|
  {
    if attempts != [] {
      assert attempts[0].host == "";
      NoHostTables(Perform(r, attempts[0]).router, attempts[1..]);
    }
  }

  // ---------------------------------------------------------------- a 405 never lists the method

  lemma ValidIsToken(m: string)
    requires IsValidMethod(m)
    ensures IsToken(m)
  {
    assert forall c <- m :: c != ' ';
  }

  lemma {:induction false} NoRoutesForBadMethod(attempts: seq<Attempt>, host: string, m: string, fold: bool)
    requires !IsValidMethod(m)
    ensures RoutesFor(attempts, host, m, fold) == []
    decreases |attempts|
  {
    if attempts != [] {
      NoRoutesForBadMethod(attempts[..|attempts| - 1], host, m, fold);
    }
  }

  /** An empty trie serves nothing. */
  lemma EmptyRootServesNothing(t: RouteTable, m: string, path: string)
    requires TableOk(t) && RootOf(t, m) == EMPTY_ROOT
    ensures ServeMethod(t, m, path, path).None?
  {
    assert IndexHit(t, m, path) == TrieHit(t, m, path);
    EmptyStoresNothing("", Parts(path, 0));
    forall p
      ensures Lookup(EMPTY_ROOT, p).None?
    {
      EmptyStoresNothing("", p);
    }
    StoresByRoot(t, m);
    assert HasParams(t, m) <==> StoresParams(t, m);
  }

  /** After any run, everything a table allows is a method name without spaces. */
  lemma AllowedAreTokens(ignoreCase: bool, strictSlash: bool, useRawPath: bool, attempts: seq<Attempt>, host: string,
                         path: string)
    ensures var r := HandleAll(NewRouter(ignoreCase, strictSlash, useRawPath), attempts);
            forall m <- AllowedSet(TableAt(r, host), path) :: IsToken(m)
  {
    var r := HandleAll(NewRouter(ignoreCase, strictSlash, useRawPath), attempts);
    var t := TableAt(r, host);
    ReachableRouterOk(ignoreCase, strictSlash, useRawPath, attempts);
    TablesOk(r, host);
    forall m
      ensures RootOf(t, m) == Build(RoutesFor(attempts, host, m, ignoreCase))
    {
      RunBuilds(ignoreCase, strictSlash, useRawPath, attempts, host, m);
    }
    FoundAreTokens(t, attempts, host, ignoreCase, path);
  }

  lemma FoundAreTokens(t: RouteTable, attempts: seq<Attempt>, host: string, fold: bool, path: string)
    requires TableOk(t) && forall m :: RootOf(t, m) == Build(RoutesFor(attempts, host, m, fold))
    ensures forall m <- AllowedSet(t, path) :: IsToken(m)
  {
    forall m <- Found(t, path)
      ensures IsToken(m)
    {
      FoundIsToken(t, attempts, host, m, fold, path);
    }
  }

  lemma FoundIsToken(t: RouteTable, attempts: seq<Attempt>, host: string, m: string, fold: bool, path: string)
    requires TableOk(t) && RootOf(t, m) == Build(RoutesFor(attempts, host, m, fold)) && m in Found(t, path)
    ensures IsToken(m)
  {
    FoundIsServed(t, m, path, path);
    if IsValidMethod(m) {
      ValidIsToken(m);
    } else {
      NoRoutesForBadMethod(attempts, host, m, fold);
      EmptyRootServesNothing(t, m, path);
    }
  }

  ghost predicate Tokens(ms: set<string>) {
    forall m <- ms :: IsToken(m)
  }

  /** The header is that of one set of methods only. */
  ghost predicate ReadsOnlyAs(allow: string, own: set<string>) {
    Tokens(own) && forall ms | Tokens(ms) :: AllowHeader(ms) == allow <==> ms == own
  }

  /**
   A refusal of any router that registrations can build: status 200 for OPTIONS, 405 for every other
   method. Its Allow header reads only as the set of methods allowed at the path asked for (or its other
   slash form, without strict slashes) on the host's table or the default one, and that set holds OPTIONS
   and, for a 405, not the request's own method.
   */
  lemma RefusalNeverListsOwnMethod(ignoreCase: bool, strictSlash: bool, useRawPath: bool,
                                   attempts: seq<Attempt>, req: Request)
    ensures var r := HandleAll(NewRouter(ignoreCase, strictSlash, useRawPath), attempts);
            var prepared := Prepare(req, useRawPath, ignoreCase);
            Refused(ServeHTTP(r, req)) ==>
              && prepared.Go? && (ServeHTTP(r, req).OptionsAnswered? <==> req.method_ == OPTIONS)
              && exists host, path ::
                   && host in {"", req.host} && AskedAt(prepared.ctx, strictSlash, path)
                   && ReadsOnlyAs(ServeHTTP(r, req).allow, AllowedSet(TableAt(r, host), path))
                   && (req.method_ != OPTIONS ==> req.method_ !in AllowedSet(TableAt(r, host), path))
                   && OPTIONS in AllowedSet(TableAt(r, host), path)
  {
    var r := HandleAll(NewRouter(ignoreCase, strictSlash, useRawPath), attempts);
    ReachableRouterOk(ignoreCase, strictSlash, useRawPath, attempts);
    RunBuilds(ignoreCase, strictSlash, useRawPath, attempts, "", GET);
    NotAllowedNeverListsOwnMethod(r, req);
    if Refused(ServeHTTP(r, req)) {
      var allow, ctx := ServeHTTP(r, req).allow, Prepare(req, useRawPath, ignoreCase).ctx;
      var host, path :| && host in {"", req.host} && AskedAt(ctx, strictSlash, path)
                        && RefusesAt(TableAt(r, host), path, req.method_, allow);
      AllowedAreTokens(ignoreCase, strictSlash, useRawPath, attempts, host, path);
      HeaderReadsAs(allow, AllowedSet(TableAt(r, host), path));
    }
  }

  lemma HeaderReadsAs(allow: string, own: set<string>)
    requires Tokens(own) && allow == AllowHeader(own)
    ensures ReadsOnlyAs(allow, own)
  {
    forall ms | Tokens(ms)
      ensures AllowHeader(ms) == allow <==> ms == own
    {
      if AllowHeader(ms) == allow {
        HeaderNamesOneSet(ms, own);
      }
    }
  }
}

/**
 Exactly which raw paths freezing may change the outcome for: those with a gap wider than one slash
 that some registrable pattern fits across, and no others.
 */
module FrozenDispatchGaps {
  import opened Base
  import opened Segments
  import opened Paths
  import opened Trie
  import opened Routes
  import opened Search
  import opened BestRoute
  import opened Frozen
  import opened GapCosts
  import opened FrozenGaps
  import opened Allow
  import opened Table
  import opened Serve
  import opened Dispatch
  import opened FrozenDispatch
  import opened Registration
  import opened RouterRuns

  /** The router that a run of registrations builds when raw paths are used. */
  ghost function RawRouter(ignoreCase: bool, strictSlash: bool, attempts: seq<Attempt>): Router {
    HandleAll(NewRouter(ignoreCase, strictSlash, true), attempts)
  }

  ghost predicate OutcomeKept(r: Router, req: Request) {
    FrozenServeHTTP(Freeze(r), req) == ServeHTTP(r, req)
  }

  /** Freezing preserves the outcome of this request for every router that a program can build. */
  ghost predicate OutcomeAlwaysKept(req: Request) {
    forall ignoreCase, strictSlash, attempts :: OutcomeKept(RawRouter(ignoreCase, strictSlash, attempts), req)
  }

  // ---------------------------------------------------------------- the routes of the witness router

  /** A valid route under its own canonical pattern is registrable. */
  lemma BuiltRegistrable(r: Route)
    requires ValidRoute(r) && DotFree(r.parts) && r.pattern == Built(r.parts, false) && |r.pattern| <= MAX_PATH_LENGTH
    ensures Registrable(r)
  {
    forall p <- r.parts
      ensures SlashFree(p) && Sanitary(p)
    {
      assert ValidPart(p);
      assert forall i | 0 <= i < |p| :: p[i] in p;
    }
    BuiltParts(r.parts, false);
    BuiltIsCanonical(r.parts, false);
    JoinHasNoControl(r.parts);
    BuiltHasNoControl(r.parts, false);
  }

  function AttemptFor(r: Route): Attempt {
    Attempt("", GET, r.pattern, Some(r.handler))
  }

  /** A registrable route passes the checks of Handle as it is. */
  lemma RegistrablePasses(r: Route)
    requires Registrable(r)
    ensures PassAs(AttemptFor(r), r)
  {
    assert ValidNames(r.parts);
  }

  /** One segment, any name. */
  const HELPER: Route := Route([":A"], "/:A", Handler(1))

  const HELPER_NODE: Node := Node("/:A", ":A", map[], None, None, Some(Handler(1)), true)

  lemma HelperRegistrable()
    ensures Registrable(HELPER)
  {
    assert Built([":A"], false) == "/:A";
    BuiltRegistrable(HELPER);
  }

  /** The route across the gap; if it is static, one with a parameter too, so that GET is searched at all. */
  function WitnessRoutes(parts: seq<string>, k: nat): seq<Route>
    requires k + 1 < |parts| <= MAX_DEPTH
  {
    if AnyDynamic(WitnessParts(parts, k)) then [Witness(parts, k)] else [Witness(parts, k), HELPER]
  }

  function WitnessAttempts(parts: seq<string>, k: nat): seq<Attempt>
    requires k + 1 < |parts| <= MAX_DEPTH
  {
    var w := AttemptFor(Witness(parts, k));
    if AnyDynamic(WitnessParts(parts, k)) then [w] else [w, AttemptFor(HELPER)]
  }

  lemma WitnessRegistrable(segs: PathSegments, k: nat)
    requires Searchable(segs) && WideAt(segs, k) && Shortest(segs.parts, k) <= MAX_PATH_LENGTH
    ensures LiteralPair(segs.parts, k) && Registrable(Witness(segs.parts, k))
  {
    WideIsPair(segs, k);
    WitnessValid(segs.parts, k);
    WitnessLength(segs.parts, k);
    BuiltRegistrable(Witness(segs.parts, k));
  }

  /** The routes are the ones the attempts ask for. */
  lemma WitnessRun(parts: seq<string>, k: nat)
    requires k + 1 < |parts| <= MAX_DEPTH && Registrable(Witness(parts, k))
    ensures forall m ::
              RoutesFor(WitnessAttempts(parts, k), "", m, false) == if m == GET then WitnessRoutes(parts, k) else []
  {
    var w := Witness(parts, k);
    RegistrablePasses(w);
    if AnyDynamic(w.parts) {
      OneAttempt(AttemptFor(w), w);
    } else {
      HelperRegistrable();
      RegistrablePasses(HELPER);
      TwoAttempts(AttemptFor(w), AttemptFor(HELPER), w, HELPER);
    }
  }

  /** What registering them builds, in the tables of the router. */
  lemma WitnessRouter(parts: seq<string>, k: nat, strictSlash: bool)
    requires k + 1 < |parts| <= MAX_DEPTH && Registrable(Witness(parts, k))
    ensures var r := RawRouter(false, strictSlash, WitnessAttempts(parts, k));
            && RouterOk(r) && Configured(r, false, strictSlash, true) && r.hosts == map[]
            && GetOnly(r.table, WitnessRoutes(parts, k))
  {
    var attempts := WitnessAttempts(parts, k);
    WitnessRun(parts, k);
    GetOnlyAfter(strictSlash, true, attempts, WitnessRoutes(parts, k));
    NoHostTables(NewRouter(false, strictSlash, true), attempts);
  }

  // ---------------------------------------------------------------- their trie

  /** The helper becomes the parameter child of the root. */
  lemma HelperBuilds(w: Route)
    requires ValidRoute(w) && w.parts != [] && !AnyDynamic(w.parts)
    ensures Build([w, HELPER]) == Tower("", w.parts, RouteLeaf(w)).(param := Some(HELPER_NODE))
  {
    OneRoute(w);
    BuildSnoc([w], HELPER);
    assert [w, HELPER] == [w] + [HELPER];
    var t := Tower("", w.parts, RouteLeaf(w));
    assert !IsDynamic(w.parts[0]) && ValidPart(w.parts[0]);
    TowerShape("", w.parts, RouteLeaf(w));
    HelperInserted(t);
  }

  lemma HelperInserted(t: Node)
    requires t.param.None? && t.wild.None?
    ensures Register(t, HELPER).node == t.(param := Some(HELPER_NODE))
  {
    assert AnyDynamic(HELPER.parts) by {
      assert IsDynamic(HELPER.parts[0]);
    }
    assert Insert(EmptyNode(":A"), "/:A", [":A"], 1, Some(Handler(1)), true).node == HELPER_NODE;
  }

  lemma HelperAccepted(w: Route)
    requires ValidRoute(w) && w.parts != [] && !AnyDynamic(w.parts)
    ensures w in Accepted([w, HELPER]) && HELPER in Accepted([w, HELPER])
  {
    OneRoute(w);
    BuildSnoc([w], HELPER);
    assert [w, HELPER] == [w] + [HELPER];
    assert !IsDynamic(w.parts[0]) && ValidPart(w.parts[0]);
    assert !Conflict(HELPER.parts, w.parts);
  }

  /** The helper is no help at a path of two segments or more. */
  lemma HelperMisses(segs: PathSegments, h: nat)
    requires Segmented(segs) && h < |segs.parts|
    ensures FrozenFind(FreezeChild(HELPER_NODE), segs, h) == None
  {
    BodyMisses(HELPER_NODE, "", 0, ":A", segs, h);
    ParamMisses(HELPER_NODE, segs, h);
  }

  lemma WithHelperMisses(w: Route, segs: PathSegments, k: nat)
    requires Searchable(segs) && ValidRoute(w) && Straddles(w.parts, segs, 0, k) && !AnyDynamic(w.parts)
    ensures FrozenFind(FreezeRoot(Build([w, HELPER])), segs, 0) == None
  {
    var t, leaf := Tower("", w.parts, RouteLeaf(w)), RouteLeaf(w);
    HelperBuilds(w);
    assert !IsDynamic(w.parts[0]) && ValidPart(w.parts[0]);
    TowerShape("", w.parts, leaf);
    ChainMisses(w.parts, leaf, segs, 0, k);
    HelperMisses(segs, 1);
    RootMisses(t.(param := Some(HELPER_NODE)), segs);
  }

  lemma RootMisses(root: Node, segs: PathSegments)
    requires Segmented(segs) && 0 < |segs.parts| && root.wild.None?
    requires segs.parts[0] in root.statics ==> FrozenFind(FreezeChain(root.statics[segs.parts[0]]), segs, 0) == None
    requires root.param.Some? ==> FrozenFind(FreezeChild(root.param.value), segs, 1) == None
    ensures FrozenFind(FreezeRoot(root), segs, 0) == None
  {
    BodyMisses(root, "", 0, "", segs, 0);
    FrozenRootIsBody(root, segs);
  }

  /** The frozen form of the trie misses the path. */
  lemma WitnessMissed(segs: PathSegments, k: nat)
    requires Searchable(segs) && WideAt(segs, k)
    ensures LiteralPair(segs.parts, k) && FrozenFind(FreezeRoot(Build(WitnessRoutes(segs.parts, k))), segs, 0) == None
  {
    GapBreaksParity(segs, k);
    if !AnyDynamic(WitnessParts(segs.parts, k)) {
      WitnessValid(segs.parts, k);
      WithHelperMisses(Witness(segs.parts, k), segs, k);
    }
  }

  /** The trie itself finds it. */
  lemma WitnessFound(segs: PathSegments, k: nat)
    requires Searchable(segs) && LiteralPair(segs.parts, k) && AllValid(WitnessRoutes(segs.parts, k))
    ensures Find(Build(WitnessRoutes(segs.parts, k)), segs, 0).Some?
  {
    var w, routes := Witness(segs.parts, k), WitnessRoutes(segs.parts, k);
    assert w in routes;
    WitnessMatches(segs.parts, k);
    OneRoute(w);
    if !AnyDynamic(w.parts) {
      HelperAccepted(w);
    }
    SearchAnswersBestRoute(routes, segs);
  }

  /** One of the routes has a parameter. */
  lemma WitnessSearched(t: RouteTable, parts: seq<string>, k: nat)
    requires k + 1 < |parts| <= MAX_DEPTH && GetOnly(t, WitnessRoutes(parts, k))
    ensures HasParams(t, GET) && GET in t.roots && forall m | m != GET :: !HasParams(t, m)
  {
    var w, routes := Witness(parts, k), WitnessRoutes(parts, k);
    assert w in routes;
    OneRoute(w);
    var r := if AnyDynamic(w.parts) then w else HELPER;
    if !AnyDynamic(w.parts) {
      HelperAccepted(w);
      assert IsDynamic(HELPER.parts[0]);
    }
    BuildStoresAccepted(routes);
    assert r in Accepted(routes) && Lookup(RootOf(t, GET), r.parts).Some?;
    forall m
      ensures HasParams(t, m) <==> m == GET
    {
      StoresByRoot(t, m);
      assert m != GET ==> RootOf(t, m) == EMPTY_ROOT;
      EmptyHasNoParams();
    }
  }

  lemma EmptyHasNoParams()
    ensures !RootParams(EMPTY_ROOT)
  {
    forall p
      ensures Lookup(EMPTY_ROOT, p).None?
    {
      EmptyStoresNothing("", p);
    }
  }

  // ---------------------------------------------------------------- it answers before freezing only

  /** A table that allows some method at the path has an answer for every request. */
  lemma AllowingAnswers(t: RouteTable, ctx: Context, strict: bool)
    requires AllowedInTable(t, ctx.MatchPath()).Some?
    ensures TryTable(t, ctx, strict).Some? && TryTable(t, ctx, strict).value != NotFound
  {
    assert NotAllowed(t, ctx, strict).Some? && NotAllowed(t, ctx, strict).value != NotFound;
    assert AlternateSlash(t, ctx, strict) != Some(NotFound);
  }

  /** Whatever the method of the request, some method is allowed, so the answer is not a 404. */
  lemma WitnessAnswers(t: RouteTable, ctx: Context, strict: bool)
    requires TableOk(t) && !ctx.folded && HasParams(t, GET) && GET in t.roots && !Unsearchable(ctx.paramPath)
    requires TrieMatches(t.roots[GET], ctx.paramPath)
    ensures TryTable(t, ctx, strict).Some? && TryTable(t, ctx, strict).value != NotFound
  {
    var path := ctx.paramPath;
    TrieServes(t, GET, path);
    AllowAgreesWithServing(t, path, path, GET);
    AllowedIsSet(t, path);
    AllowingAnswers(t, ctx, strict);
  }

  /** The static index holds canonical paths only, so it cannot hold one with a wide gap. */
  lemma WideNotIndexed(t: RouteTable, path: string, k: nat)
    requires TableOk(t) && Segmented(Segment(path, path)) && WideAt(Segment(path, path), k)
    ensures StaticMethods(t.statics, path) == {} && forall m :: IndexHit(t, m, path).None?
  {
    forall m
      ensures IndexHit(t, m, path).None?
    {
      if IndexHit(t, m, path).Some? {
        assert IndexHit(t, m, path) == TrieHit(t, m, path);
        assert LeafOk(Parts(path, 0), Lookup(t.roots[m], Parts(path, 0)).value);
        CleanHasSingleGaps(path);
      }
    }
    assert forall m :: m in StaticMethods(t.statics, path) ==> IndexHit(t, m, path).Some?;
  }

  /** A frozen table whose only trie misses a path neither serves nor allows anything there. */
  lemma FrozenSilent(t: RouteTable, path: string, m: string)
    requires t.anyParams && (forall m' | m' != GET :: !HasParams(t, m')) && GET in t.roots
    requires StaticMethods(t.statics, path) == {} && forall m' :: IndexHit(t, m', path).None?
    requires !FrozenMatches(FreezeRoot(t.roots[GET]), path)
    ensures FrozenServeInTable(FreezeTable(t), m, path, path).None?
    ensures FrozenAllowed(FreezeTable(t), path).None?
  {
    var f := FreezeTable(t);
    SegmentedPath(path, path);
    forall m'
      ensures FrozenServeMethod(f, m', path, path).None?
      ensures m' !in FrozenFound(f, path)
    {
      assert m' == GET || !HasParams(t, m');
      assert IndexHit(t, m', path).None?;
    }
    assert FrozenFound(f, path) == {};
  }

  /** The path can be split, and its gap after segment `k` is wide. */
  ghost predicate WideIn(path: string, k: nat) {
    SegmentedPath(path, path);
    !Unsearchable(path) && WideAt(Segment(path, path), k)
  }

  lemma FormHasNoControl(path: string, form: string)
    requires !HasControl(path) && AlternatePath(path) == Some(form)
    ensures !HasControl(form)
  {
  }

  lemma SameGapsSameWide(a: PathSegments, b: PathSegments, k: nat)
    requires Segmented(a) && Segmented(b) && a.parts == b.parts && a.indices[..|a.parts|] == b.indices[..|b.parts|]
    requires WideAt(a, k)
    ensures WideAt(b, k)
  {
    assert a.indices[..|a.parts|][k] == b.indices[..|b.parts|][k];
    assert a.indices[..|a.parts|][k + 1] == b.indices[..|b.parts|][k + 1];
  }

  /** The other slash form has the same segments and the same gaps. */
  lemma AlternateKeepsWide(path: string, form: string, k: nat)
    requires WideIn(path, k) && AlternatePath(path) == Some(form)
    ensures WideIn(form, k) && Parts(form, 0) == Parts(path, 0)
  {
    AlternateKeepsSegments(path, form);
    FormHasNoControl(path, form);
    SegmentedPath(path, path);
    SegmentedPath(form, form);
    SameGapsSameWide(Segment(path, path), Segment(form, form), k);
  }

  /** What the frozen table does at such a path. */
  lemma WitnessTrie(t: RouteTable, path: string, k: nat)
    requires WideIn(path, k) && GetOnly(t, WitnessRoutes(Parts(path, 0), k))
    ensures TableOk(t) && t.anyParams && GET in t.roots && forall m | m != GET :: !HasParams(t, m)
    ensures !FrozenMatches(FreezeRoot(t.roots[GET]), path)
  {
    WitnessSearched(t, Parts(path, 0), k);
    FrozenMissesPath(path, k);
    assert RootOf(t, GET) == t.roots[GET];
  }

  lemma WitnessSilent(t: RouteTable, path: string, k: nat, m: string)
    requires WideIn(path, k) && GetOnly(t, WitnessRoutes(Parts(path, 0), k))
    ensures FrozenServeInTable(FreezeTable(t), m, path, path).None? && FrozenAllowed(FreezeTable(t), path).None?
  {
    WitnessTrie(t, path, k);
    SegmentedPath(path, path);
    WideNotIndexed(t, path, k);
    FrozenSilent(t, path, m);
  }

  lemma FrozenMissesPath(path: string, k: nat)
    requires WideIn(path, k)
    ensures !FrozenMatches(FreezeRoot(Build(WitnessRoutes(Parts(path, 0), k))), path)
  {
    SegmentedPath(path, path);
    WitnessMissed(Segment(path, path), k);
  }

  lemma FrozenAnswersNothing(t: RouteTable, path: string, k: nat, m: string, strict: bool)
    requires WideIn(path, k) && GetOnly(t, WitnessRoutes(Parts(path, 0), k))
    ensures FrozenTryTable(FreezeTable(t), Context(m, path, true, false), strict).None?
  {
    WitnessSilent(t, path, k, m);
    if AlternatePath(path).Some? {
      AlternateKeepsWide(path, AlternatePath(path).value, k);
      WitnessSilent(t, AlternatePath(path).value, k, m);
    }
  }

  /** A request routed by its raw path, which can be split. */
  ghost predicate RoutedRaw(req: Request) {
    && req.rawPath != "" && req.rawPath == req.escapedPath && !Unsearchable(req.rawPath)
    && |req.path| <= MAX_PATH_LENGTH && |req.rawPath| <= MAX_PATH_LENGTH
  }

  /** Before freezing, the witness answers at that path. */
  lemma WitnessTableAnswers(t: RouteTable, path: string, k: nat, m: string, strict: bool)
    requires WideIn(path, k) && GetOnly(t, WitnessRoutes(Parts(path, 0), k))
    ensures TryTable(t, Context(m, path, true, false), strict).Some?
    ensures TryTable(t, Context(m, path, true, false), strict).value != NotFound
  {
    SegmentedPath(path, path);
    var segs := Segment(path, path);
    WideIsPair(segs, k);
    WitnessFound(segs, k);
    WitnessSearched(t, segs.parts, k);
    assert RootOf(t, GET) == Build(WitnessRoutes(segs.parts, k));
    WitnessAnswers(t, Context(m, path, true, false), strict);
  }

  /** A program builds a router that answers the request before freezing, and not afterwards. */
  lemma WitnessOutcomeChanges(req: Request, k: nat, strictSlash: bool)
    requires RoutedRaw(req) && WideIn(req.rawPath, k) && Shortest(Parts(req.rawPath, 0), k) <= MAX_PATH_LENGTH
    ensures var r := RawRouter(false, strictSlash, WitnessAttempts(Parts(req.rawPath, 0), k));
            ServeHTTP(r, req) != NotFound && FrozenServeHTTP(Freeze(r), req) == NotFound
  {
    var path := req.rawPath;
    var r := RawRouter(false, strictSlash, WitnessAttempts(Parts(path, 0), k));
    WitnessBuilt(path, k, strictSlash);
    WitnessTableAnswers(r.table, path, k, req.method_, strictSlash);
    FrozenAnswersNothing(r.table, path, k, req.method_, strictSlash);
    BothPrepared(r, req, strictSlash);
  }

  lemma WitnessBuilt(path: string, k: nat, strictSlash: bool)
    requires WideIn(path, k) && Shortest(Parts(path, 0), k) <= MAX_PATH_LENGTH
    ensures var r := RawRouter(false, strictSlash, WitnessAttempts(Parts(path, 0), k));
            && Configured(r, false, strictSlash, true) && r.hosts == map[]
            && GetOnly(r.table, WitnessRoutes(Parts(path, 0), k))
  {
    SegmentedPath(path, path);
    WitnessRegistrable(Segment(path, path), k);
    WitnessRouter(Parts(path, 0), k, strictSlash);
  }

  lemma BothPrepared(r: Router, req: Request, strictSlash: bool)
    requires RoutedRaw(req) && Configured(r, false, strictSlash, true) && r.hosts == map[]
    ensures var ctx := Context(req.method_, req.rawPath, true, false);
            && ServeHTTP(r, req) == Answered(TryTable(r.table, ctx, strictSlash))
            && FrozenServeHTTP(Freeze(r), req) == Answered(FrozenTryTable(FreezeTable(r.table), ctx, strictSlash))
  {
  }

  // ---------------------------------------------------------------- the exact condition

  lemma KeptWhenNoneFits(req: Request)
    requires PathOk(req.rawPath)
    ensures OutcomeAlwaysKept(req)
  {
    forall ignoreCase, strictSlash, attempts
      ensures OutcomeKept(RawRouter(ignoreCase, strictSlash, attempts), req)
    {
      ReachableRouterOk(ignoreCase, strictSlash, true, attempts);
      FreezeKeepsOutcome(RawRouter(ignoreCase, strictSlash, attempts), req);
    }
  }

  /**
   For every request routed by its raw path: freezing preserves the outcome on every router that a
   program can build if and only if no pattern short enough to be registered fits across a gap wider
   than one slash.
   */
  lemma OutcomeKeptExactlyWhenNoneFits(req: Request)
    requires RoutedRaw(req)
    ensures OutcomeAlwaysKept(req) <==> PathOk(req.rawPath)
  {
    var path := req.rawPath;
    SegmentedPath(path, path);
    if PathOk(path) {
      KeptWhenNoneFits(req);
    } else {
      var k: nat :| WideAt(Segment(path, path), k) && Shortest(Parts(path, 0), k) <= MAX_PATH_LENGTH;
      assert WideIn(path, k);
      WitnessOutcomeChanges(req, k, true);
      assert !OutcomeKept(RawRouter(false, true, WitnessAttempts(Parts(path, 0), k)), req);
    }
  }

  // ---------------------------------------------------------------- a request that arrives so

  lemma EncodedSlashSegments()
    ensures Parts("/a//b%2Fc", 0) == ["a", "b%2Fc"] && Starts("/a//b%2Fc", 0) == [1, 4]
  {
    var s := "/a//b%2Fc";
    HeadRun(s, 4, "b%2Fc", "");
    assert Parts(s, 3) == ["b%2Fc"] && Starts(s, 3) == [4];
    HeadRun(s, 1, "a", "//b%2Fc");
    assert Parts(s, 0) == Parts(s, 1) && Starts(s, 0) == Starts(s, 1);
  }

  /** Its gap is wide, and the cheapest pattern across it is short. */
  lemma EncodedSlashWide()
    ensures WideIn("/a//b%2Fc", 0)
  {
    var s := "/a//b%2Fc";
    EncodedSlashSegments();
    SegmentedPath(s, s);
    WideFrom(Segment(s, s));
  }

  lemma WideFrom(segs: PathSegments)
    requires Segmented(segs) && segs.parts == ["a", "b%2Fc"] && segs.indices[0] == 1 && segs.indices[1] == 4
    ensures WideAt(segs, 0)
  {
  }

  lemma EncodedSlashCost()
    ensures Shortest(["a", "b%2Fc"], 0) == 8
  {
  }

  lemma EncodedSlashAttempts()
    ensures WitnessAttempts(["a", "b%2Fc"], 0) ==
            [Attempt("", GET, "/a/b%2Fc", Some(Handler(0))), Attempt("", GET, "/:A", Some(Handler(1)))]
  {
    var parts := ["a", "b%2Fc"];
    assert WitnessParts(parts, 0) == parts;
    assert Join(parts) == "a" + "/" + "b%2Fc" == "a/b%2Fc" by {
      assert parts[1..] == ["b%2Fc"];
    }
    assert Built(parts, false) == "/" + "a/b%2Fc" + "" == "/a/b%2Fc";
    assert !IsDynamic(parts[0]) && !IsDynamic(parts[1]);
  }

  /**
   Where the default encoding of the path differs from what came over the wire, the raw path is kept:
   "/a//b%2Fc" is such a request for "/a//b/c". With GET "/a/b%2Fc" and GET "/:A" it is answered, and
   with the same router frozen it is not found.
   */
  lemma EncodedSlashExample(m: string, host: string, strictSlash: bool)
    ensures var req := Request(m, host, "/a//b/c", "/a//b%2Fc", "/a//b%2Fc");
            var attempts := [Attempt("", GET, "/a/b%2Fc", Some(Handler(0))), Attempt("", GET, "/:A", Some(Handler(1)))];
            var r := RawRouter(false, strictSlash, attempts);
            ServeHTTP(r, req) != NotFound && FrozenServeHTTP(Freeze(r), req) == NotFound
  {
    EncodedSlashSegments();
    EncodedSlashWide();
    EncodedSlashCost();
    EncodedSlashAttempts();
    WitnessOutcomeChanges(Request(m, host, "/a//b/c", "/a//b%2Fc", "/a//b%2Fc"), 0, strictSlash);
  }
}

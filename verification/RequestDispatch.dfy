/**
 The dispatch meets the request specification: HEAD and the Allow set of one host, its answer as a
 whole, the preparation of the request, and ServeHTTP of every router that a program can build.
 */
module RequestDispatch {
  import opened Base
  import opened Paths
  import opened Trie
  import opened Routes
  import opened Allow
  import opened Table
  import opened Serve
  import opened Dispatch
  import opened Registration
  import opened RouterRuns
  import opened RouterServing
  import opened OptionRuns
  import opened FrozenDispatch
  import opened RequestSpec
  import opened RequestText
  import opened RequestRoutes
  import opened RequestAllow
  import opened RequestAnswers

  // ---------------------------------------------------------------- one host

  /** The table of a host of the router after the run. */
  ghost function TableAfter(options: Options, attempts: seq<Attempt>, host: string): RouteTable {
    TableAt(RouterAfter(options, attempts), host)
  }

  lemma TableAfterOk(options: Options, attempts: seq<Attempt>, host: string)
    ensures TableOk(TableAfter(options, attempts, host))
  {
    ReachableRouterOk(options.ignoreCase, options.strictSlash, options.useRawPath, attempts);
    TablesOk(RouterAfter(options, attempts), host);
  }

  /** A table that serves what the calls of a site determine. */
  ghost predicate Serves(t: RouteTable, site: Site) {
    && TableOk(t)
    && (forall m, path, answer ::
          ServeMethod(t, m, Key(path, site.fold), path) == answer <==>
          AnswersFrom(Calls(site, m), path, site.fold, answer))
    && (t.hasTrailing <==> exists m, a :: a in Calls(site, m) && |a.pattern| > 1 && EndsInSlash(a.pattern))
  }

  lemma TrailingExactly(options: Options, attempts: seq<Attempt>, host: string)
    ensures var site := SiteOf(options, attempts, host);
            TableAfter(options, attempts, host).hasTrailing <==>
            exists m, a :: a in Calls(site, m) && |a.pattern| > 1 && EndsInSlash(a.pattern)
  {
    var site, t := SiteOf(options, attempts, host), TableAfter(options, attempts, host);
    TableAfterOk(options, attempts, host);
    if m, a :| a in Calls(site, m) && |a.pattern| > 1 && EndsInSlash(a.pattern) {
      TrailingCall(options, attempts, host, m, a);
    }
    if t.hasTrailing {
      var m :| StoresTrailing(t, m);
      var a := TrailingStoredBy(options, attempts, host, m);
    }
  }

  lemma TrailingCall(options: Options, attempts: seq<Attempt>, host: string, m: string, a: Attempt)
    requires a in Calls(SiteOf(options, attempts, host), m) && |a.pattern| > 1 && EndsInSlash(a.pattern)
    ensures StoresTrailing(TableAfter(options, attempts, host), m)
  {
    var fold, t := options.ignoreCase, TableAfter(options, attempts, host);
    var routes := Accepted(RoutesFor(attempts, host, m, fold));
    RunHolds(fold, options.strictSlash, options.useRawPath, attempts, host, m);
    TakenIsAccepted(attempts, host, m, fold);
    MirroredCall(routes, Taken(attempts, host, m, fold), fold, a);
    RouteFacts(a, fold);
    assert Lookup(RootOf(t, m), RouteOf(a, fold).parts) == Some(RouteLeaf(RouteOf(a, fold)));
    StoresByRoot(t, m);
  }

  lemma TrailingStoredBy(options: Options, attempts: seq<Attempt>, host: string, m: string) returns (a: Attempt)
    requires StoresTrailing(TableAfter(options, attempts, host), m)
    ensures a in Calls(SiteOf(options, attempts, host), m) && |a.pattern| > 1 && EndsInSlash(a.pattern)
  {
    var fold, t := options.ignoreCase, TableAfter(options, attempts, host);
    var routes := Accepted(RoutesFor(attempts, host, m, fold));
    RunHolds(fold, options.strictSlash, options.useRawPath, attempts, host, m);
    TakenIsAccepted(attempts, host, m, fold);
    StoresByRoot(t, m);
    var p :| Lookup(RootOf(t, m), p).Some? && HasTrailingSlash(Lookup(RootOf(t, m), p).value.pattern);
    var r :| r in routes && r.parts == p;
    a := MirroredRoute(routes, Taken(attempts, host, m, fold), fold, r);
    RouteFacts(a, fold);
  }

  /** Every table of a router that registrations build serves what the calls for its host determine. */
  lemma SiteServed(options: Options, attempts: seq<Attempt>, host: string)
    ensures Serves(TableAfter(options, attempts, host), SiteOf(options, attempts, host))
  {
    var site, t := SiteOf(options, attempts, host), TableAfter(options, attempts, host);
    TableAfterOk(options, attempts, host);
    TrailingExactly(options, attempts, host);
    forall m, path, answer
      ensures ServeMethod(t, m, Key(path, site.fold), path) == answer <==>
              AnswersFrom(Calls(site, m), path, site.fold, answer)
    {
      MethodAnswers(options, attempts, host, m, path, answer);
    }
  }

  /** HEAD by its own routes if they answer, else by those of GET; any other method by its own. */
  lemma RespondsExactly(t: RouteTable, site: Site, m: string, path: string, answer: Option<Answer>)
    requires Serves(t, site)
    ensures Responds(site, m, path, answer) <==> ServeInTable(t, m, Key(path, site.fold), path) == answer
  {
    var key := Key(path, site.fold);
    assert ServeMethod(t, "HEAD", key, path) == None <==> AnswersFrom(Calls(site, "HEAD"), path, site.fold, None);
    assert ServeMethod(t, "GET", key, path) == answer <==> AnswersFrom(Calls(site, "GET"), path, site.fold, answer);
    assert ServeMethod(t, m, key, path) == answer <==> AnswersFrom(Calls(site, m), path, site.fold, answer);
  }

  lemma AllowedExactly(t: RouteTable, site: Site, path: string)
    requires Serves(t, site)
    ensures SomeResponding(site, path) <==> AllowedSet(t, Key(path, site.fold)) != {}
    ensures forall m :: Allows(site, path, m) <==> m in AllowedSet(t, Key(path, site.fold))
  {
    var key := Key(path, site.fold);
    forall m
      ensures Responding(site, m, path) <==> ServeInTable(t, m, key, path).Some?
      ensures m != OPTIONS ==> (m in AllowedSet(t, key) <==> ServeInTable(t, m, key, path).Some?)
    {
      RespondsExactly(t, site, m, path, None);
      AllowAgreesWithServing(t, key, path, m);
    }
    AllowAgreesWithServing(t, key, path, OPTIONS);
    SomeServed(t, key, path);
    if m :| ServeInTable(t, m, key, path).Some? {
      assert Responding(site, m, path);
    }
  }

  lemma SomeServed(t: RouteTable, key: string, path: string)
    requires |key| == |path|
    ensures (exists m :: ServeMethod(t, m, key, path).Some?) <==> (exists m :: ServeInTable(t, m, key, path).Some?)
  {
    if m :| ServeMethod(t, m, key, path).Some? {
      assert ServeInTable(t, m, key, path).Some?;
    }
    if m :| ServeInTable(t, m, key, path).Some? {
      assert ServeMethod(t, m, key, path).Some? || ServeMethod(t, GET, key, path).Some?;
    }
  }

  /** The header of a site at a path is the one the table gives. */
  lemma HeaderOfSite(t: RouteTable, site: Site, path: string, header: string)
    requires Serves(t, site)
    ensures IsAllowOf(site, path, header) <==> header == AllowHeader(AllowedSet(t, Key(path, site.fold)))
  {
    AllowedExactly(t, site, path);
    HeaderExactly(AllowedSet(t, Key(path, site.fold)), header);
  }

  /** The same for the tables of a router that registrations build. */
  lemma MethodResponds(options: Options, attempts: seq<Attempt>, host: string, m: string, path: string,
                       answer: Option<Answer>)
    ensures ServeInTable(TableAfter(options, attempts, host), m, Key(path, options.ignoreCase), path) == answer <==>
            Responds(SiteOf(options, attempts, host), m, path, answer)
  {
    SiteServed(options, attempts, host);
    RespondsExactly(TableAfter(options, attempts, host), SiteOf(options, attempts, host), m, path, answer);
  }

  // ---------------------------------------------------------------- the answer of one host

  lemma ServedExactly(t: RouteTable, site: Site, m: string, path: string, o: Option<Outcome>)
    requires Serves(t, site)
    ensures var answer := ServeInTable(t, m, Key(path, site.fold), path);
            && (Responding(site, m, path) <==> answer.Some?)
            && (IsServed(site, m, path, o) <==> answer.Some? && o == Some(Served(answer.value)))
  {
    var answer := ServeInTable(t, m, Key(path, site.fold), path);
    RespondsExactly(t, site, m, path, None);
    if answer.Some? {
      RespondsExactly(t, site, m, path, answer);
    }
    if a :| Responds(site, m, path, Some(a)) && o == Some(Served(a)) {
      RespondsExactly(t, site, m, path, Some(a));
    }
  }

  /** A refusal: status 200 for OPTIONS, 405 for every other method, with the header of the allowed set. */
  lemma RefusedExactly(t: RouteTable, site: Site, m: string, path: string, o: Option<Outcome>)
    requires Serves(t, site)
    ensures var allow := AllowedInTable(t, Key(path, site.fold));
            && (SomeResponding(site, path) <==> allow.Some?)
            && (allow.Some? ==> (IsRefused(site, m, path, o) <==> o == Some(Refuse(m, allow.value))))
  {
    var key := Key(path, site.fold);
    AllowedExactly(t, site, path);
    AllowedIsSet(t, key);
    var header := AllowHeader(AllowedSet(t, key));
    HeaderOfSite(t, site, path, header);
    if h :| IsAllowOf(site, path, h) && o == Some(if m == "OPTIONS" then OptionsAnswered(h) else MethodNotAllowed(h)) {
      HeaderOfSite(t, site, path, h);
    }
  }

  lemma TwinExactly(t: RouteTable, site: Site, path: string)
    requires Serves(t, site)
    ensures TwinTried(site, path) <==>
            AlternatePath(Key(path, site.fold)).Some? && !SkipsAlternate(t.hasTrailing, Key(path, site.fold))
    ensures HasTwin(path) ==>
            && AlternatePath(path) == Some(Twin(path)) && Twin(path) != ""
            && AlternatePath(Key(path, site.fold)) == Some(Key(Twin(path), site.fold))
  {
    TwinIsAlternate(path);
    AlternateFolds(Context("", path, false, site.fold));
    if path != "" {
      assert Key(path, site.fold)[|path| - 1] == '/' <==> path[|path| - 1] == '/';
    }
  }

  /** Serving, then the twin, then refusing: the answer of a table, told by its parts. */
  lemma TableCases(t: RouteTable, ctx: Context, strict: bool, twin: string)
    requires TableOk(t) && twin != ""
    requires AlternatePath(ctx.MatchPath()).Some? ==>
               && AlternatePath(ctx.paramPath) == Some(twin)
               && AlternatePath(ctx.MatchPath()) == Some(Key(twin, ctx.folded))
    ensures var tried := AlternatePath(ctx.MatchPath()).Some? && !SkipsAlternate(t.hasTrailing, ctx.MatchPath());
            var served := ServeInTable(t, ctx.method_, ctx.MatchPath(), ctx.paramPath);
            var other := ServeInTable(t, ctx.method_, Key(twin, ctx.folded), twin);
            var allow, otherAllow := AllowedInTable(t, ctx.MatchPath()), AllowedInTable(t, Key(twin, ctx.folded));
            TryTable(t, ctx, strict) ==
              if served.Some? then Some(Served(served.value))
              else if tried && strict && otherAllow.Some? then Some(RedirectTo(ctx.method_, twin, ctx.useRaw))
              else if tried && !strict && other.Some? then Some(Served(other.value))
              else if allow.Some? then Some(Refuse(ctx.method_, allow.value))
              else if tried && !strict && otherAllow.Some? then Some(Refuse(ctx.method_, otherAllow.value))
              else None
  {
  }

  /** One host answers as its calls determine. */
  lemma SiteExactly(t: RouteTable, site: Site, strict: bool, raw: bool, m: string, path: string, o: Option<Outcome>)
    requires Serves(t, site)
    ensures SiteAnswers(site, strict, raw, m, path, o) <==> TryTable(t, Context(m, path, raw, site.fold), strict) == o
  {
    var twin := if HasTwin(path) then Twin(path) else "/";
    TwinExactly(t, site, path);
    TwinIsAlternate(path);
    AlternateFolds(Context(m, path, raw, site.fold));
    ServedExactly(t, site, m, path, o);
    ServedExactly(t, site, m, twin, o);
    RefusedExactly(t, site, m, path, o);
    RefusedExactly(t, site, m, twin, o);
    TableCases(t, Context(m, path, raw, site.fold), strict, twin);
  }

  // ---------------------------------------------------------------- the preparation

  /**
   What happens to a request before any table is asked: too long beyond 4096 bytes; a raw path and a
   canonical path go on as they are; any other path is redirected to its canonical form.
   */
  lemma PreparedExactly(options: Options, req: Request)
    ensures var prepared := Prepare(req, options.useRawPath, options.ignoreCase);
            && (ByRawPath(options, req) <==> UsesRaw(req, options.useRawPath))
            && (|req.path| > 4096 ==> prepared == Done(TooLong))
            && (|req.path| <= 4096 && ByRawPath(options, req) ==>
                  prepared == if |req.rawPath| > 4096 then Done(TooLong)
                              else Go(Context(req.method_, req.rawPath, true, options.ignoreCase)))
            && (|req.path| <= 4096 && !ByRawPath(options, req) && Canonical(req.path) ==>
                  prepared == Go(Context(req.method_, req.path, false, options.ignoreCase)))
            && (|req.path| <= 4096 && !ByRawPath(options, req) && !Canonical(req.path) ==>
                  exists target ::
                    && CanonicalFormOf(target, req.path)
                    && prepared == Done(if |target| > 4096 then TooLong
                                        else Redirect(target, false, RedirectCode(req.method_))))
  {
    CanonicalExactly(req.path);
    CanonicalFormExactly(CleanPath(req.path), req.path);
  }

  /** Following the redirect leads past the preparation, with the same segments and slash. */
  lemma RedirectIsFinal(options: Options, req: Request, target: string)
    requires CanonicalFormOf(target, req.path) && |target| <= 4096
    ensures var next := Request(req.method_, req.host, target, "", target);
            && Prepare(next, options.useRawPath, options.ignoreCase) ==
               Go(Context(req.method_, target, false, options.ignoreCase))
            && forall t :: CanonicalFormOf(t, req.path) ==> t == target
  {
    CanonicalExactly(target);
    CanonicalFormExactly(target, req.path);
    forall t | CanonicalFormOf(t, req.path)
      ensures t == target
    {
      CanonicalFormExactly(t, req.path);
    }
  }

  // ---------------------------------------------------------------- the whole request

  /** The host's own table first, then the default one. */
  lemma HostsExactly(options: Options, attempts: seq<Attempt>, req: Request, path: string, raw: bool, o: Outcome)
    ensures HostsAnswer(options, attempts, req, path, raw, o) <==>
            var ctx := Context(req.method_, path, raw, options.ignoreCase);
            o == Answered(FirstOutcome(
                   if req.host == "" then None
                   else TryTable(TableAfter(options, attempts, req.host), ctx, options.strictSlash),
                   TryTable(TableAfter(options, attempts, ""), ctx, options.strictSlash)))
  {
    var own, shared := SiteOf(options, attempts, req.host), SiteOf(options, attempts, "");
    var t, u := TableAfter(options, attempts, req.host), TableAfter(options, attempts, "");
    SiteServed(options, attempts, req.host);
    SiteServed(options, attempts, "");
    SiteExactly(t, own, options.strictSlash, raw, req.method_, path, None);
    SiteExactly(t, own, options.strictSlash, raw, req.method_, path, Some(o));
    SiteExactly(u, shared, options.strictSlash, raw, req.method_, path, None);
    SiteExactly(u, shared, options.strictSlash, raw, req.method_, path, Some(o));
  }

  lemma OptionsOf(options: Options, attempts: seq<Attempt>)
    ensures var r := RouterAfter(options, attempts);
            && IgnoreCaseActive(r) == options.ignoreCase && r.strictSlash == options.strictSlash
            && r.useRawPath == options.useRawPath
  {
    RunBuilds(options.ignoreCase, options.strictSlash, options.useRawPath, attempts, "", GET);
  }

  /** A request that reaches the tables gets the answer of the hosts. */
  lemma TablesAnswer(options: Options, attempts: seq<Attempt>, req: Request, path: string, raw: bool, o: Outcome)
    requires Prepare(req, options.useRawPath, options.ignoreCase) ==
             Go(Context(req.method_, path, raw, options.ignoreCase))
    ensures ServeHTTP(RouterAfter(options, attempts), req) == o <==> HostsAnswer(options, attempts, req, path, raw, o)
  {
    OptionsOf(options, attempts);
    ServeByTables(RouterAfter(options, attempts), req);
    HostsExactly(options, attempts, req, path, raw, o);
  }

  lemma DoneAnswers(options: Options, attempts: seq<Attempt>, req: Request)
    requires Prepare(req, options.useRawPath, options.ignoreCase).Done?
    ensures ServeHTTP(RouterAfter(options, attempts), req) ==
             Prepare(req, options.useRawPath, options.ignoreCase).outcome
  {
    OptionsOf(options, attempts);
  }

  /**
   The main theorem on the router: whatever the options and the calls of Handle, each request has
   exactly the answer that the request specification gives it.
   */
  lemma EveryRequestAnswered(options: Options, attempts: seq<Attempt>, req: Request, o: Outcome)
    ensures ServeHTTP(RouterAfter(options, attempts), req) == o <==> IsAnswerTo(options, attempts, req, o)
  {
    PreparedExactly(options, req);
    var prepared := Prepare(req, options.useRawPath, options.ignoreCase);
    if prepared.Go? {
      TablesAnswer(options, attempts, req, prepared.ctx.paramPath, prepared.ctx.useRaw, o);
    } else {
      DoneAnswers(options, attempts, req);
      if |req.path| <= 4096 && !ByRawPath(options, req) {
        RedirectedAnswer(options, attempts, req, o);
      }
    }
  }

  lemma RedirectedAnswer(options: Options, attempts: seq<Attempt>, req: Request, o: Outcome)
    requires |req.path| <= 4096 && !ByRawPath(options, req) && !Canonical(req.path)
    requires Prepare(req, options.useRawPath, options.ignoreCase).Done?
    requires ServeHTTP(RouterAfter(options, attempts), req) ==
             Prepare(req, options.useRawPath, options.ignoreCase).outcome
    ensures ServeHTTP(RouterAfter(options, attempts), req) == o <==> IsAnswerTo(options, attempts, req, o)
  {
    PreparedExactly(options, req);
    CanonicalFormExactly(CleanPath(req.path), req.path);
    if target :| && CanonicalFormOf(target, req.path)
                 && o == if |target| > 4096 then TooLong else Redirect(target, false, RedirectCode(req.method_)) {
      CanonicalFormExactly(target, req.path);
    }
  }

  // ---------------------------------------------------------------- registration, over the original patterns

  /** Handle accepts a call exactly when it is a good one and clashes with none accepted before. */
  lemma HandleExactly(options: Options, attempts: seq<Attempt>, a: Attempt)
    ensures Perform(RouterAfter(options, attempts), a).error.None? <==>
            GoodCall(a) && !ClashesWith(Taken(attempts, a.host, a.method_, options.ignoreCase), a, options.ignoreCase)
  {
    var fold := options.ignoreCase;
    var routes := Accepted(RoutesFor(attempts, a.host, a.method_, fold));
    HandleRejectsExactly(fold, options.strictSlash, options.useRawPath, attempts, a);
    GoodCallExactly(a);
    if GoodCall(a) {
      TakenIsAccepted(attempts, a.host, a.method_, fold);
      ClashesWithExactly(routes, Taken(attempts, a.host, a.method_, fold), fold, a);
    }
  }

  /** The number of accepted calls. */
  ghost function TakenCount(attempts: seq<Attempt>, fold: bool): nat {
    if attempts == [] then 0
    else
      var before, a := attempts[..|attempts| - 1], attempts[|attempts| - 1];
      TakenCount(before, fold) +
      if GoodCall(a) && !ClashesWith(Taken(before, a.host, a.method_, fold), a, fold) then 1 else 0
  }

  lemma CountStep(r: Router, a: Attempt)
    ensures Perform(r, a).router.routesCount == r.routesCount + if Perform(r, a).error.None? then 1 else 0
  {
    if ArgumentError(a.method_, a.pattern, a.handler).None? {
      var locked := LockIgnoreCase(r);
      CountStored(locked, a.host, a.method_, RouteFor(a.pattern, a.handler.value, locked.ignoreCaseEnabled));
    }
  }

  lemma CountStored(r: Router, host: string, m: string, route: Route)
    ensures Store(r, host, m, route).router.routesCount ==
            r.routesCount + if Store(r, host, m, route).error.None? then 1 else 0
  {
    assert WithTable(r, host, TableInsert(TableAt(r, host), m, route).table).routesCount == r.routesCount;
  }

  /** routesCount counts them. */
  lemma {:induction false} RoutesCounted(options: Options, attempts: seq<Attempt>)
    ensures RouterAfter(options, attempts).routesCount == TakenCount(attempts, options.ignoreCase)
    decreases |attempts|
  {
    if attempts != [] {
      var before, a := attempts[..|attempts| - 1], attempts[|attempts| - 1];
      assert attempts == before + [a];
      RoutesCounted(options, before);
      HandleAllSnoc(NewRouter(options.ignoreCase, options.strictSlash, options.useRawPath), before, a);
      HandleExactly(options, before, a);
      CountStep(RouterAfter(options, before), a);
    }
  }

  // ---------------------------------------------------------------- options written later, and frozen routers

  /** The options that a run of operations leaves in force. */
  ghost function OptionsAfterOps(options: Options, ops: seq<Op>): Options {
    Options(Folding(options.ignoreCase, ops), StrictSlashAfter(options.strictSlash, ops),
            UseRawPathAfter(options.useRawPath, ops))
  }

  /** The same answers when the options are written between the calls of Handle. */
  lemma EveryRunAnswers(options: Options, ops: seq<Op>, req: Request, o: Outcome)
    ensures var r := ApplyAll(NewRouter(options.ignoreCase, options.strictSlash, options.useRawPath), ops);
            ServeHTTP(r, req) == o <==> IsAnswerTo(OptionsAfterOps(options, ops), Registrations(ops), req, o)
  {
    OptionsAsIfFirst(options.ignoreCase, options.strictSlash, options.useRawPath, ops, req);
    EveryRequestAnswered(OptionsAfterOps(options, ops), Registrations(ops), req, o);
  }

  /** And after freezing, unless a registrable pattern fits across a wide gap of a raw path. */
  lemma FrozenAnswers(options: Options, attempts: seq<Attempt>, req: Request, o: Outcome)
    requires ByRawPath(options, req) ==> PathOk(req.rawPath)
    ensures FrozenServeHTTP(Freeze(RouterAfter(options, attempts)), req) == o <==> IsAnswerTo(options, attempts, req, o)
  {
    ReachableRouterOk(options.ignoreCase, options.strictSlash, options.useRawPath, attempts);
    OptionsOf(options, attempts);
    FreezeKeepsOutcome(RouterAfter(options, attempts), req);
    EveryRequestAnswered(options, attempts, req, o);
  }
}

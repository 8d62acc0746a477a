/**
 When a request is refused: exactly when it is neither served nor redirected although something is
 allowed at its path.
 */
module Refusals {
  import opened Paths
  import opened Allow
  import opened Table
  import opened Serve
  import opened Dispatch
  import opened Registration
  import opened RouterRuns
  import opened TrailingSkip

  /** Something is allowed at a path that the request asks this table for. */
  ghost predicate AllowsSomething(t: RouteTable, ctx: Context, strict: bool) {
    exists path :: AskedAt(ctx, strict, path) && AllowedSet(t, path) != {}
  }

  /** If the shortcut hides the other form, what is allowed there is allowed at the path itself. */
  lemma ShortcutHidesNothing(t: RouteTable, ctx: Context)
    requires TableOk(t) && SkipsAlternate(t.hasTrailing, ctx.MatchPath()) && AlternatePath(ctx.MatchPath()).Some?
    requires AllowedSet(t, AlternatePath(ctx.MatchPath()).value) != {}
    ensures AllowedSet(t, ctx.MatchPath()) != {}
  {
    SkippedForms(t, ctx);
    TwinAllowsLess(t, ctx.MatchPath());
  }

  lemma RefusalExactly(t: RouteTable, ctx: Context, strict: bool)
    requires TableOk(t)
    ensures NotAllowed(t, ctx, strict).Some? <==> AllowsSomething(t, ctx, strict)
    ensures NotAllowed(t, ctx, strict).Some? ==> Refused(NotAllowed(t, ctx, strict).value)
  {
    var path := ctx.MatchPath();
    AllowedIsSet(t, path);
    if AlternatePath(path).Some? {
      AllowedIsSet(t, AlternatePath(path).value);
    }
    if AllowedSet(t, path) != {} {
      assert AskedAt(ctx, strict, path);
    } else if AllowsSomething(t, ctx, strict) {
      if SkipsAlternate(t.hasTrailing, path) {
        ShortcutHidesNothing(t, ctx);
      }
    } else if !strict && AlternatePath(path).Some? {
      assert AskedAt(ctx, strict, AlternatePath(path).value);
    }
  }

  /** What a table answers with is a served request, a redirect, or a refusal if anything is allowed. */
  lemma TableRefuses(t: RouteTable, ctx: Context, strict: bool)
    requires TableOk(t)
    ensures var o := TryTable(t, ctx, strict);
            o.None? || !(o.value.Served? || o.value.Redirect?) ==>
              (o.Some? <==> AllowsSomething(t, ctx, strict)) && (o.Some? ==> Refused(o.value))
  {
    RefusalExactly(t, ctx, strict);
  }

  lemma RouterRefuses(r: Router, req: Request)
    requires RouterOk(r) && Prepare(req, r.useRawPath, IgnoreCaseActive(r)).Go?
    requires !ServeHTTP(r, req).Served? && !ServeHTTP(r, req).Redirect?
    ensures var ctx := Prepare(req, r.useRawPath, IgnoreCaseActive(r)).ctx;
            Refused(ServeHTTP(r, req)) <==>
              (req.host != "" && AllowsSomething(TableAt(r, req.host), ctx, r.strictSlash)) ||
              AllowsSomething(r.table, ctx, r.strictSlash)
  {
    var ctx := Prepare(req, r.useRawPath, IgnoreCaseActive(r)).ctx;
    ServeByTables(r, req);
    TablesOk(r, req.host);
    TableRefuses(TableAt(r, req.host), ctx, r.strictSlash);
    TableRefuses(r.table, ctx, r.strictSlash);
  }

  /**
   For every router that registrations can build and every request that reaches the tables and is
   neither served nor redirected: if something is allowed at the path asked for (or its other form,
   without strict slashes), the answer is 405 for every method but OPTIONS, and 200 for OPTIONS;
   if nothing is, it is 404.
   */
  lemma RefusedExactlyWhenAllowed(ignoreCase: bool, strictSlash: bool, useRawPath: bool, attempts: seq<Attempt>,
                                  req: Request)
    requires Prepare(req, useRawPath, ignoreCase).Go?
    requires var o := ServeHTTP(HandleAll(NewRouter(ignoreCase, strictSlash, useRawPath), attempts), req);
             !o.Served? && !o.Redirect?
    ensures var r := HandleAll(NewRouter(ignoreCase, strictSlash, useRawPath), attempts);
            var ctx, o := Prepare(req, useRawPath, ignoreCase).ctx, ServeHTTP(r, req);
            var allowed := (req.host != "" && AllowsSomething(TableAt(r, req.host), ctx, strictSlash)) ||
                           AllowsSomething(r.table, ctx, strictSlash);
            && (o.MethodNotAllowed? <==> allowed && req.method_ != OPTIONS)
            && (o.OptionsAnswered? <==> allowed && req.method_ == OPTIONS)
            && (o == NotFound <==> !allowed)
  {
    var r := HandleAll(NewRouter(ignoreCase, strictSlash, useRawPath), attempts);
    ReachableRouterOk(ignoreCase, strictSlash, useRawPath, attempts);
    RunBuilds(ignoreCase, strictSlash, useRawPath, attempts, "", GET);
    RouterRefuses(r, req);
    NotAllowedNeverListsOwnMethod(r, req);
    NeverTooLong(r, req);
  }

  lemma NeverTooLong(r: Router, req: Request)
    requires Prepare(req, r.useRawPath, IgnoreCaseActive(r)).Go?
    ensures ServeHTTP(r, req) != TooLong
  {
  }
}

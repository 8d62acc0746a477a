/**
 Whole-request dispatch of the mutable router (`Router.ServeHTTP`) to an abstract outcome.
 Locks, pools and response writing are not modelled; the tables are quiescent.
 */
module Dispatch {
  import opened Base
  import opened Paths
  import opened Allow
  import opened Table
  import opened Serve

  /** `host` is normalised; `escapedPath` is what URL.EscapedPath returns. */
  datatype Request = Request(method_: string, host: string, path: string, rawPath: string, escapedPath: string)

  datatype Outcome =
    | Redirect(target: string, raw: bool, code: nat)
    | Served(answer: Answer)
    | OptionsAnswered(allow: string)
    | MethodNotAllowed(allow: string)
    | NotFound
    | TooLong

  datatype Router = Router(
    table: RouteTable,
    hosts: map<string, RouteTable>,
    routesCount: nat,
    ignoreCaseSet: bool,
    ignoreCaseEnabled: bool,
    ignoreCase: bool,
    strictSlash: bool,
    useRawPath: bool)

  // ---------------------------------------------------------------- prepareRouteContext

  /** What the tables are asked for: the path itself or its lower-case form. */
  function Key(path: string, folded: bool): (k: string)
    ensures |k| == |path|
  {
    if folded then Lower(path) else path
  }

  /** `folded` tells whether case is ignored. */
  datatype Context = Context(method_: string, paramPath: string, useRaw: bool, folded: bool)
  {
    function MatchPath(): (p: string)
      ensures |p| == |paramPath|
    {
      Key(paramPath, folded)
    }
  }

  datatype Prepared = Done(outcome: Outcome) | Go(ctx: Context)

  predicate UsesRaw(req: Request, useRawPath: bool) {
    useRawPath && req.rawPath != "" && req.rawPath == req.escapedPath
  }

  function RedirectTo(m: string, target: string, raw: bool): Outcome {
    Redirect(target, raw, if m != GET && m != HEAD then 308 else 301)
  }

  function Prepare(req: Request, useRawPath: bool, ignoreCase: bool): Prepared {
    var useRaw := UsesRaw(req, useRawPath);
    if |req.path| > MAX_PATH_LENGTH then Done(TooLong)
    else if useRaw && |req.rawPath| > MAX_PATH_LENGTH then Done(TooLong)
    else if !useRaw && |CleanPath(req.path)| > MAX_PATH_LENGTH then Done(TooLong)
    else if !useRaw && CleanPath(req.path) != req.path then Done(RedirectTo(req.method_, CleanPath(req.path), false))
    else Go(Context(req.method_, if useRaw then req.rawPath else req.path, useRaw, ignoreCase))
  }

  // ---------------------------------------------------------------- one table

  /** The fast skip: no route with a trailing slash exists and the path has none either. */
  predicate SkipsAlternate(hasTrailing: bool, matchPath: string) {
    |matchPath| > 1 && matchPath[|matchPath| - 1] != '/' && !hasTrailing
  }

  /** The toggled path, for matching and for parameters. */
  lemma AlternateFolds(ctx: Context)
    ensures AlternatePath(ctx.MatchPath()).Some? <==> AlternatePath(ctx.paramPath).Some?
    ensures AlternatePath(ctx.MatchPath()).Some? ==>
              var p := AlternatePath(ctx.paramPath).value;
              AlternatePath(ctx.MatchPath()).value == if ctx.folded then Lower(p) else p
  {
    var p, q := ctx.paramPath, ctx.MatchPath();
    if p != "" {
      assert q[|q| - 1] == '/' <==> p[|p| - 1] == '/';
      assert |p| == 1 && q == "/" ==> p == "/";
      if ctx.folded && AlternatePath(p).Some? {
        var a := AlternatePath(p).value;
        assert Lower(a) == if p[|p| - 1] == '/' then Lower(p)[..|p| - 1] else Lower(p) + "/";
      }
    }
  }

  /** tryAlternateSlashInTable */
  ghost function AlternateSlash(t: RouteTable, ctx: Context, strict: bool): Option<Outcome> {
    AlternateFolds(ctx);
    var alt := AlternatePath(ctx.MatchPath());
    if SkipsAlternate(t.hasTrailing, ctx.MatchPath()) || alt.None? then None
    else
      var altParam := AlternatePath(ctx.paramPath).value;
      if strict then
        if AllowedInTable(t, alt.value).Some? && altParam != "" then Some(RedirectTo(ctx.method_, altParam, ctx.useRaw))
        else None
      else AsOutcome(ServeInTable(t, ctx.method_, alt.value, altParam))
  }

  function AsOutcome(a: Option<Answer>): Option<Outcome> {
    if a.Some? then Some(Served(a.value)) else None
  }

  /** respondMethodNotAllowed */
  function Refuse(m: string, allow: string): Outcome {
    if m == OPTIONS then OptionsAnswered(allow) else MethodNotAllowed(allow)
  }

  function FirstOutcome(a: Option<Outcome>, b: Option<Outcome>): Option<Outcome> {
    if a.Some? then a else b
  }

  /** handleMethodNotAllowedInTable */
  ghost function NotAllowed(t: RouteTable, ctx: Context, strict: bool): Option<Outcome> {
    var here := AllowedInTable(t, ctx.MatchPath());
    if here.Some? then Some(Refuse(ctx.method_, here.value))
    else if strict || SkipsAlternate(t.hasTrailing, ctx.MatchPath()) then None
    else
      var alt := AlternatePath(ctx.MatchPath());
      if alt.Some? && AllowedInTable(t, alt.value).Some?
        then Some(Refuse(ctx.method_, AllowedInTable(t, alt.value).value))
      else None
  }

  ghost function TryTable(t: RouteTable, ctx: Context, strict: bool): Option<Outcome> {
    FirstOutcome(AsOutcome(ServeInTable(t, ctx.method_, ctx.MatchPath(), ctx.paramPath)),
                 FirstOutcome(AlternateSlash(t, ctx, strict), NotAllowed(t, ctx, strict)))
  }

  // ---------------------------------------------------------------- the whole request

  predicate IgnoreCaseActive(r: Router) {
    if r.ignoreCaseSet then r.ignoreCaseEnabled else r.ignoreCase
  }

  ghost function Answered(o: Option<Outcome>): Outcome {
    if o.Some? then o.value else NotFound
  }

  /** Router.ServeHTTP: the host table first, then the default table. */
  ghost function ServeHTTP(r: Router, req: Request): Outcome {
    match Prepare(req, r.useRawPath, IgnoreCaseActive(r))
    case Done(outcome) => outcome
    case Go(ctx) =>
      var own := if req.host != "" && req.host in r.hosts
                 then TryTable(r.hosts[req.host], ctx, r.strictSlash)
                 else None;
      Answered(FirstOutcome(own, TryTable(r.table, ctx, r.strictSlash)))
  }

  ghost predicate RouterOk(r: Router) {
    TableOk(r.table) && forall h <- r.hosts :: TableOk(r.hosts[h])
  }

  // ---------------------------------------------------------------- a refusal lists what is allowed

  /** Answered with an Allow header only: status 405, or 200 for OPTIONS. */
  predicate Refused(o: Outcome) {
    o.MethodNotAllowed? || o.OptionsAnswered?
  }

  /**
   The header is that of the methods one path of the table allows; OPTIONS is among them, and the given
   method is not, unless it is OPTIONS.
   */
  ghost predicate RefusesAt(t: RouteTable, path: string, m: string, allow: string) {
    && allow == AllowHeader(AllowedSet(t, path)) && OPTIONS in AllowedSet(t, path)
    && (m != OPTIONS ==> m !in AllowedSet(t, path))
  }

  /** The path a request asks the tables for, or, without strict slashes, its other slash form. */
  ghost predicate AskedAt(ctx: Context, strict: bool, path: string) {
    path == ctx.MatchPath() || (!strict && AlternatePath(ctx.MatchPath()) == Some(path))
  }

  lemma RefusalIsHonest(t: RouteTable, ctx: Context, strict: bool)
    requires TableOk(t) && ServeInTable(t, ctx.method_, ctx.MatchPath(), ctx.paramPath).None?
    requires AlternateSlash(t, ctx, strict).None?
    requires NotAllowed(t, ctx, strict).Some? && Refused(NotAllowed(t, ctx, strict).value)
    ensures NotAllowed(t, ctx, strict).value.OptionsAnswered? <==> ctx.method_ == OPTIONS
    ensures exists path ::
              AskedAt(ctx, strict, path) && RefusesAt(t, path, ctx.method_, NotAllowed(t, ctx, strict).value.allow)
  {
    var path := ctx.MatchPath();
    AllowedIsSet(t, path);
    AllowAgreesWithServing(t, path, ctx.paramPath, ctx.method_);
    if AllowedInTable(t, path).Some? {
      assert AskedAt(ctx, strict, path) && RefusesAt(t, path, ctx.method_, NotAllowed(t, ctx, strict).value.allow);
    } else {
      AlternateFolds(ctx);
      var alt, altParam := AlternatePath(path).value, AlternatePath(ctx.paramPath).value;
      AllowedIsSet(t, alt);
      AllowAgreesWithServing(t, alt, altParam, ctx.method_);
      assert AskedAt(ctx, strict, alt) && RefusesAt(t, alt, ctx.method_, NotAllowed(t, ctx, strict).value.allow);
    }
  }

  lemma RefusalInTable(t: RouteTable, ctx: Context, strict: bool)
    requires TableOk(t) && TryTable(t, ctx, strict).Some? && Refused(TryTable(t, ctx, strict).value)
    ensures TryTable(t, ctx, strict).value.OptionsAnswered? <==> ctx.method_ == OPTIONS
    ensures exists path ::
              AskedAt(ctx, strict, path) && RefusesAt(t, path, ctx.method_, TryTable(t, ctx, strict).value.allow)
  {
    RefusalIsHonest(t, ctx, strict);
  }

  /** tableForHostLocked: the table of a host, an empty one when it has none; "" stands for the default table. */
  function TableAt(r: Router, host: string): RouteTable {
    if host == "" then r.table else if host in r.hosts then r.hosts[host] else NEW_TABLE
  }

  /**
   A refusal has status 200 for OPTIONS and 405 for every other method. It carries the header of the
   methods that the host's table or the default one allows at the path asked for, or at its other slash
   form without strict slashes; OPTIONS is among them, and for a 405 the request's own method is not.
   */
  lemma NotAllowedNeverListsOwnMethod(r: Router, req: Request)
    requires RouterOk(r)
    ensures var o := ServeHTTP(r, req);
            var prepared := Prepare(req, r.useRawPath, IgnoreCaseActive(r));
            Refused(o) ==>
              && prepared.Go? && (o.OptionsAnswered? <==> req.method_ == OPTIONS)
              && exists host, path ::
                   && host in {"", req.host} && AskedAt(prepared.ctx, r.strictSlash, path)
                   && RefusesAt(TableAt(r, host), path, req.method_, o.allow)
  {
    if Refused(ServeHTTP(r, req)) {
      var allow := ServeHTTP(r, req).allow;
      var ctx := Prepare(req, r.useRawPath, IgnoreCaseActive(r)).ctx;
      var own := req.host != "" && req.host in r.hosts && TryTable(r.hosts[req.host], ctx, r.strictSlash).Some?;
      var host := if own then req.host else "";
      RefusalInTable(TableAt(r, host), ctx, r.strictSlash);
      var path :| AskedAt(ctx, r.strictSlash, path) && RefusesAt(TableAt(r, host), path, ctx.method_, allow);
      assert host in {"", req.host} && RefusesAt(TableAt(r, host), path, req.method_, allow);
    }
  }

  // ---------------------------------------------------------------- slash redirects

  /** Dispatch of a path on the default table alone. */
  ghost function OnDefaultTable(t: RouteTable, m: string, path: string, folded: bool): Option<Outcome> {
    TryTable(t, Context(m, path, false, folded), true)
  }

  /**
   With StrictSlash on, a path and its toggled twin redirect to each other exactly when a route with
   a trailing slash exists, the method is served at neither form, and both forms allow something.
   */
  lemma RedirectLoopExactly(t: RouteTable, m: string, p: string, folded: bool)
    requires TableOk(t) && CleanPath(p) == p && p != "/"
    ensures AlternatePath(p).Some?
    ensures var q := AlternatePath(p).value;
            (OnDefaultTable(t, m, p, folded) == Some(RedirectTo(m, q, false)) &&
             OnDefaultTable(t, m, q, folded) == Some(RedirectTo(m, p, false)))
            <==>
            && t.hasTrailing
            && ServeInTable(t, m, Key(p, folded), p).None? && ServeInTable(t, m, Key(q, folded), q).None?
            && AllowedSet(t, Key(p, folded)) != {} && AllowedSet(t, Key(q, folded)) != {}
  {
    AlternateTwice(p);
    var q := AlternatePath(p).value;
    AllowedIsSet(t, Key(p, folded));
    AllowedIsSet(t, Key(q, folded));
    OnTableUnfolds(t, m, p, q, folded);
    OnTableUnfolds(t, m, q, p, folded);
    CleanIsBuilt(p);
    assert |p| > 1 && |q| > 1;
    assert Key(p, folded)[|p| - 1] == '/' <==> p[|p| - 1] == '/';
    assert Key(q, folded)[|q| - 1] == '/' <==> q[|q| - 1] == '/';
  }

  lemma OnTableUnfolds(t: RouteTable, m: string, p: string, q: string, folded: bool)
    requires AlternatePath(p) == Some(q) && q != ""
    ensures (OnDefaultTable(t, m, p, folded) == Some(RedirectTo(m, q, false))) <==>
            && ServeInTable(t, m, Key(p, folded), p).None?
            && !SkipsAlternate(t.hasTrailing, Key(p, folded)) && AllowedInTable(t, Key(q, folded)).Some?
  {
    AlternateFolds(Context(m, p, false, folded));
  }

  /** A canonical path without a host table of its own is dispatched on the default table. */
  lemma DefaultDispatch(r: Router, req: Request)
    requires !UsesRaw(req, r.useRawPath) && CleanPath(req.path) == req.path && |req.path| <= MAX_PATH_LENGTH
    requires req.host == "" || req.host !in r.hosts
    ensures r.strictSlash ==>
              ServeHTTP(r, req) == Answered(OnDefaultTable(r.table, req.method_, req.path, IgnoreCaseActive(r)))
  {
  }
}

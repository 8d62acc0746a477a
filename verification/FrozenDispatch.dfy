/**
 The frozen router (`Freeze`, `FrozenRouter.ServeHTTP`) and its parity with the mutable one: the same
 outcome for every request whose path has no gap that a registrable pattern fits across.
 */
module FrozenDispatch {
  import opened Base
  import opened Segments
  import opened Paths
  import opened Trie
  import opened Frozen
  import opened GapCosts
  import opened FrozenGaps
  import opened Allow
  import opened Table
  import opened Serve
  import opened Dispatch

  datatype FrozenTable = FrozenTable(
    roots: map<string, FrozenNode>,
    statics: map<string, map<string, Handler>>,
    staticAllow: map<string, string>,
    hasParams: map<string, bool>,
    anyParams: bool,
    hasTrailing: bool)

  datatype FrozenRouter = FrozenRouter(
    table: FrozenTable,
    hosts: map<string, FrozenTable>,
    ignoreCase: bool,
    strictSlash: bool,
    useRawPath: bool)

  // ---------------------------------------------------------------- Freeze

  function FreezeTable(t: RouteTable): FrozenTable {
    FrozenTable(map m | m in t.roots :: FreezeRoot(t.roots[m]),
                t.statics, t.staticAllow, t.hasParams, t.anyParams, t.hasTrailing)
  }

  function Freeze(r: Router): FrozenRouter {
    FrozenRouter(FreezeTable(r.table), map h | h in r.hosts :: FreezeTable(r.hosts[h]),
                 if r.ignoreCaseSet then r.ignoreCaseEnabled else r.ignoreCase, r.strictSlash, r.useRawPath)
  }

  // ---------------------------------------------------------------- one frozen table

  function FrozenServeMethod(t: FrozenTable, m: string, matchPath: string, rawPath: string): Option<Answer>
    requires |rawPath| == |matchPath|
  {
    if m in t.statics && matchPath in t.statics[m] then Some(Answer(t.statics[m][matchPath], []))
    else if !(m in t.hasParams && t.hasParams[m]) then None
    else if HasControl(matchPath) then None
    else
      var segs := Segment(matchPath, rawPath);
      SegmentedPath(matchPath, rawPath);
      if |segs.parts| > MAX_DEPTH then None
      else if m !in t.roots then None
      else ServeMatch(FrozenFind(t.roots[m], segs, 0))
  }

  function FrozenServeInTable(t: FrozenTable, m: string, matchPath: string, rawPath: string): Option<Answer>
    requires |rawPath| == |matchPath|
  {
    if m == HEAD then
      FirstAnswer(FrozenServeMethod(t, HEAD, matchPath, rawPath), FrozenServeMethod(t, GET, matchPath, rawPath))
    else FrozenServeMethod(t, m, matchPath, rawPath)
  }

  function FrozenSearched(t: FrozenTable): set<string> {
    set m | m in t.hasParams && t.hasParams[m] && m in t.roots
  }

  predicate FrozenMatches(f: FrozenNode, path: string) {
    SegmentedPath(path, path);
    FrozenFind(f, Segment(path, path), 0).Some?
  }

  function FrozenFound(t: FrozenTable, path: string): set<string> {
    if FrozenSearched(t) != {} && Unsearchable(path) then {}
    else StaticMethods(t.statics, path) + set m | m in FrozenSearched(t) && FrozenMatches(t.roots[m], path)
  }

  ghost function FrozenAllowed(t: FrozenTable, path: string): Option<string> {
    if !t.anyParams then if path in t.staticAllow then Some(t.staticAllow[path]) else None
    else if FrozenFound(t, path) == {} then None
    else Some(AllowHeader(Closure(FrozenFound(t, path))))
  }

  ghost function FrozenAlternateSlash(t: FrozenTable, ctx: Context, strict: bool): Option<Outcome> {
    AlternateFolds(ctx);
    var alt := AlternatePath(ctx.MatchPath());
    if SkipsAlternate(t.hasTrailing, ctx.MatchPath()) || alt.None? then None
    else
      var altParam := AlternatePath(ctx.paramPath).value;
      if strict then
        if FrozenAllowed(t, alt.value).Some? && altParam != "" then Some(RedirectTo(ctx.method_, altParam, ctx.useRaw))
        else None
      else AsOutcome(FrozenServeInTable(t, ctx.method_, alt.value, altParam))
  }

  ghost function FrozenNotAllowed(t: FrozenTable, ctx: Context, strict: bool): Option<Outcome> {
    var here := FrozenAllowed(t, ctx.MatchPath());
    if here.Some? then Some(Refuse(ctx.method_, here.value))
    else if strict || SkipsAlternate(t.hasTrailing, ctx.MatchPath()) then None
    else
      var alt := AlternatePath(ctx.MatchPath());
      if alt.Some? && FrozenAllowed(t, alt.value).Some?
        then Some(Refuse(ctx.method_, FrozenAllowed(t, alt.value).value))
      else None
  }

  ghost function FrozenTryTable(t: FrozenTable, ctx: Context, strict: bool): Option<Outcome> {
    FirstOutcome(AsOutcome(FrozenServeInTable(t, ctx.method_, ctx.MatchPath(), ctx.paramPath)),
                 FirstOutcome(FrozenAlternateSlash(t, ctx, strict), FrozenNotAllowed(t, ctx, strict)))
  }

  /** FrozenRouter.ServeHTTP */
  ghost function FrozenServeHTTP(r: FrozenRouter, req: Request): Outcome {
    match Prepare(req, r.useRawPath, r.ignoreCase)
    case Done(outcome) => outcome
    case Go(ctx) =>
      var own := if req.host != "" && req.host in r.hosts
                 then FrozenTryTable(r.hosts[req.host], ctx, r.strictSlash)
                 else None;
      Answered(FirstOutcome(own, FrozenTryTable(r.table, ctx, r.strictSlash)))
  }

  // ---------------------------------------------------------------- parity

  /** No pattern that can be registered fits across a wide gap of the path. */
  ghost predicate PathOk(path: string) {
    SegmentedPath(path, path);
    NoneFits(Segment(path, path), MAX_PATH_LENGTH)
  }

  lemma NoneFitsIgnoresRaw(path: string, raw: string)
    requires PathOk(path) && |raw| == |path|
    ensures Segmented(Segment(path, raw)) && NoneFits(Segment(path, raw), MAX_PATH_LENGTH)
  {
    SegmentedPath(path, path);
    SegmentedPath(path, raw);
    var a, b := Segment(path, path), Segment(path, raw);
    forall k: nat | WideAt(b, k)
      ensures Shortest(b.parts, k) > MAX_PATH_LENGTH
    {
      assert WideAt(a, k);
    }
  }

  lemma RootNoSpan(t: RouteTable, m: string, path: string, raw: string)
    requires RootsOk(t) && m in t.roots && PathOk(path) && |raw| == |path|
    ensures Segmented(Segment(path, raw)) && NoSpan(t.roots[m], Segment(path, raw), 0)
  {
    NoneFitsIgnoresRaw(path, raw);
    forall q | Lookup(t.roots[m], q).Some?
      ensures !SpansFrom(q, Segment(path, raw), 0)
    {
      var leaf := Lookup(t.roots[m], q).value;
      assert LeafOk(q, leaf);
      CanonicalDotFree(leaf.pattern);
      CanonicalLength(leaf.pattern);
      ShortSpansNothing(q, Segment(path, raw), MAX_PATH_LENGTH);
    }
  }

  lemma ServeMethodParity(t: RouteTable, m: string, path: string, raw: string)
    requires RootsOk(t) && |raw| == |path| && PathOk(path)
    ensures FrozenServeMethod(FreezeTable(t), m, path, raw) == ServeMethod(t, m, path, raw)
  {
    SegmentedPath(path, raw);
    if m in t.roots {
      RootNoSpan(t, m, path, raw);
      FreezeParity(t.roots[m], Segment(path, raw));
    }
  }

  lemma ServeParity(t: RouteTable, m: string, path: string, raw: string)
    requires RootsOk(t) && |raw| == |path| && PathOk(path)
    ensures FrozenServeInTable(FreezeTable(t), m, path, raw) == ServeInTable(t, m, path, raw)
  {
    ServeMethodParity(t, HEAD, path, raw);
    ServeMethodParity(t, GET, path, raw);
    ServeMethodParity(t, m, path, raw);
  }

  lemma HitParity(t: RouteTable, m: string, path: string)
    requires RootsOk(t) && PathOk(path) && m in t.roots
    ensures FrozenMatches(FreezeTable(t).roots[m], path) <==> TrieMatches(t.roots[m], path)
  {
    RootNoSpan(t, m, path, path);
    FreezeParity(t.roots[m], Segment(path, path));
  }

  lemma FoundParity(t: RouteTable, path: string)
    requires RootsOk(t) && PathOk(path) && t.anyParams
    ensures FrozenFound(FreezeTable(t), path) == Found(t, path)
  {
    var f := FreezeTable(t);
    assert FrozenSearched(f) == Searched(t);
    var hits := set m | m in FrozenSearched(f) && FrozenMatches(f.roots[m], path);
    forall m
      ensures m in hits <==> m in TrieHits(t, path)
    {
      if m in t.roots {
        HitParity(t, m, path);
      }
    }
  }

  lemma AllowedParity(t: RouteTable, path: string)
    requires RootsOk(t) && PathOk(path)
    ensures FrozenAllowed(FreezeTable(t), path) == AllowedInTable(t, path)
  {
    if t.anyParams {
      FoundParity(t, path);
    }
  }

  lemma TableParity(t: RouteTable, ctx: Context, strict: bool)
    requires TableOk(t) && PathOk(ctx.MatchPath())
    ensures FrozenTryTable(FreezeTable(t), ctx, strict) == TryTable(t, ctx, strict)
  {
    var path := ctx.MatchPath();
    ServeParity(t, ctx.method_, path, ctx.paramPath);
    AllowedParity(t, path);
    AlternateFolds(ctx);
    if AlternatePath(path).Some? {
      var alt := AlternatePath(path).value;
      AlternateKeepsOk(path, alt);
      AllowedParity(t, alt);
      ServeParity(t, ctx.method_, alt, AlternatePath(ctx.paramPath).value);
    }
  }

  /** Two paths with segments of the same lengths at the same places, literal alike. */
  ghost predicate SameGaps(a: PathSegments, b: PathSegments) {
    && Segmented(a) && Segmented(b) && a.indices[..|a.parts|] == b.indices[..|b.parts|] && |a.parts| == |b.parts|
    && forall i | 0 <= i < |a.parts| ::
         |a.parts[i]| == |b.parts[i]| && (IsLiteral(a.parts[i]) <==> IsLiteral(b.parts[i]))
  }

  lemma {:induction false} SameFrontCost(a: PathSegments, b: PathSegments, k: nat)
    requires SameGaps(a, b) && k <= |a.parts|
    ensures FrontCost(a.parts, k) == FrontCost(b.parts, k)
  {
    if k > 0 {
      SameFrontCost(a, b, k - 1);
    }
  }

  lemma SameGapsSameFits(a: PathSegments, b: PathSegments, limit: nat)
    requires SameGaps(a, b) && NoneFits(a, limit)
    ensures NoneFits(b, limit)
  {
    forall k: nat | WideAt(b, k)
      ensures Shortest(b.parts, k) > limit
    {
      assert a.indices[..|a.parts|][k] == b.indices[..|b.parts|][k];
      assert a.indices[..|a.parts|][k + 1] == b.indices[..|b.parts|][k + 1];
      assert WideAt(a, k);
      SameFrontCost(a, b, k);
    }
  }

  /** Toggling the trailing slash changes nothing about the gaps. */
  lemma AlternateKeepsOk(p: string, q: string)
    requires AlternatePath(p) == Some(q) && PathOk(p)
    ensures PathOk(q)
  {
    AlternateKeepsSegments(p, q);
    SegmentedPath(p, p);
    SegmentedPath(q, q);
    SameGapsSameFits(Segment(p, p), Segment(q, q), MAX_PATH_LENGTH);
  }

  /** Neither does folding its case. */
  lemma LowerKeepsOk(p: string)
    requires PathOk(p)
    ensures PathOk(Lower(p))
  {
    LowerParts(p, 0);
    SegmentedPath(p, p);
    SegmentedPath(Lower(p), Lower(p));
    var a, b := Segment(p, p), Segment(Lower(p), Lower(p));
    forall i | 0 <= i < |a.parts|
      ensures |a.parts[i]| == |b.parts[i]| && (IsLiteral(a.parts[i]) <==> IsLiteral(b.parts[i]))
    {
      DotsHaveNoCase(a.parts[i]);
    }
    SameGapsSameFits(a, b, MAX_PATH_LENGTH);
  }

  /** A cleaned request path has no wide gap at all; only a raw path can have one. */
  lemma CleanedPathOk(p: string)
    requires CleanPath(p) == p
    ensures PathOk(p)
  {
    CleanHasSingleGaps(p);
  }

  /**
   Whole-dispatch parity: freezing a router changes the outcome of no request, provided that no
   registrable pattern fits across a wide gap of the raw path, when one is used.
   */
  lemma FreezeKeepsOutcome(r: Router, req: Request)
    requires RouterOk(r)
    requires UsesRaw(req, r.useRawPath) ==> PathOk(req.rawPath)
    ensures FrozenServeHTTP(Freeze(r), req) == ServeHTTP(r, req)
  {
    var prepared := Prepare(req, r.useRawPath, IgnoreCaseActive(r));
    if prepared.Go? {
      PreparedPathOk(r, req);
      TableParity(r.table, prepared.ctx, r.strictSlash);
      if req.host != "" && req.host in r.hosts {
        TableParity(r.hosts[req.host], prepared.ctx, r.strictSlash);
      }
      AnswersOfTables(r, req, prepared.ctx);
    }
  }

  /** Equal answers of the tables make equal outcomes. */
  lemma AnswersOfTables(r: Router, req: Request, ctx: Context)
    requires Prepare(req, r.useRawPath, IgnoreCaseActive(r)) == Go(ctx)
    requires FrozenTryTable(FreezeTable(r.table), ctx, r.strictSlash) == TryTable(r.table, ctx, r.strictSlash)
    requires req.host != "" && req.host in r.hosts ==>
               FrozenTryTable(FreezeTable(r.hosts[req.host]), ctx, r.strictSlash) ==
                 TryTable(r.hosts[req.host], ctx, r.strictSlash)
    ensures FrozenServeHTTP(Freeze(r), req) == ServeHTTP(r, req)
  {
  }

  /** The path that the tables are asked for is no worse. */
  lemma PreparedPathOk(r: Router, req: Request)
    requires UsesRaw(req, r.useRawPath) ==> PathOk(req.rawPath)
    requires Prepare(req, r.useRawPath, IgnoreCaseActive(r)).Go?
    ensures PathOk(Prepare(req, r.useRawPath, IgnoreCaseActive(r)).ctx.MatchPath())
  {
    var ctx := Prepare(req, r.useRawPath, IgnoreCaseActive(r)).ctx;
    if !UsesRaw(req, r.useRawPath) {
      CleanedPathOk(req.path);
    }
    if ctx.folded {
      LowerKeepsOk(ctx.paramPath);
    }
  }
}

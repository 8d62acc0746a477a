/**
 Registration on the whole router (`Router.handle`): validation, the case-folding latch, the host
 tables, and what holds after any run of registrations.
 */
module Registration {
  import opened Base
  import opened Segments
  import opened Paths
  import opened Trie
  import opened Routes
  import opened Table
  import opened Dispatch

  datatype HandleError =
    | NilHandler | UnsupportedMethod | NonCanonical | PatternTooLong | InvalidPattern | RouteTooDeep | BadParamNames
    | Rejected(error: InsertError)

  datatype Handled = Handled(router: Router, error: Option<HandleError>)

  predicate IsValidMethod(m: string) {
    m != "" && forall c <- m :: !(c <= ' ' || c == '\U{7f}')
  }

  /** The checks of handle that look at the arguments only. */
  ghost function ArgumentError(m: string, pattern: string, handler: Option<Handler>): Option<HandleError> {
    if handler.None? then Some(HandleError.NilHandler)
    else if !IsValidMethod(m) then Some(UnsupportedMethod)
    else if CleanPath(pattern) != pattern then Some(NonCanonical)
    else if |pattern| > MAX_PATH_LENGTH then Some(PatternTooLong)
    else if HasControl(pattern) then Some(InvalidPattern)
    else if |Parts(pattern, 0)| > MAX_DEPTH then Some(RouteTooDeep)
    else if !ValidNames(Parts(pattern, 0)) then Some(BadParamNames)
    else None
  }

  /** lockIgnoreCase: the first registration that gets this far fixes the case sensitivity. */
  function LockIgnoreCase(r: Router): Router {
    if r.ignoreCaseSet then r else r.(ignoreCaseSet := true, ignoreCaseEnabled := r.ignoreCase)
  }

  function FoldPart(part: string): string {
    if IsDynamic(part) then part else Lower(part)
  }

  function FoldParts(parts: seq<string>): (r: seq<string>)
    ensures |r| == |parts| && forall i | 0 <= i < |parts| :: r[i] == FoldPart(parts[i])
  {
    seq(|parts|, i requires 0 <= i < |parts| => FoldPart(parts[i]))
  }

  /** The route inserted for a pattern: static segments folded when the router ignores case. */
  function RouteFor(pattern: string, handler: Handler, fold: bool): Route {
    if fold then
      var parts := FoldParts(Parts(pattern, 0));
      Route(parts, Built(parts, HasTrailingSlash(pattern)), handler)
    else Route(Parts(pattern, 0), pattern, handler)
  }

  function WithTable(r: Router, host: string, t: RouteTable): Router {
    if host == "" then r.(table := t) else r.(hosts := r.hosts[host := t])
  }

  /** The part of handle under the lock, for a validated route. */
  ghost function Store(r: Router, host: string, m: string, route: Route): Handled {
    var update := TableInsert(TableAt(r, host), m, route);
    var r' := WithTable(r, host, update.table);
    if update.error.Some? then Handled(r', Some(Rejected(update.error.value)))
    else Handled(r'.(routesCount := r.routesCount + 1), None)
  }

  ghost function Handle(r: Router, host: string, m: string, pattern: string, handler: Option<Handler>): Handled {
    var bad := ArgumentError(m, pattern, handler);
    if bad.Some? then Handled(r, bad)
    else
      var locked := LockIgnoreCase(r);
      Store(locked, host, m, RouteFor(pattern, handler.value, locked.ignoreCaseEnabled))
  }

  // ---------------------------------------------------------------- validated patterns

  lemma PartsSanitary(pattern: string)
    requires !HasControl(pattern)
    ensures forall i | 0 <= i < |Parts(pattern, 0)| :: Sanitary(Parts(pattern, 0)[i])
  {
    SuffixRuns(pattern, 0);
    var parts, starts := Parts(pattern, 0), Starts(pattern, 0);
    forall i | 0 <= i < |parts|
      ensures Sanitary(parts[i])
    {
      PartSanitary(pattern, parts[i], starts[i]);
    }
  }

  lemma FoldPartFacts(part: string)
    requires Sanitary(part)
    ensures Sanitary(FoldPart(part)) && |FoldPart(part)| == |part|
    ensures IsDynamic(FoldPart(part)) <==> IsDynamic(part)
    ensures IsDynamic(part) ==> FoldPart(part) == part
    ensures IsWild(FoldPart(part)) <==> IsWild(part)
  {
    var f := FoldPart(part);
    forall c <- f
      ensures c != '/' && !IsControl(c)
    {
      var i :| 0 <= i < |f| && f[i] == c;
      assert part[i] in part;
    }
  }

  /**
   What handle inserts is a valid route whose stored pattern splits into its own segments: those of the
   pattern, the literal ones in lower case when case is ignored.
   */
  lemma RouteForRegistrable(m: string, pattern: string, handler: Handler, fold: bool)
    requires ArgumentError(m, pattern, Some(handler)).None?
    ensures Registrable(RouteFor(pattern, handler, fold))
    ensures var parts, stored := Parts(pattern, 0), RouteFor(pattern, handler, fold).parts;
            && |stored| == |parts| && (!fold ==> RouteFor(pattern, handler, fold).pattern == pattern)
            && forall i | 0 <= i < |parts| ::
                 stored[i] == if fold && !IsDynamic(parts[i]) then Lower(parts[i]) else parts[i]
  {
    PartsSanitary(pattern);
    if fold {
      FoldedRegistrable(pattern, handler);
    } else {
      var parts := Parts(pattern, 0);
      assert forall i | 0 <= i < |parts| :: ValidPart(parts[i]);
    }
  }

  lemma FoldedRegistrable(pattern: string, handler: Handler)
    requires (forall i | 0 <= i < |Parts(pattern, 0)| :: Sanitary(Parts(pattern, 0)[i]))
    requires CleanPath(pattern) == pattern
    requires ValidNames(Parts(pattern, 0)) && |Parts(pattern, 0)| <= MAX_DEPTH && |pattern| <= MAX_PATH_LENGTH
    ensures Registrable(RouteFor(pattern, handler, true))
  {
    var parts := FoldParts(Parts(pattern, 0));
    FoldedValid(Parts(pattern, 0));
    FoldedDotFree(pattern);
    CanonicalEnd(pattern);
    FoldedPatternOk(parts, HasTrailingSlash(pattern));
    FoldedLength(pattern);
  }

  lemma {:induction false} FoldKeepsLength(parts: seq<string>)
    ensures Length(FoldParts(parts)) == Length(parts)
  {
    if parts != [] {
      var init := parts[..|parts| - 1];
      FoldKeepsLength(init);
      assert FoldParts(parts)[..|parts| - 1] == FoldParts(init);
    }
  }

  /** The folded pattern is as long as the original one. */
  lemma FoldedLength(pattern: string)
    requires CleanPath(pattern) == pattern
    ensures |Built(FoldParts(Parts(pattern, 0)), HasTrailingSlash(pattern))| == |pattern|
  {
    var parts, trailing := Parts(pattern, 0), HasTrailingSlash(pattern);
    CleanIsBuilt(pattern);
    FoldKeepsLength(parts);
    LengthIsBuilt(parts);
    LengthIsBuilt(FoldParts(parts));
    BuiltShape(parts, trailing);
    BuiltShape(FoldParts(parts), trailing);
  }

  /** Folding keeps a list of segments valid. */
  lemma FoldedValid(parts: seq<string>)
    requires (forall i | 0 <= i < |parts| :: Sanitary(parts[i])) && ValidNames(parts)
    ensures ValidParts(FoldParts(parts)) && DistinctNames(FoldParts(parts))
    ensures forall i | 0 <= i < |parts| :: Sanitary(FoldParts(parts)[i])
  {
    var folded := FoldParts(parts);
    forall i | 0 <= i < |parts|
      ensures ValidPart(folded[i]) && (IsDynamic(folded[i]) ==> folded[i] == parts[i] && IsDynamic(parts[i]))
      ensures IsWild(folded[i]) <==> IsWild(parts[i])
    {
      FoldPartFacts(parts[i]);
    }
  }

  lemma FoldedDotFree(pattern: string)
    requires CleanPath(pattern) == pattern
    ensures DotFree(FoldParts(Parts(pattern, 0)))
  {
    CanonicalDotFree(pattern);
    var parts := Parts(pattern, 0);
    forall i | 0 <= i < |parts|
      ensures FoldPart(parts[i]) != "." && FoldPart(parts[i]) != ".."
    {
      DotsHaveNoCase(parts[i]);
    }
  }

  /** A canonical pattern without segments is "/". */
  lemma CanonicalEnd(pattern: string)
    requires CleanPath(pattern) == pattern
    ensures Parts(pattern, 0) == [] ==> pattern == "/"
    ensures HasTrailingSlash(pattern) ==> Parts(pattern, 0) != []
  {
    CanonicalResolves(pattern);
  }

  lemma FoldedPatternOk(parts: seq<string>, trailing: bool)
    requires (forall i | 0 <= i < |parts| :: Sanitary(parts[i])) && DotFree(parts) && (trailing ==> parts != [])
    ensures Parts(Built(parts, trailing), 0) == parts && !HasControl(Built(parts, trailing))
    ensures CleanPath(Built(parts, trailing)) == Built(parts, trailing)
  {
    forall p <- parts
      ensures SlashFree(p) && Sanitary(p)
    {
      assert forall i | 0 <= i < |p| :: p[i] in p;
    }
    BuiltParts(parts, trailing);
    BuiltIsCanonical(parts, trailing);
    JoinHasNoControl(parts);
    BuiltHasNoControl(parts, trailing);
  }

  lemma BuiltHasNoControl(parts: seq<string>, trailing: bool)
    requires !HasControl(Join(parts))
    ensures !HasControl(Built(parts, trailing))
  {
    var s, j := Built(parts, trailing), Join(parts);
    assert s == "/" + (j + if trailing then "/" else "");
    assert forall i | 0 < i < |s| :: s[i] == if i - 1 < |j| then j[i - 1] else '/';
  }

  // ---------------------------------------------------------------- invariants over runs

  lemma StoreKeepsRouter(r: Router, host: string, m: string, route: Route)
    requires RouterOk(r) && Registrable(route)
    ensures RouterOk(Store(r, host, m, route).router)
  {
    NewTableOk();
    InsertKeepsTable(TableAt(r, host), m, route);
    WithTableOk(r, host, TableInsert(TableAt(r, host), m, route).table);
  }

  lemma WithTableOk(r: Router, host: string, t: RouteTable)
    requires RouterOk(r) && TableOk(t)
    ensures RouterOk(WithTable(r, host, t))
  {
  }

  lemma HandleKeepsRouter(r: Router, host: string, m: string, pattern: string, handler: Option<Handler>)
    requires RouterOk(r)
    ensures RouterOk(Handle(r, host, m, pattern, handler).router)
  {
    if ArgumentError(m, pattern, handler).None? {
      var locked := LockIgnoreCase(r);
      RouteForRegistrable(m, pattern, handler.value, locked.ignoreCaseEnabled);
      StoreKeepsRouter(locked, host, m, RouteFor(pattern, handler.value, locked.ignoreCaseEnabled));
    }
  }

  lemma RejectedStoreChangesNothing(r: Router, host: string, m: string, route: Route)
    requires RouterOk(r) && Registrable(route) && Store(r, host, m, route).error.Some?
    ensures Store(r, host, m, route).router == r
  {
    NewTableOk();
    FailedInsertKeepsTable(TableAt(r, host), m, route);
    if host != "" && host !in r.hosts {
      EmptyTableAccepts(m, route);
    }
    WithSameTable(r, host);
  }

  lemma WithSameTable(r: Router, host: string)
    ensures host == "" || host in r.hosts ==> WithTable(r, host, TableAt(r, host)) == r
  {
  }

  /** A rejected registration changes nothing but, at most, the latch. */
  lemma RejectedHandleChangesNothing(r: Router, host: string, m: string, pattern: string, handler: Option<Handler>)
    requires RouterOk(r) && Handle(r, host, m, pattern, handler).error.Some?
    ensures var r' := Handle(r, host, m, pattern, handler).router;
            r' == r || r' == LockIgnoreCase(r)
  {
    if ArgumentError(m, pattern, handler).None? {
      var locked := LockIgnoreCase(r);
      RouteForRegistrable(m, pattern, handler.value, locked.ignoreCaseEnabled);
      RejectedStoreChangesNothing(locked, host, m, RouteFor(pattern, handler.value, locked.ignoreCaseEnabled));
    }
  }

  lemma EmptyTableAccepts(m: string, route: Route)
    requires Registrable(route)
    ensures TableInsert(NEW_TABLE, m, route).error.None?
  {
    RegisterCharacterised(EMPTY_ROOT, route);
    forall q
      ensures Lookup(EMPTY_ROOT, q).None?
    {
      EmptyStoresNothing("", q);
    }
  }

  lemma StoreKeepsLatch(r: Router, host: string, m: string, route: Route)
    ensures var r' := Store(r, host, m, route).router;
            && r'.ignoreCaseSet == r.ignoreCaseSet && r'.ignoreCaseEnabled == r.ignoreCaseEnabled
            && r'.ignoreCase == r.ignoreCase
  {
    WithTableKeepsLatch(r, host, TableInsert(TableAt(r, host), m, route).table);
  }

  lemma WithTableKeepsLatch(r: Router, host: string, t: RouteTable)
    ensures var r' := WithTable(r, host, t);
            && r'.ignoreCaseSet == r.ignoreCaseSet && r'.ignoreCaseEnabled == r.ignoreCaseEnabled
            && r'.ignoreCase == r.ignoreCase
  {
  }

  /** Once set, the latch never changes; setting it keeps the case sensitivity in force. */
  lemma LatchNeverChanges(r: Router, host: string, m: string, pattern: string, handler: Option<Handler>)
    ensures var r' := Handle(r, host, m, pattern, handler).router;
            && IgnoreCaseActive(r') == IgnoreCaseActive(r)
            && (r.ignoreCaseSet ==> r'.ignoreCaseSet && r'.ignoreCaseEnabled == r.ignoreCaseEnabled)
            && (Handle(r, host, m, pattern, handler).error.None? ==> r'.ignoreCaseSet)
  {
    if ArgumentError(m, pattern, handler).None? {
      var locked := LockIgnoreCase(r);
      StoreKeepsLatch(locked, host, m, RouteFor(pattern, handler.value, locked.ignoreCaseEnabled));
    }
  }

  datatype Attempt = Attempt(host: string, method_: string, pattern: string, handler: Option<Handler>)

  ghost function HandleAll(r: Router, attempts: seq<Attempt>): Router
    decreases |attempts|
  {
    if attempts == [] then r
    else HandleAll(Handle(r, attempts[0].host, attempts[0].method_, attempts[0].pattern, attempts[0].handler).router,
         attempts[1..])
  }

  function NewRouter(ignoreCase: bool, strictSlash: bool, useRawPath: bool): Router {
    Router(NEW_TABLE, map[], 0, false, false, ignoreCase, strictSlash, useRawPath)
  }

  lemma {:induction false} RunKeepsRouter(r: Router, attempts: seq<Attempt>)
    requires RouterOk(r)
    ensures RouterOk(HandleAll(r, attempts))
    decreases |attempts|
  {
    if attempts != [] {
      var a := attempts[0];
      HandleKeepsRouter(r, a.host, a.method_, a.pattern, a.handler);
      RunKeepsRouter(Handle(r, a.host, a.method_, a.pattern, a.handler).router, attempts[1..]);
    }
  }

  /**
   After any run of registrations every table's static index, Allow cache and flags are right, so the
   theorems on tables and dispatch apply to every router a program can build.
   */
  lemma ReachableRouterOk(ignoreCase: bool, strictSlash: bool, useRawPath: bool, attempts: seq<Attempt>)
    ensures RouterOk(HandleAll(NewRouter(ignoreCase, strictSlash, useRawPath), attempts))
  {
    NewTableOk();
    RunKeepsRouter(NewRouter(ignoreCase, strictSlash, useRawPath), attempts);
  }
}

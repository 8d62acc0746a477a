/**
 The calls of the request specification and the routes that registration stores for them: folding a
 pattern changes neither what it clashes with, nor what it covers, nor what it captures.
 */
module RequestRoutes {
  import opened Segments
  import opened Paths
  import opened Trie
  import opened Routes
  import opened Search
  import opened Table
  import opened Dispatch
  import opened Registration
  import opened RouterRuns
  import opened CaseFolding
  import opened RequestSpec
  import opened RequestText

  // ---------------------------------------------------------------- one call, one route

  ghost function RouteOf(a: Attempt, fold: bool): Route
    requires a.handler.Some?
  {
    RouteFor(a.pattern, a.handler.value, fold)
  }

  function StoredParts(parts: seq<string>, fold: bool): (r: seq<string>)
    ensures |r| == |parts|
  {
    if fold then FoldParts(parts) else parts
  }

  /** The segments of the path that is compared. */
  function KeyParts(parts: seq<string>, fold: bool): (r: seq<string>)
    ensures |r| == |parts|
  {
    if fold then LowerAll(parts) else parts
  }

  lemma KeySegments(path: string, fold: bool)
    ensures Parts(Key(path, fold), 0) == KeyParts(Parts(path, 0), fold)
    ensures Starts(Key(path, fold), 0) == Starts(path, 0)
  {
    if fold {
      LowerParts(path, 0);
      assert Parts(Lower(path), 0) == LowerAll(Parts(path, 0));
    }
  }

  lemma StoredPart(part: string, fold: bool)
    ensures var s := if fold then FoldPart(part) else part;
            && (IsDynamic(s) <==> IsDynamic(part)) && (IsDynamic(part) ==> s == part)
            && (IsWild(s) <==> IsWild(part)) && (IsParam(s) <==> IsParam(part))
            && (!IsDynamic(part) ==> s == Key(part, fold))
  {
  }

  lemma StoredAt(parts: seq<string>, fold: bool, i: nat)
    requires i < |parts|
    ensures var s := StoredParts(parts, fold)[i];
            && (IsDynamic(s) <==> IsDynamic(parts[i])) && (IsDynamic(parts[i]) ==> s == parts[i])
            && (IsWild(s) <==> IsWild(parts[i])) && (IsParam(s) <==> IsParam(parts[i]))
            && (!IsDynamic(parts[i]) ==> s == Key(parts[i], fold))
  {
    StoredPart(parts[i], fold);
  }

  lemma StoredTail(parts: seq<string>, fold: bool)
    requires parts != []
    ensures StoredParts(parts, fold)[1..] == StoredParts(parts[1..], fold)
  {
  }

  /** A literal pattern is stored under its folded text. */
  lemma LiteralStored(a: Attempt, fold: bool)
    requires GoodCall(a) && !HasDynamic(a)
    ensures RouteOf(a, fold).pattern == Key(a.pattern, fold)
  {
    if fold {
      var parts := Parts(a.pattern, 0);
      CanonicalExactly(a.pattern);
      CleanIsBuilt(a.pattern);
      assert FoldParts(parts) == LowerAll(parts) by {
        assert forall i | 0 <= i < |parts| :: !IsDynamic(parts[i]);
      }
      BuiltFolds(parts, HasTrailingSlash(a.pattern));
    }
  }

  lemma BuiltFolds(parts: seq<string>, trailing: bool)
    ensures Built(LowerAll(parts), trailing) == Lower(Built(parts, trailing))
  {
    JoinFolds(parts);
    BuiltShape(parts, trailing);
    BuiltShape(LowerAll(parts), trailing);
    LowerConcat("/", Join(parts));
    LowerConcat(Built(parts, false), "/");
  }

  lemma RouteFacts(a: Attempt, fold: bool)
    requires GoodCall(a)
    ensures var r := RouteOf(a, fold);
            && Registrable(r) && r.handler == a.handler.value && r.parts == StoredParts(Parts(a.pattern, 0), fold)
            && (AnyDynamic(r.parts) <==> HasDynamic(a))
            && (HasTrailingSlash(r.pattern) <==> |a.pattern| > 1 && EndsInSlash(a.pattern))
  {
    GoodCallExactly(a);
    RouteForRegistrable(a.method_, a.pattern, a.handler.value, fold);
    StoredDynamic(Parts(a.pattern, 0), fold);
    RouteSlash(a, fold);
  }

  lemma StoredDynamic(parts: seq<string>, fold: bool)
    ensures AnyDynamic(StoredParts(parts, fold)) <==> AnyDynamic(parts)
  {
    forall i | 0 <= i < |parts|
      ensures IsDynamic(StoredParts(parts, fold)[i]) <==> IsDynamic(parts[i])
    {
      StoredAt(parts, fold, i);
    }
  }

  lemma RouteSlash(a: Attempt, fold: bool)
    requires GoodCall(a) && Registrable(RouteOf(a, fold))
    ensures HasTrailingSlash(RouteOf(a, fold).pattern) <==> |a.pattern| > 1 && EndsInSlash(a.pattern)
  {
    if fold {
      CanonicalExactly(a.pattern);
      CanonicalEnd(a.pattern);
      FoldedSlash(FoldParts(Parts(a.pattern, 0)), HasTrailingSlash(a.pattern), RouteOf(a, fold));
    }
  }

  lemma FoldedSlash(parts: seq<string>, trailing: bool, r: Route)
    requires Registrable(r) && r.parts == parts && r.pattern == Built(parts, trailing) && (trailing ==> parts != [])
    ensures HasTrailingSlash(r.pattern) <==> trailing
  {
    PartsSlashFree(r.pattern);
    BuiltSlash(parts, trailing);
    BuiltEnd(parts);
    BuiltShape(parts, trailing);
    if parts == [] {
      assert Built(parts, false) == "/";
    }
  }

  // ---------------------------------------------------------------- clashes

  lemma {:induction false} ClashesExactly(p: seq<string>, q: seq<string>, fold: bool)
    ensures Clashes(p, q, fold) <==> Conflict(StoredParts(p, fold), StoredParts(q, fold))
    decreases |p|
  {
    if p != [] && q != [] {
      StoredAt(p, fold, 0);
      StoredAt(q, fold, 0);
      StoredTail(p, fold);
      StoredTail(q, fold);
      SameTextByKey(p[0], q[0], fold);
      ClashesExactly(p[1..], q[1..], fold);
    }
  }

  // ---------------------------------------------------------------- accepted calls

  /** One route for each call, in the same order. */
  ghost predicate Mirrors(routes: seq<Route>, calls: seq<Attempt>, fold: bool) {
    |routes| == |calls| && forall i | 0 <= i < |calls| :: GoodCall(calls[i]) && routes[i] == RouteOf(calls[i], fold)
  }

  lemma MirroredRoute(routes: seq<Route>, calls: seq<Attempt>, fold: bool, r: Route) returns (a: Attempt)
    requires Mirrors(routes, calls, fold) && r in routes
    ensures a in calls && GoodCall(a) && r == RouteOf(a, fold)
  {
    var i :| 0 <= i < |routes| && routes[i] == r;
    a := calls[i];
  }

  lemma MirroredCall(routes: seq<Route>, calls: seq<Attempt>, fold: bool, a: Attempt)
    requires Mirrors(routes, calls, fold) && a in calls
    ensures GoodCall(a) && RouteOf(a, fold) in routes
  {
    var i :| 0 <= i < |calls| && calls[i] == a;
    assert routes[i] in routes;
  }

  lemma ClashesWithExactly(routes: seq<Route>, calls: seq<Attempt>, fold: bool, a: Attempt)
    requires Mirrors(routes, calls, fold) && GoodCall(a)
    ensures ClashesWith(calls, a, fold) <==> exists r :: r in routes && Conflict(RouteOf(a, fold).parts, r.parts)
  {
    RouteFacts(a, fold);
    if ClashesWith(calls, a, fold) {
      var b :| b in calls && Clashes(Parts(a.pattern, 0), Parts(b.pattern, 0), fold);
      MirroredCall(routes, calls, fold, b);
      RouteFacts(b, fold);
      ClashesExactly(Parts(a.pattern, 0), Parts(b.pattern, 0), fold);
      assert Conflict(RouteOf(a, fold).parts, RouteOf(b, fold).parts);
    }
    if r :| r in routes && Conflict(RouteOf(a, fold).parts, r.parts) {
      var b := MirroredRoute(routes, calls, fold, r);
      RouteFacts(b, fold);
      ClashesExactly(Parts(a.pattern, 0), Parts(b.pattern, 0), fold);
    }
  }

  /** The accepted calls are those whose routes are accepted. */
  lemma {:induction false} TakenIsAccepted(attempts: seq<Attempt>, host: string, m: string, fold: bool)
    ensures Mirrors(Accepted(RoutesFor(attempts, host, m, fold)), Taken(attempts, host, m, fold), fold)
    decreases |attempts|
  {
    if attempts != [] {
      var init, a := attempts[..|attempts| - 1], attempts[|attempts| - 1];
      TakenIsAccepted(init, host, m, fold);
      GoodCallExactly(a);
      var routes, calls := RoutesFor(init, host, m, fold), Taken(init, host, m, fold);
      if PassesTo(a, host, m) {
        OneMoreTaken(routes, calls, a, fold);
      } else {
        assert routes + [] == routes;
      }
    }
  }

  lemma OneMoreTaken(routes: seq<Route>, calls: seq<Attempt>, a: Attempt, fold: bool)
    requires Mirrors(Accepted(routes), calls, fold) && GoodCall(a)
    ensures var more := if ClashesWith(calls, a, fold) then calls else calls + [a];
            Mirrors(Accepted(routes + [RouteOf(a, fold)]), more, fold)
  {
    ClashesWithExactly(Accepted(routes), calls, fold, a);
    BuildSnoc(routes, RouteOf(a, fold));
  }

  // ---------------------------------------------------------------- what a pattern covers

  lemma {:induction false} CoversExactly(p: seq<string>, parts: seq<string>, fold: bool)
    ensures Covers(p, parts, fold) <==> Matches(StoredParts(p, fold), KeyParts(parts, fold))
    decreases |p|
  {
    if p != [] {
      StoredAt(p, fold, 0);
      StoredTail(p, fold);
      if parts != [] {
        SameTextByKey(p[0], parts[0], fold);
        assert KeyParts(parts, fold)[0] == Key(parts[0], fold);
        assert KeyParts(parts, fold)[1..] == KeyParts(parts[1..], fold);
        LiteralFirst(p[0], parts[0], fold);
        CoversExactly(p[1..], parts[1..], fold);
      }
    }
  }

  /** A path segment equals a stored one only where that is a literal, or a dynamic one word for word. */
  lemma LiteralFirst(part: string, seg: string, fold: bool)
    ensures !IsDynamic(part) ==>
              ((if fold then FoldPart(part) else part) == Key(seg, fold) <==> SameText(part, seg, fold))
  {
    SameTextByKey(part, seg, fold);
  }

  lemma {:induction false} BetterStored(p: seq<string>, q: seq<string>, fold: bool)
    ensures Better(StoredParts(p, fold), StoredParts(q, fold)) <==> Better(p, q)
    decreases |p|
  {
    if p != [] && q != [] {
      StoredAt(p, fold, 0);
      StoredAt(q, fold, 0);
      StoredTail(p, fold);
      StoredTail(q, fold);
      BetterStored(p[1..], q[1..], fold);
    }
  }

  // ---------------------------------------------------------------- what it captures

  /** The bindings of a stored pattern are cut from the original path. */
  lemma {:induction false} CapturedExactly(p: seq<string>, path: string, fold: bool, i: nat)
    requires i <= |p| && i <= |Parts(path, 0)| && i <= |RequestSegments(path, fold).parts|
    requires forall k | 0 <= k < |p| :: p[k] != "" && (IsWild(p[k]) ==> k == |p| - 1)
    requires Matches(StoredParts(p, fold)[i..], RequestSegments(path, fold).parts[i..])
    ensures Bindings(StoredParts(p, fold)[i..], RequestSegments(path, fold), i) == Captured(p, path, i)
    decreases |p| - i
  {
    var segs, s := RequestSegments(path, fold), StoredParts(p, fold);
    RequestPlaces(path, fold);
    if i < |p| {
      StoredAt(p, fold, i);
      assert s[i..][0] == s[i] && s[i..][1..] == s[i + 1..];
      CapturesKeepCase(path, fold, i);
      StartsMatch(path, fold, i);
      if !IsWild(p[i]) {
        assert segs.parts[i..] != [];
        assert segs.parts[i..][1..] == segs.parts[i + 1..];
        CapturedExactly(p, path, fold, i + 1);
      }
    }
  }

  lemma StartsMatch(path: string, fold: bool, i: nat)
    requires i <= |Parts(path, 0)|
    ensures i < |RequestSegments(path, fold).indices|
    ensures RequestSegments(path, fold).indices[i] == StartOf(path, i) <= |path|
  {
    RequestPlaces(path, fold);
    StartInPath(RequestSegments(path, fold), i);
  }
}

/**
 Which error a rejected registration gets: the kind of conflict with a stored route, which all the
 stored routes it conflicts with agree on.
 */
module Conflicts {
  import opened Base
  import opened Paths
  import opened Trie
  import opened Routes
  import opened Table
  import opened Dispatch
  import opened Registration
  import opened RouterRuns

  /** How a new pattern `p` conflicts with `q`, at the first segment where they differ. */
  function Kind(p: seq<string>, q: seq<string>): Option<InsertError>
    decreases |p|
  {
    if p == [] || q == [] then if p == q then Some(Duplicate) else None
    else if p[0] == q[0] then Kind(p[1..], q[1..])
    else if IsParam(p[0]) && IsParam(q[0]) then Some(ParamNameConflict)
    else if IsWild(p[0]) && IsWild(q[0]) then Some(WildcardNameConflict)
    else if IsParam(p[0]) && IsWild(q[0]) then Some(ParamAgainstWildcard)
    else if IsWild(p[0]) && IsParam(q[0]) then Some(WildcardAgainstParam)
    else None
  }

  /** Every conflict has a kind. */
  lemma {:induction false} KindOfConflict(p: seq<string>, q: seq<string>)
    ensures Conflict(p, q) <==> Kind(p, q).Some?
    decreases |p|
  {
    if p != [] && q != [] && p[0] == q[0] {
      KindOfConflict(p[1..], q[1..]);
    }
  }

  /** The error is the kind of every conflict with a stored route, and there is one such route if there is an error. */
  ghost predicate NamesConflict(n: Node, p: seq<string>, error: Option<InsertError>) {
    && (forall q :: Lookup(n, q).Some? && Kind(p, q).Some? ==> Kind(p, q) == error)
    && (error.Some? ==> exists q :: Lookup(n, q).Some? && Kind(p, q) == error)
  }

  /** A stored route below the child that the segment leads to conflicts as its rest does. */
  lemma KindBelow(n: Node, p: seq<string>, error: Option<InsertError>, depth: nat)
    requires p != [] && WellFormed(n, depth) && ValidPart(p[0]) && ChildError(n, p[0]).None?
    requires ChildForInsert(n, p[0]) == Child(n, p[0])
    requires NamesConflict(Descend(n, p[0]), p[1..], error)
    ensures NamesConflict(n, p, error)
  {
    ChildErrorMeaning(n, p[0], depth);
    forall q | Lookup(n, q).Some? && Kind(p, q).Some?
      ensures Kind(p, q) == error
    {
      assert q != [];
      if q[0] == p[0] {
        DescendLookup(n, p[0], q);
        assert Kind(p[1..], q[1..]) == Kind(p, q);
      }
    }
    if error.Some? {
      var q :| Lookup(Descend(n, p[0]), q).Some? && Kind(p[1..], q) == error;
      assert ([p[0]] + q)[1..] == q;
      DescendLookup(n, p[0], [p[0]] + q);
      assert Kind(p, [p[0]] + q) == error;
    }
  }

  /** A dynamic child in the way decides the kind. */
  lemma KindHere(n: Node, p: seq<string>, depth: nat)
    requires p != [] && WellFormed(n, depth) && ValidPart(p[0]) && ChildError(n, p[0]).Some?
    ensures NamesConflict(n, p, ChildError(n, p[0]))
  {
    var c := if n.param.Some? then n.param.value else n.wild.value;
    var rest: seq<string> := [];
    if n.param.Some? {
      rest := LiveHasRoute(c, depth + 1);
    }
    var r := [c.part] + rest;
    assert r[1..] == rest && Lookup(n, r).Some?;
    assert Kind(p, r) == ChildError(n, p[0]);
    forall q | Lookup(n, q).Some? && Kind(p, q).Some?
      ensures Kind(p, q) == ChildError(n, p[0])
    {
      assert q != [] && Child(n, q[0]).Some?;
    }
  }

  lemma {:induction false} InsertNamesConflict(n: Node, pattern: string, parts: seq<string>, height: nat,
                                               handler: Option<Handler>, hp: bool)
    requires height <= |parts| <= MAX_DEPTH && Reached(n, height, parts) && ValidParts(parts)
    requires pattern != "" && handler.Some?
    ensures NamesConflict(n, parts[height..], Insert(n, pattern, parts, height, handler, hp).error)
    decreases |parts| - height
  {
    var p := parts[height..];
    if height == |parts| {
      DuplicateAtEnd(n);
    } else {
      var part := parts[height];
      assert p[0] == part && p[1..] == parts[height + 1..];
      if ChildError(n, part).Some? {
        KindHere(n, p, height);
      } else {
        ChildErrorMeaning(n, part, height);
        DescendIsChild(n, part, height);
        InsertNamesConflict(Descend(n, part), pattern, parts, height + 1, handler, hp || IsDynamic(part));
        var error := Insert(Descend(n, part), pattern, parts, height + 1, handler, hp || IsDynamic(part)).error;
        KindBelow(n, p, error, height);
      }
    }
  }

  lemma DuplicateAtEnd(n: Node)
    ensures NamesConflict(n, [], if n.pattern != "" then Some(Duplicate) else None)
  {
    assert Lookup(n, []).Some? <==> n.pattern != "";
    assert Kind([], []) == Some(Duplicate);
  }

  /** The error of a registration after any run names the kind of its conflict with an accepted route. */
  lemma RegistrationNamesConflict(attempts: seq<Route>, r: Route)
    requires AllValid(attempts) && ValidRoute(r)
    ensures var error := Register(Build(attempts), r).error;
            && (forall a <- Accepted(attempts) :: Kind(r.parts, a.parts).Some? ==> Kind(r.parts, a.parts) == error)
            && (error.Some? ==> exists a :: a in Accepted(attempts) && Kind(r.parts, a.parts) == error)
  {
    BuildStoresAccepted(attempts);
    assert r.parts[0..] == r.parts;
    InsertNamesConflict(Build(attempts), r.pattern, r.parts, 0, Some(r.handler), AnyDynamic(r.parts));
    forall a <- Accepted(attempts)
      ensures Lookup(Build(attempts), a.parts).Some?
    {
      assert Lookup(Build(attempts), a.parts) == Some(RouteLeaf(a));
    }
  }

  /** Handle reports that error, for the routes of the same host and method. */
  lemma HandleNamesConflict(ignoreCase: bool, strictSlash: bool, useRawPath: bool, attempts: seq<Attempt>, a: Attempt)
    requires ArgumentError(a.method_, a.pattern, a.handler).None?
    ensures var route := RouteFor(a.pattern, a.handler.value, ignoreCase);
            var routes := Accepted(RoutesFor(attempts, a.host, a.method_, ignoreCase));
            var error := Perform(HandleAll(NewRouter(ignoreCase, strictSlash, useRawPath), attempts), a).error;
            && (forall b <- routes :: Kind(route.parts, b.parts).Some? ==>
                  error == Some(Rejected(Kind(route.parts, b.parts).value)))
            && (error.Some? ==>
                  error.value.Rejected? &&
                  exists b :: b in routes && Kind(route.parts, b.parts) == Some(error.value.error))
  {
    RunBuilds(ignoreCase, strictSlash, useRawPath, attempts, a.host, a.method_);
    RoutesForValid(attempts, a.host, a.method_, ignoreCase);
    PerformNamesConflict(HandleAll(NewRouter(ignoreCase, strictSlash, useRawPath), attempts), a,
                         RoutesFor(attempts, a.host, a.method_, ignoreCase), ignoreCase);
  }

  lemma PerformNamesConflict(r: Router, a: Attempt, routes: seq<Route>, fold: bool)
    requires IgnoreCaseActive(r) == fold && ArgumentError(a.method_, a.pattern, a.handler).None?
    requires AllValid(routes) && RootOf(TableAt(r, a.host), a.method_) == Build(routes)
    ensures var route, error := RouteFor(a.pattern, a.handler.value, fold), Perform(r, a).error;
            && (forall b <- Accepted(routes) :: Kind(route.parts, b.parts).Some? ==>
                  error == Some(Rejected(Kind(route.parts, b.parts).value)))
            && (error.Some? ==>
                  error.value.Rejected? &&
                  exists b :: b in Accepted(routes) && Kind(route.parts, b.parts) == Some(error.value.error))
  {
    var route := RouteFor(a.pattern, a.handler.value, fold);
    RouteForRegistrable(a.method_, a.pattern, a.handler.value, fold);
    RegistrationNamesConflict(routes, route);
    StoreReports(LockIgnoreCase(r), a.host, a.method_, route);
    assert TableAt(LockIgnoreCase(r), a.host) == TableAt(r, a.host);
  }

  lemma StoreReports(r: Router, host: string, m: string, route: Route)
    ensures var error := Register(RootOf(TableAt(r, host), m), route).error;
            Store(r, host, m, route).error == if error.Some? then Some(Rejected(error.value)) else None
  {
  }
}

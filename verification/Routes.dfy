/**
 Runs of registrations on one trie: which routes are accepted, what the trie then stores, and why
 neither depends on the order of registration.
 */
module Routes {
  import opened Base
  import opened Segments
  import opened Paths
  import opened Trie

  datatype Route = Route(parts: seq<string>, pattern: string, handler: Handler)

  // ---------------------------------------------------------------- validateParamNames

  ghost predicate DistinctNames(parts: seq<string>) {
    forall i, j | 0 <= i < j < |parts| && IsDynamic(parts[i]) && IsDynamic(parts[j]) :: parts[i][1..] != parts[j][1..]
  }

  ghost predicate ValidNames(parts: seq<string>) {
    && (forall i | 0 <= i < |parts| :: IsWild(parts[i]) ==> i == |parts| - 1)
    && (forall i | 0 <= i < |parts| :: IsDynamic(parts[i]) ==> |parts[i]| > 1)
    && DistinctNames(parts)
  }

  /** validateParamNames: wildcards last, every name non-empty, no name twice. */
  method ValidateParamNames(parts: seq<string>) returns (ok: bool)
    ensures ok <==> ValidNames(parts)
  {
    var seen: set<string> := {};
    for i := 0 to |parts|
      invariant forall k | 0 <= k < i :: IsWild(parts[k]) ==> k == |parts| - 1
      invariant forall k | 0 <= k < i :: IsDynamic(parts[k]) ==> |parts[k]| > 1 && parts[k][1..] in seen
      invariant forall x <- seen :: exists k :: 0 <= k < i && IsDynamic(parts[k]) && parts[k][1..] == x
      invariant DistinctNames(parts[..i])
    {
      var part := parts[i];
      assert parts[..i + 1] == parts[..i] + [part];
      if |part| > 0 {
        if part[0] == '*' && i != |parts| - 1 {
          return false;
        }
        if part[0] == ':' || part[0] == '*' {
          var name := part[1..];
          if name == "" {
            return false;
          }
          if name in seen {
            return false;
          }
          seen := seen + {name};
        }
      }
    }
    assert parts[..|parts|] == parts;
    ok := true;
  }

  ghost predicate ValidRoute(r: Route) {
    && ValidParts(r.parts) && DistinctNames(r.parts)
    && |r.parts| <= MAX_DEPTH && r.pattern != ""
  }

  lemma {:induction false} JoinHasNoControl(parts: seq<string>)
    requires forall p <- parts :: Sanitary(p)
    ensures !HasControl(Join(parts))
  {
    if |parts| == 1 {
      NoControlIn(parts[0]);
    } else if |parts| > 1 {
      NoControlIn(parts[0]);
      JoinHasNoControl(parts[1..]);
      var s, t := Join(parts), Join(parts[1..]);
      assert s == parts[0] + "/" + t;
      forall i | 0 <= i < |s|
        ensures !IsControl(s[i])
      {
        assert s[i] == if i < |parts[0]| then parts[0][i] else if i == |parts[0]| then '/' else t[i - |parts[0]| - 1];
      }
    }
  }

  lemma NoControlIn(p: string)
    requires Sanitary(p)
    ensures !HasControl(p)
  {
    assert forall i | 0 <= i < |p| :: p[i] in p;
  }

  // ---------------------------------------------------------------- registration runs

  const EMPTY_ROOT: Node := EmptyNode("")

  function Register(t: Node, r: Route): Inserted {
    Insert(t, r.pattern, r.parts, 0, Some(r.handler), AnyDynamic(r.parts))
  }

  function RouteLeaf(r: Route): Leaf {
    Leaf(r.pattern, Some(r.handler), AnyDynamic(r.parts))
  }

  /** The trie after a run of attempted registrations, accepted or not. */
  function Build(attempts: seq<Route>): Node {
    if attempts == [] then EMPTY_ROOT
    else Register(Build(attempts[..|attempts| - 1]), attempts[|attempts| - 1]).node
  }

  /** The attempts that conflict with no earlier accepted one. */
  function Accepted(attempts: seq<Route>): seq<Route> {
    if attempts == [] then []
    else
      var before, r := Accepted(attempts[..|attempts| - 1]), attempts[|attempts| - 1];
      if exists a :: a in before && Conflict(r.parts, a.parts) then before else before + [r]
  }

  /** Only what was attempted is accepted. */
  lemma {:induction false} AcceptedAttempted(attempts: seq<Route>)
    ensures forall r <- Accepted(attempts) :: r in attempts
  {
    if attempts != [] {
      AcceptedAttempted(attempts[..|attempts| - 1]);
    }
  }

  ghost predicate AllValid(routes: seq<Route>) {
    forall r <- routes :: ValidRoute(r)
  }

  /** The trie stores exactly these routes. */
  ghost predicate Stores(t: Node, routes: seq<Route>) {
    && (forall r <- routes :: Lookup(t, r.parts) == Some(RouteLeaf(r)))
    && (forall q :: Lookup(t, q).Some? ==> exists r :: r in routes && r.parts == q)
  }

  ghost predicate RootOk(t: Node) {
    WellFormed(t, 0) && t.part == ""
  }

  lemma RegisterCharacterised(t: Node, r: Route)
    requires RootOk(t) && ValidRoute(r)
    ensures var res := Register(t, r);
            && RootOk(res.node)
            && (res.error.Some? <==> Clash(t, r.parts))
            && (res.error.Some? ==> res.node == t)
            && (res.error.None? ==>
               forall q :: Lookup(res.node, q) == if q == r.parts then Some(RouteLeaf(r)) else Lookup(t, q))
  {
    assert r.parts[0..] == r.parts;
    InsertCharacterised(t, r.pattern, r.parts, 0, Some(r.handler), AnyDynamic(r.parts));
  }

  lemma ClashInStore(t: Node, routes: seq<Route>, p: seq<string>)
    requires Stores(t, routes)
    ensures Clash(t, p) <==> exists a :: a in routes && Conflict(p, a.parts)
  {
    if Clash(t, p) {
      var q :| Lookup(t, q).Some? && Conflict(p, q);
      var a :| a in routes && a.parts == q;
    }
    if a :| a in routes && Conflict(p, a.parts) {
      assert Lookup(t, a.parts).Some?;
    }
  }

  lemma StoreOneMore(t: Node, routes: seq<Route>, r: Route)
    requires RootOk(t) && Stores(t, routes) && ValidRoute(r) && Register(t, r).error.None?
    ensures Stores(Register(t, r).node, routes + [r])
  {
    RegisterCharacterised(t, r);
    ClashInStore(t, routes, r.parts);
    var t' := Register(t, r).node;
    forall a <- routes + [r]
      ensures Lookup(t', a.parts) == Some(RouteLeaf(a))
    {
      if a in routes {
        ConflictReflexive(r.parts);
        assert a.parts != r.parts;
      }
    }
    forall q | Lookup(t', q).Some?
      ensures exists a :: a in routes + [r] && a.parts == q
    {
      if q == r.parts {
        assert r in routes + [r];
      } else {
        var a :| a in routes && a.parts == q;
        assert a in routes + [r];
      }
    }
  }

  /** After any run of attempts the trie is well formed and stores exactly the accepted routes. */
  lemma {:induction false} BuildStoresAccepted(attempts: seq<Route>)
    requires AllValid(attempts)
    ensures RootOk(Build(attempts)) && Stores(Build(attempts), Accepted(attempts))
  {
    if attempts != [] {
      var before, r := attempts[..|attempts| - 1], attempts[|attempts| - 1];
      assert ValidRoute(r);
      assert AllValid(before);
      BuildStoresAccepted(before);
      RegisterCharacterised(Build(before), r);
      ClashInStore(Build(before), Accepted(before), r.parts);
      if Register(Build(before), r).error.None? {
        StoreOneMore(Build(before), Accepted(before), r);
      }
    }
  }

  /**
   A registration fails exactly when its pattern conflicts with a route accepted before, and then
   changes nothing.
   */
  lemma RegistrationFailsOnConflict(attempts: seq<Route>, r: Route)
    requires AllValid(attempts) && ValidRoute(r)
    ensures var res := Register(Build(attempts), r);
            && (res.error.Some? <==> exists a :: a in Accepted(attempts) && Conflict(r.parts, a.parts))
            && (res.error.Some? ==> res.node == Build(attempts))
  {
    BuildStoresAccepted(attempts);
    RegisterCharacterised(Build(attempts), r);
    ClashInStore(Build(attempts), Accepted(attempts), r.parts);
  }

  // ---------------------------------------------------------------- order independence

  ghost predicate Compatible(routes: seq<Route>) {
    forall i, j | 0 <= i < j < |routes| :: !Conflict(routes[i].parts, routes[j].parts)
  }

  lemma CompatibleSnoc(routes: seq<Route>, r: Route)
    ensures Compatible(routes + [r]) <==> Compatible(routes) && forall a <- routes :: !Conflict(r.parts, a.parts)
  {
    var all := routes + [r];
    if Compatible(all) {
      forall i, j | 0 <= i < j < |routes|
        ensures !Conflict(routes[i].parts, routes[j].parts)
      {
        assert !Conflict(all[i].parts, all[j].parts);
      }
      forall a <- routes
        ensures !Conflict(r.parts, a.parts)
      {
        var i :| 0 <= i < |routes| && routes[i] == a;
        assert !Conflict(all[i].parts, all[|routes|].parts);
        ConflictSymmetric(a.parts, r.parts);
      }
    }
    if Compatible(routes) && forall a <- routes :: !Conflict(r.parts, a.parts) {
      forall i, j | 0 <= i < j < |all|
        ensures !Conflict(all[i].parts, all[j].parts)
      {
        if j == |routes| {
          assert all[i] in routes;
          ConflictSymmetric(all[i].parts, r.parts);
        }
      }
    }
  }

  /** A run is accepted as a whole exactly when its routes are pairwise free of conflict. */
  lemma {:induction false} AllAcceptedWhenCompatible(attempts: seq<Route>)
    ensures Accepted(attempts) == attempts <==> Compatible(attempts)
    ensures |Accepted(attempts)| <= |attempts|
  {
    if attempts != [] {
      var before, r := attempts[..|attempts| - 1], attempts[|attempts| - 1];
      assert attempts == before + [r];
      AllAcceptedWhenCompatible(before);
      CompatibleSnoc(before, r);
      if Accepted(attempts) == attempts {
        assert |Accepted(before)| == |before|;
        assert Accepted(before) == Accepted(attempts)[..|before|] == before;
      }
    }
  }

  lemma {:induction false} TwoPositions<T>(s: seq<T>, x: T) returns (i: nat, j: nat)
    requires multiset(s)[x] >= 2
    ensures i < j < |s| && s[i] == s[j] == x
  {
    var init, last := s[..|s| - 1], s[|s| - 1];
    assert s == init + [last];
    if multiset(init)[x] >= 2 {
      i, j := TwoPositions(init, x);
    } else {
      assert last == x && multiset(init)[x] == 1;
      assert x in init;
      i :| 0 <= i < |init| && init[i] == x;
      j := |init|;
    }
  }

  lemma RepeatedInMultiset<T>(s: seq<T>, i: nat, j: nat)
    requires i < j < |s| && s[i] == s[j]
    ensures multiset(s)[s[i]] >= 2
  {
    assert s == s[..j] + [s[j]] + s[j + 1..];
    assert s[i] in s[..j];
  }

  lemma CompatiblePermuted(a: seq<Route>, b: seq<Route>)
    requires Compatible(a) && multiset(a) == multiset(b)
    ensures Compatible(b)
  {
    forall i, j | 0 <= i < j < |b|
      ensures !Conflict(b[i].parts, b[j].parts)
    {
      if b[i] == b[j] {
        RepeatedInMultiset(b, i, j);
        var k, l := TwoPositions(a, b[i]);
        ConflictReflexive(b[i].parts);
        assert false;
      } else {
        assert b[i] in multiset(a) && b[j] in multiset(a);
        var k :| 0 <= k < |a| && a[k] == b[i];
        var l :| 0 <= l < |a| && a[l] == b[j];
        ConflictSymmetric(a[k].parts, a[l].parts);
      }
    }
  }

  /** A node that stores a route through the part `k` has the child `k`. */
  lemma ChildFromRoute(a: Node, b: Node, k: string, depth: nat)
    requires WellFormed(a, depth) && (forall q :: Lookup(a, q) == Lookup(b, q)) && Child(a, k).Some?
    ensures Child(b, k).Some? && forall q :: Lookup(Child(a, k).value, q) == Lookup(Child(b, k).value, q)
  {
    var c := Child(a, k).value;
    var q0 := LiveHasRoute(c, depth + 1);
    LookupThrough(a, k, q0);
    LookupThrough(b, k, q0);
    assert Lookup(a, [k] + q0) == Lookup(b, [k] + q0);
    forall q
      ensures Lookup(c, q) == Lookup(Child(b, k).value, q)
    {
      LookupThrough(a, k, q);
      LookupThrough(b, k, q);
    }
  }

  lemma LookupThrough(n: Node, k: string, q: seq<string>)
    ensures Lookup(n, [k] + q) == if Child(n, k).Some? then Lookup(Child(n, k).value, q) else None
  {
    assert ([k] + q)[1..] == q;
  }

  /** A trie is determined by the routes it stores. */
  lemma {:induction false} TrieDetermined(a: Node, b: Node, depth: nat)
    requires a.part == b.part && forall q :: Lookup(a, q) == Lookup(b, q)
    requires (WellFormed(a, depth) && WellFormed(b, depth)) || (IsPlainLeaf(a) && IsPlainLeaf(b))
    ensures a == b
    decreases a
  {
    assert Lookup(a, []) == Lookup(b, []);
    if WellFormed(a, depth) && WellFormed(b, depth) {
      ParamDetermined(a, b, depth);
      ParamDetermined(b, a, depth);
      if a.param.Some? {
        TrieDetermined(a.param.value, b.param.value, depth + 1);
      }
      if a.wild.Some? {
        TrieDetermined(a.wild.value, b.wild.value, depth + 1);
      }
      StaticsDetermined(a, b, depth);
      StaticsDetermined(b, a, depth);
      forall k <- a.statics
        ensures a.statics[k] == b.statics[k]
      {
        ChildFromRoute(a, b, k, depth);
        TrieDetermined(a.statics[k], b.statics[k], depth + 1);
      }
      assert a.statics == b.statics;
    }
  }

  lemma ParamDetermined(a: Node, b: Node, depth: nat)
    requires WellFormed(a, depth) && WellFormed(b, depth) && forall q :: Lookup(a, q) == Lookup(b, q)
    ensures a.param.Some? ==> b.param.Some? && a.param.value.part == b.param.value.part &&
                              forall q :: Lookup(a.param.value, q) == Lookup(b.param.value, q)
    ensures a.wild.Some? ==> b.wild.Some? && a.wild.value.part == b.wild.value.part &&
                             forall q :: Lookup(a.wild.value, q) == Lookup(b.wild.value, q)
  {
    if a.param.Some? {
      ChildFromRoute(a, b, a.param.value.part, depth);
    }
    if a.wild.Some? {
      ChildFromRoute(a, b, a.wild.value.part, depth);
    }
  }

  lemma StaticsDetermined(a: Node, b: Node, depth: nat)
    requires WellFormed(a, depth) && forall q :: Lookup(a, q) == Lookup(b, q)
    ensures a.statics.Keys <= b.statics.Keys
  {
    forall k <- a.statics
      ensures k in b.statics
    {
      ChildFromRoute(a, b, k, depth);
    }
  }

  /**
   Whether a set of routes is accepted, and the trie they build, do not depend on the order in
   which they are registered.
   */
  lemma OrderIrrelevant(a: seq<Route>, b: seq<Route>)
    requires AllValid(a) && multiset(a) == multiset(b)
    ensures Accepted(a) == a <==> Accepted(b) == b
    ensures Accepted(a) == a ==> Build(a) == Build(b)
  {
    AllAcceptedWhenCompatible(a);
    AllAcceptedWhenCompatible(b);
    if Compatible(a) { CompatiblePermuted(a, b); }
    if Compatible(b) { CompatiblePermuted(b, a); }
    if Accepted(a) == a {
      SameStore(a, b);
      TrieDetermined(Build(a), Build(b), 0);
    }
  }

  lemma SameStore(a: seq<Route>, b: seq<Route>)
    requires AllValid(a) && multiset(a) == multiset(b) && Accepted(a) == a && Accepted(b) == b
    ensures RootOk(Build(a)) && RootOk(Build(b))
    ensures forall q :: Lookup(Build(a), q) == Lookup(Build(b), q)
  {
    SameElements(a, b);
    BuildStoresAccepted(a);
    BuildStoresAccepted(b);
  }

  lemma SameElements(a: seq<Route>, b: seq<Route>)
    requires multiset(a) == multiset(b)
    ensures forall r :: r in a <==> r in b
  {
    forall r
      ensures r in a <==> r in b
    {
      assert r in a <==> r in multiset(a);
      assert r in b <==> r in multiset(b);
    }
  }
}

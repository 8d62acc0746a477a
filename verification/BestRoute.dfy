/**
 The search seen from the registered routes: after any run of registrations it answers with the best
 matching accepted route and binds exactly that route's names.
 */
module BestRoute {
  import opened Base
  import opened Segments
  import opened Paths
  import opened Trie
  import opened Routes
  import opened Search

  /** `r` is the best of `routes` for this path. */
  ghost predicate BestOf(routes: seq<Route>, r: Route, parts: seq<string>) {
    && r in routes && Matches(r.parts, parts)
    && forall a <- routes :: Matches(a.parts, parts) ==> Better(r.parts, a.parts)
  }

  /** What a search over the routes must answer, with no trie in sight. */
  ghost predicate Answers(routes: seq<Route>, segs: PathSegments, answer: Option<Match>)
    requires Segmented(segs)
  {
    match answer
    case None => forall a <- routes :: !Matches(a.parts, segs.parts)
    case Some(m) => exists r :: BestOf(routes, r, segs.parts) && m == Match(RouteLeaf(r), Bindings(r.parts, segs, 0))
  }

  lemma AnswersFromStore(t: Node, routes: seq<Route>, segs: PathSegments)
    requires Segmented(segs) && RootOk(t) && Stores(t, routes)
    ensures Answers(routes, segs, Find(t, segs, 0))
  {
    FindIsBestMatch(t, segs, 0);
    assert segs.parts[0..] == segs.parts;
    match Find(t, segs, 0) {
      case None =>
        forall a <- routes
          ensures !Matches(a.parts, segs.parts)
        {
          assert Lookup(t, a.parts).Some?;
        }
      case Some(m) =>
        var p :| IsBest(t, segs, 0, p, m);
        var r :| r in routes && r.parts == p;
        forall a <- routes | Matches(a.parts, segs.parts)
          ensures Better(r.parts, a.parts)
        {
          assert Lookup(t, a.parts).Some?;
        }
        assert BestOf(routes, r, segs.parts);
    }
  }

  /** The main theorem on the trie: search after any run of registrations is best-route search. */
  lemma SearchAnswersBestRoute(attempts: seq<Route>, segs: PathSegments)
    requires AllValid(attempts) && Segmented(segs)
    ensures Answers(Accepted(attempts), segs, Find(Build(attempts), segs, 0))
  {
    BuildStoresAccepted(attempts);
    AnswersFromStore(Build(attempts), Accepted(attempts), segs);
  }

  /** There is one best route, so the answer is determined by the accepted routes alone. */
  lemma BestRouteUnique(attempts: seq<Route>, parts: seq<string>, segs: PathSegments, r: Route, r': Route)
    requires AllValid(attempts) && Segmented(segs) && segs.parts == parts
    requires BestOf(Accepted(attempts), r, parts) && BestOf(Accepted(attempts), r', parts)
    ensures RouteLeaf(r) == RouteLeaf(r') && r.parts == r'.parts
  {
    BuildStoresAccepted(attempts);
    var t := Build(attempts);
    assert parts[0..] == parts;
    BestIsUnique(t, segs, 0, r.parts, r'.parts);
    assert Lookup(t, r.parts) == Some(RouteLeaf(r)) && Lookup(t, r'.parts) == Some(RouteLeaf(r'));
  }

  /** The names a hit binds are those of its route, each once, so each name has one value. */
  lemma HitBindsDistinctNames(attempts: seq<Route>, segs: PathSegments)
    requires AllValid(attempts) && Segmented(segs) && Find(Build(attempts), segs, 0).Some?
    ensures var bs := Find(Build(attempts), segs, 0).value.bindings;
            && (exists r :: r in Accepted(attempts) && Keys(bs) == Names(r.parts))
            && forall k, l | 0 <= k < l < |bs| :: bs[k].key != bs[l].key
  {
    SearchAnswersBestRoute(attempts, segs);
    var m := Find(Build(attempts), segs, 0).value;
    var r :| BestOf(Accepted(attempts), r, segs.parts) && m == Match(RouteLeaf(r), Bindings(r.parts, segs, 0));
    AcceptedValid(attempts);
    assert segs.parts[0..] == segs.parts;
    BindingsBindNames(r.parts, segs, 0);
    NamesDistinct(r.parts);
    var bs := m.bindings;
    forall k, l | 0 <= k < l < |bs|
      ensures bs[k].key != bs[l].key
    {
      assert Keys(bs)[k] != Keys(bs)[l];
    }
  }

  lemma {:induction false} AcceptedValid(attempts: seq<Route>)
    requires AllValid(attempts)
    ensures AllValid(Accepted(attempts))
  {
    if attempts != [] {
      assert AllValid(attempts[..|attempts| - 1]);
      AcceptedValid(attempts[..|attempts| - 1]);
    }
  }

  // ---------------------------------------------------------------- what a handler reads

  lemma {:induction false} NoNames(p: seq<string>)
    requires !AnyDynamic(p)
    ensures Names(p) == []
  {
    if p != [] {
      assert !IsDynamic(p[0]) && forall i | 0 <= i < |p| - 1 :: p[1..][i] == p[i + 1];
      NoNames(p[1..]);
    }
  }

  /** The best route of a built trie: what the search answers, and what it binds. */
  lemma BestAnswers(attempts: seq<Route>, segs: PathSegments, r: Route)
    requires AllValid(attempts) && Segmented(segs) && BestOf(Accepted(attempts), r, segs.parts)
    ensures Find(Build(attempts), segs, 0) == Some(Match(RouteLeaf(r), Bindings(r.parts, segs, 0)))
    ensures Keys(Bindings(r.parts, segs, 0)) == Names(r.parts)
    ensures forall k, l | 0 <= k < l < |Names(r.parts)| :: Names(r.parts)[k] != Names(r.parts)[l]
    ensures !AnyDynamic(r.parts) ==> Names(r.parts) == []
  {
    SearchAnswersBestRoute(attempts, segs);
    var m := Find(Build(attempts), segs, 0).value;
    var r' :| BestOf(Accepted(attempts), r', segs.parts) && m == Match(RouteLeaf(r'), Bindings(r'.parts, segs, 0));
    BestRouteUnique(attempts, segs.parts, segs, r, r');
    AcceptedValid(attempts);
    assert segs.parts[0..] == segs.parts;
    BindingsBindNames(r.parts, segs, 0);
    NamesDistinct(r.parts);
    if !AnyDynamic(r.parts) {
      NoNames(r.parts);
    }
  }

  /** The value found for a name in the buffer of a hit is the segment bound to that name. */
  ghost predicate Reads(r: Route, segs: PathSegments, name: string, value: string, ok: bool)
    requires Segmented(segs)
  {
    && (ok <==> name in Names(r.parts))
    && forall k | 0 <= k < |Names(r.parts)| && Names(r.parts)[k] == name ::
         k < |Bindings(r.parts, segs, 0)| && value == Bindings(r.parts, segs, 0)[k].value
  }

  lemma FirstIsBound(r: Route, segs: PathSegments, name: string, value: string, ok: bool)
    requires Segmented(segs) && Keys(Bindings(r.parts, segs, 0)) == Names(r.parts)
    requires forall k, l | 0 <= k < l < |Names(r.parts)| :: Names(r.parts)[k] != Names(r.parts)[l]
    requires ok <==> name in Names(r.parts)
    requires var bs := Bindings(r.parts, segs, 0);
             ok ==> exists i :: 0 <= i < |bs| && Keys(bs)[i] == name && value == Values(bs)[i]
    ensures Reads(r, segs, name, value, ok)
  {
  }

  /**
   Serving a path and reading one parameter (the two searches of serveMethodInTable and the lookup of
   the handler): the best accepted route answers, and each of its names reads the segment bound to it.
   */
  method SearchAndRead(root: Node, ghost attempts: seq<Route>, segs: PathSegments, params: Params, name: string)
    returns (leaf: Option<Leaf>, value: string, ok: bool)
    requires AllValid(attempts) && root == Build(attempts) && Segmented(segs)
    requires params.Valid()
    modifies params
    ensures leaf.None? <==> forall a <- Accepted(attempts) :: !Matches(a.parts, segs.parts)
    ensures leaf.None? ==> !ok
    ensures forall r | BestOf(Accepted(attempts), r, segs.parts) ::
              leaf == Some(RouteLeaf(r)) && Reads(r, segs, name, value, ok)
  {
    SearchAnswersBestRoute(attempts, segs);
    leaf := SearchInto(root, segs, 0, null);
    value, ok := "", false;
    if leaf.Some? && leaf.value.hasParams {
      params.Reset();
      var again := SearchInto(root, segs, 0, params);
      value, ok := params.Get(name);
    }
    forall r | BestOf(Accepted(attempts), r, segs.parts)
      ensures leaf == Some(RouteLeaf(r)) && Reads(r, segs, name, value, ok)
    {
      BestAnswers(attempts, segs, r);
      FirstIsBound(r, segs, name, value, ok);
    }
  }
}

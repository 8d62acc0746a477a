/**
 The router meets the request specification: after any run of registrations, ServeHTTP gives to every
 request the one answer that the calls of Handle determine.
 */
module RequestAnswers {
  import opened Base
  import opened Segments
  import opened Paths
  import opened Trie
  import opened Routes
  import opened Search
  import opened BestRoute
  import opened Serve
  import opened Dispatch
  import opened Registration
  import opened RouterRuns
  import opened RouterServing
  import opened CaseFolding
  import opened RequestSpec
  import opened RequestText
  import opened RequestRoutes

  // ---------------------------------------------------------------- one method

  lemma LiteralCall(a: Attempt, path: string, fold: bool)
    requires GoodCall(a)
    ensures IsLiteralFor(a, path, fold) <==> StaticAt(RouteOf(a, fold), Key(path, fold))
  {
    RouteFacts(a, fold);
    if !HasDynamic(a) {
      LiteralStored(a, fold);
      SameTextByKey(a.pattern, path, fold);
    }
  }

  lemma CoveringCall(a: Attempt, path: string, fold: bool)
    requires GoodCall(a)
    ensures Covers(Parts(a.pattern, 0), Parts(path, 0), fold) <==>
            Matches(RouteOf(a, fold).parts, RequestSegments(path, fold).parts)
  {
    RouteFacts(a, fold);
    KeySegments(path, fold);
    CoversExactly(Parts(a.pattern, 0), Parts(path, 0), fold);
  }

  lemma NothingCaptured(p: seq<string>, path: string, i: nat)
    requires !AnyDynamic(p)
    ensures Captured(p, path, i) == []
    decreases |p| - i
  {
    if i < |p| {
      assert !IsDynamic(p[i]);
      NothingCaptured(p, path, i + 1);
    }
  }

  lemma CapturedCall(a: Attempt, path: string, fold: bool)
    requires GoodCall(a) && Covers(Parts(a.pattern, 0), Parts(path, 0), fold)
    ensures AnswerOf(RouteOf(a, fold), RequestSegments(path, fold)) ==
            Answer(a.handler.value, Captured(Parts(a.pattern, 0), path, 0))
  {
    var p, segs := Parts(a.pattern, 0), RequestSegments(path, fold);
    RouteFacts(a, fold);
    if HasDynamic(a) {
      CoveringCall(a, path, fold);
      PartsSlashFree(a.pattern);
      assert StoredParts(p, fold)[0..] == StoredParts(p, fold) && segs.parts[0..] == segs.parts;
      CapturedExactly(p, path, fold, 0);
    } else {
      NothingCaptured(p, path, 0);
    }
  }

  /** Some call is a literal one for the path exactly when a stored static route is. */
  lemma LiteralCalls(routes: seq<Route>, calls: seq<Attempt>, path: string, fold: bool)
    requires Mirrors(routes, calls, fold)
    ensures SomeLiteral(calls, path, fold) <==>
            (exists s :: s in routes && StaticAt(s, Key(path, fold)))
  {
    if a :| a in calls && IsLiteralFor(a, path, fold) {
      MirroredCall(routes, calls, fold, a);
      LiteralCall(a, path, fold);
    }
    if s :| s in routes && StaticAt(s, Key(path, fold)) {
      var a := MirroredRoute(routes, calls, fold, s);
      LiteralCall(a, path, fold);
    }
  }

  lemma CoveringCalls(routes: seq<Route>, calls: seq<Attempt>, path: string, fold: bool)
    requires Mirrors(routes, calls, fold)
    ensures SomeCovering(calls, path, fold) <==>
            (exists r :: r in routes && Matches(r.parts, RequestSegments(path, fold).parts))
  {
    if a :| IsCovering(calls, a, path, fold) {
      MirroredCall(routes, calls, fold, a);
      CoveringCall(a, path, fold);
    }
    if r :| r in routes && Matches(r.parts, RequestSegments(path, fold).parts) {
      var a := MirroredRoute(routes, calls, fold, r);
      CoveringCall(a, path, fold);
      assert IsCovering(calls, a, path, fold);
    }
  }

  lemma SearchedCalls(routes: seq<Route>, calls: seq<Attempt>, path: string, fold: bool)
    requires Mirrors(routes, calls, fold)
    ensures CanCover(calls, path) <==> TrieAsked(routes, Key(path, fold))
  {
    OneLineExactly(path);
    KeyHasControl(path, fold);
    KeySegments(path, fold);
    if a :| a in calls && HasDynamic(a) {
      MirroredCall(routes, calls, fold, a);
      RouteFacts(a, fold);
    }
    if d :| d in routes && AnyDynamic(d.parts) {
      var a := MirroredRoute(routes, calls, fold, d);
      RouteFacts(a, fold);
    }
  }

  lemma PreferredCall(routes: seq<Route>, calls: seq<Attempt>, a: Attempt, path: string, fold: bool)
    requires Mirrors(routes, calls, fold) && a in calls && GoodCall(a)
    ensures IsPreferred(calls, a, path, fold) <==> BestOf(routes, RouteOf(a, fold), RequestSegments(path, fold).parts)
  {
    var parts := RequestSegments(path, fold).parts;
    MirroredCall(routes, calls, fold, a);
    RouteFacts(a, fold);
    CoveringCall(a, path, fold);
    if IsPreferred(calls, a, path, fold) {
      forall r <- routes | Matches(r.parts, parts)
        ensures Better(RouteOf(a, fold).parts, r.parts)
      {
        var b := MirroredRoute(routes, calls, fold, r);
        CallAgainst(calls, a, b, path, fold);
      }
    }
    if BestOf(routes, RouteOf(a, fold), parts) {
      forall b | IsCovering(calls, b, path, fold)
        ensures Better(Parts(a.pattern, 0), Parts(b.pattern, 0))
      {
        MirroredCall(routes, calls, fold, b);
        CallAgainst(calls, a, b, path, fold);
      }
    }
  }

  lemma CallAgainst(calls: seq<Attempt>, a: Attempt, b: Attempt, path: string, fold: bool)
    requires b in calls && GoodCall(a) && GoodCall(b)
    ensures IsCovering(calls, b, path, fold) <==> Matches(RouteOf(b, fold).parts, RequestSegments(path, fold).parts)
    ensures Better(Parts(a.pattern, 0), Parts(b.pattern, 0)) <==> Better(RouteOf(a, fold).parts, RouteOf(b, fold).parts)
  {
    RouteFacts(a, fold);
    RouteFacts(b, fold);
    CoveringCall(b, path, fold);
    BetterStored(Parts(a.pattern, 0), Parts(b.pattern, 0), fold);
  }

  /** An answer of a literal call is one of a static route. */
  lemma LiteralAnswer(routes: seq<Route>, calls: seq<Attempt>, path: string, fold: bool, answer: Option<Answer>)
    requires Mirrors(routes, calls, fold)
    ensures LiteralAnswers(calls, path, fold, answer) <==>
            (exists s :: s in routes && StaticAt(s, Key(path, fold)) && answer == Some(Answer(s.handler, [])))
  {
    if a :| && a in calls && IsLiteralFor(a, path, fold) && a.handler.Some?
            && answer == Some(Answer(a.handler.value, [])) {
      MirroredCall(routes, calls, fold, a);
      LiteralCall(a, path, fold);
      RouteFacts(a, fold);
    }
    if s :| s in routes && StaticAt(s, Key(path, fold)) && answer == Some(Answer(s.handler, [])) {
      var a := MirroredRoute(routes, calls, fold, s);
      LiteralCall(a, path, fold);
      RouteFacts(a, fold);
    }
  }

  /** An answer of a preferred call is one of a best route. */
  lemma PreferredAnswer(routes: seq<Route>, calls: seq<Attempt>, path: string, fold: bool, answer: Option<Answer>)
    requires Mirrors(routes, calls, fold)
    ensures PreferredAnswers(calls, path, fold, answer) <==>
            (exists r :: BestOf(routes, r, RequestSegments(path, fold).parts)
                         && answer == Some(AnswerOf(r, RequestSegments(path, fold))))
  {
    var segs := RequestSegments(path, fold);
    if a :| && IsPreferred(calls, a, path, fold) && a.handler.Some?
            && answer == Some(Answer(a.handler.value, Captured(Parts(a.pattern, 0), path, 0))) {
      MirroredCall(routes, calls, fold, a);
      PreferredCall(routes, calls, a, path, fold);
      CapturedCall(a, path, fold);
    }
    if r :| BestOf(routes, r, segs.parts) && answer == Some(AnswerOf(r, segs)) {
      var a := MirroredRoute(routes, calls, fold, r);
      PreferredCall(routes, calls, a, path, fold);
      CapturedCall(a, path, fold);
    }
  }

  /** The answer from the calls is the answer from the routes they store. */
  lemma CallsAnswer(routes: seq<Route>, calls: seq<Attempt>, path: string, fold: bool, answer: Option<Answer>)
    requires Mirrors(routes, calls, fold)
    ensures AnswersFrom(calls, path, fold, answer) <==> ServedFrom(routes, Key(path, fold), path, answer)
  {
    LiteralCalls(routes, calls, path, fold);
    LiteralAnswer(routes, calls, path, fold, answer);
    SearchedCalls(routes, calls, path, fold);
    CoveringCalls(routes, calls, path, fold);
    PreferredAnswer(routes, calls, path, fold, answer);
    assert RequestSegments(path, fold) == Segment(Key(path, fold), path);
  }

  /** The router that a run of registrations builds. */
  ghost function RouterAfter(options: Options, attempts: seq<Attempt>): Router {
    HandleAll(NewRouter(options.ignoreCase, options.strictSlash, options.useRawPath), attempts)
  }

  /** The site of a host of that router. */
  ghost function SiteOf(options: Options, attempts: seq<Attempt>, host: string): Site {
    Site(attempts, host, options.ignoreCase)
  }

  /**
   What a router serves for a method, over the original patterns: with case ignored a literal pattern
   answers at every path that is the same text up to case, and patterns with parameters cover paths up
   to the case of their literals; otherwise both are exact.
   */
  lemma MethodAnswers(options: Options, attempts: seq<Attempt>, host: string, m: string, path: string,
                      answer: Option<Answer>)
    ensures var t := TableAt(RouterAfter(options, attempts), host);
            ServeMethod(t, m, Key(path, options.ignoreCase), path) == answer <==>
            AnswersFrom(Taken(attempts, host, m, options.ignoreCase), path, options.ignoreCase, answer)
  {
    var fold := options.ignoreCase;
    RunServesRoutes(fold, options.strictSlash, options.useRawPath, attempts, host, m, Key(path, fold), path, answer);
    TakenIsAccepted(attempts, host, m, fold);
    CallsAnswer(Accepted(RoutesFor(attempts, host, m, fold)), Taken(attempts, host, m, fold), path, fold, answer);
  }

  /** An accepted literal call answers at every path that is the same text, up to case when case is ignored. */
  lemma LiteralCallAnswers(options: Options, attempts: seq<Attempt>, a: Attempt, path: string)
    requires a in Taken(attempts, a.host, a.method_, options.ignoreCase) && a.handler.Some?
    requires IsLiteralFor(a, path, options.ignoreCase)
    ensures var t := TableAt(RouterAfter(options, attempts), a.host);
            ServeMethod(t, a.method_, Key(path, options.ignoreCase), path) == Some(Answer(a.handler.value, []))
  {
    MethodAnswers(options, attempts, a.host, a.method_, path, Some(Answer(a.handler.value, [])));
  }
}

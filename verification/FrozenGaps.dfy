/**
 Exactly when freezing preserves meaning on a path: for all tries that registrations of patterns up to
 some length can build, if and only if no such pattern fits across a gap wider than one slash.
 */
module FrozenGaps {
  import opened Base
  import opened Segments
  import opened Paths
  import opened Trie
  import opened Routes
  import opened Search
  import opened BestRoute
  import opened Frozen
  import opened GapCosts

  /** Routes that pass validation, with canonical patterns of bounded length. */
  ghost predicate AllCanonical(routes: seq<Route>, limit: nat) {
    AllValid(routes) && forall r <- routes :: CanonicalRoute(r, limit)
  }

  ghost predicate CanonicalRoute(r: Route, limit: nat) {
    CleanPath(r.pattern) == r.pattern && Parts(r.pattern, 0) == r.parts && |r.pattern| <= limit
  }

  /** Freezing any trie that such registrations build preserves the answer on this path. */
  ghost predicate AlwaysParity(segs: PathSegments, limit: nat)
    requires Segmented(segs)
  {
    forall attempts: seq<Route> ::
      AllCanonical(attempts, limit) ==> Parity(Build(attempts), FreezeRoot(Build(attempts)), segs)
  }

  /** The gap after segment `k` lies between literal segments and is wider than one slash. */
  predicate WideAt(segs: PathSegments, k: nat)
    requires Segmented(segs)
  {
    k + 1 < |segs.parts| && IsLiteral(segs.parts[k]) && IsLiteral(segs.parts[k + 1]) && !GapAt(segs, k)
  }

  /** Every pattern that matches with literals on both sides of a wide gap is too long. */
  ghost predicate NoneFits(segs: PathSegments, limit: nat)
    requires Segmented(segs)
  {
    forall k: nat | WideAt(segs, k) :: Shortest(segs.parts, k) > limit
  }

  // ---------------------------------------------------------------- if nothing fits, parity holds

  lemma SegmentsNonEmpty(segs: PathSegments)
    requires Segmented(segs)
    ensures forall i | 0 <= i < |segs.parts| :: segs.parts[i] != ""
  {
    forall i | 0 <= i < |segs.parts|
      ensures segs.parts[i] != ""
    {
      assert SegmentAt(segs.matched, segs.parts[i], segs.indices[i]);
    }
  }

  /** A canonical pattern over a wide gap is at least as long as the shortest one. */
  lemma StraddlerIsLong(q: seq<string>, segs: PathSegments, j: nat)
    requires Segmented(segs) && ValidPattern(q) && Matches(q, segs.parts) && Straddles(q, segs, 0, j)
    ensures WideAt(segs, j) && Length(q) >= Shortest(segs.parts, j)
  {
    SegmentsNonEmpty(segs);
    NeedsShortest(q, segs.parts, j);
  }

  lemma ShortSpansNothing(q: seq<string>, segs: PathSegments, limit: nat)
    requires Segmented(segs) && ValidPattern(q) && Length(q) <= limit && NoneFits(segs, limit)
    ensures !SpansFrom(q, segs, 0)
  {
    assert segs.parts[0..] == segs.parts;
    if SpansFrom(q, segs, 0) {
      var j: nat :| Straddles(q, segs, 0, j);
      StraddlerIsLong(q, segs, j);
    }
  }

  lemma CanonicalPattern(r: Route, limit: nat)
    requires ValidRoute(r) && CanonicalRoute(r, limit)
    ensures ValidPattern(r.parts) && Length(r.parts) <= limit
  {
    CanonicalDotFree(r.pattern);
    CanonicalLength(r.pattern);
  }

  lemma BuildNoSpan(attempts: seq<Route>, segs: PathSegments, limit: nat)
    requires AllCanonical(attempts, limit) && Segmented(segs) && NoneFits(segs, limit)
    ensures NoSpan(Build(attempts), segs, 0)
  {
    BuildStoresAccepted(attempts);
    AcceptedAttempted(attempts);
    forall q | Lookup(Build(attempts), q).Some?
      ensures !SpansFrom(q, segs, 0)
    {
      var r :| r in Accepted(attempts) && r.parts == q;
      CanonicalPattern(r, limit);
      ShortSpansNothing(q, segs, limit);
    }
  }

  // ---------------------------------------------------------------- a trie of one route

  /** The trie below a node of part `part` that stores the single route `rest`. */
  function Tower(part: string, rest: seq<string>, leaf: Leaf): (n: Node)
    ensures n.part == part
    decreases |rest|
  {
    if rest == [] then Node(leaf.pattern, part, map[], None, None, leaf.handler, leaf.hasParams)
    else SetChild(EmptyNode(part), rest[0], Tower(rest[0], rest[1..], leaf))
  }

  lemma {:induction false} InsertBuildsTower(part: string, pattern: string, parts: seq<string>, height: nat,
                                             handler: Option<Handler>, hp: bool)
    requires height <= |parts| <= MAX_DEPTH && ValidParts(parts) && pattern != "" && handler.Some?
    ensures Insert(EmptyNode(part), pattern, parts, height, handler, hp) ==
            Inserted(Tower(part, parts[height..], Leaf(pattern, handler, hp || AnyDynamic(parts[height..]))), None)
    decreases |parts| - height
  {
    if height < |parts| {
      var p := parts[height];
      assert parts[height..][0] == p && parts[height..][1..] == parts[height + 1..];
      InsertBuildsTower(p, pattern, parts, height + 1, handler, hp || IsDynamic(p));
      assert AnyDynamic(parts[height..]) <==> IsDynamic(p) || AnyDynamic(parts[height + 1..]);
    }
  }

  lemma OneRoute(r: Route)
    requires ValidRoute(r)
    ensures Build([r]) == Tower("", r.parts, RouteLeaf(r)) && Accepted([r]) == [r] && AllValid([r])
  {
    assert [r][..0] == [];
    assert Build([]) == EMPTY_ROOT;
    InsertBuildsTower("", r.pattern, r.parts, 0, Some(r.handler), AnyDynamic(r.parts));
    assert r.parts[0..] == r.parts;
  }

  // ---------------------------------------------------------------- the frozen search misses it

  /** The number of literal segments a pattern starts with. */
  function LiteralRun(rest: seq<string>): (n: nat)
    ensures n <= |rest| && forall i | 0 <= i < n :: !IsDynamic(rest[i])
  {
    if rest == [] || IsDynamic(rest[0]) then 0 else 1 + LiteralRun(rest[1..])
  }

  lemma {:induction false} RunGoesOn(rest: seq<string>, j: nat)
    requires j < LiteralRun(rest) && j + 1 < |rest| && !IsDynamic(rest[j + 1])
    ensures j + 1 < LiteralRun(rest)
    decreases j
  {
    if j > 0 {
      RunGoesOn(rest[1..], j - 1);
    }
  }

  lemma OneChild(c: Node, k: string, next: Node)
    requires c.statics == map[k := next] && c.pattern == "" && c.handler.None? && c.param.None? && c.wild.None?
    ensures !EndsChain(c) && OnlyChild(c) == next
  {
  }

  /** All leading literals of a route become one chain. */
  lemma {:induction false} TowerChain(rest: seq<string>, leaf: Leaf)
    requires rest != [] && ValidParts(rest) && !IsDynamic(rest[0]) && leaf.pattern != ""
    ensures var n := LiteralRun(rest);
            n > 0 && Compress(Tower(rest[0], rest[1..], leaf)) == Chain(rest[..n], Tower(rest[n - 1], rest[n..], leaf))
    decreases |rest|
  {
    var c, t := Tower(rest[0], rest[1..], leaf), rest[1..];
    if t == [] || IsDynamic(t[0]) {
      assert EndsChain(c) && LiteralRun(rest) == 1;
      assert rest[..1] == [rest[0]];
    } else {
      var next := Tower(t[0], t[1..], leaf);
      TowerShape(rest[0], t, leaf);
      OneChild(c, t[0], next);
      assert forall i | 0 <= i < |t| :: t[i] == rest[i + 1];
      TowerChain(t, leaf);
      ChainGrows(c);
      var n := LiteralRun(t);
      assert rest[..n + 1] == [rest[0]] + t[..n] && rest[n + 1..] == t[n..] && rest[n] == t[n - 1];
    }
  }

  lemma StraddlesRest(rest: seq<string>, segs: PathSegments, h: nat, j: nat, n: nat)
    requires Segmented(segs) && Straddles(rest, segs, h, j) && n <= j
    ensures Straddles(rest[n..], segs, h + n, j - n)
  {
    assert rest[n..][j - n] == rest[j] && rest[n..][j - n + 1] == rest[j + 1];
    assert h + n + (j - n) == h + j;
  }

  /** A chain over a wide gap fails as a whole. */
  lemma ChainOverGap(ch: Chain, segs: PathSegments, h: nat, j: nat)
    requires Segmented(segs) && j + 1 < |ch.parts| && (forall i | 0 <= i < |ch.parts| :: ValidPart(ch.parts[i]))
    requires h + j + 1 < |segs.parts| && !GapAt(segs, h + j)
    ensures JumpChain(ch, segs, h) == None
  {
    if h + |ch.parts| <= |segs.parts| {
      SpanComparison(segs, h, ch.parts);
    }
  }

  /** The one child of a node on a route of literals and parameters. */
  lemma TowerShape(part: string, rest: seq<string>, leaf: Leaf)
    requires rest != [] && !IsWild(rest[0])
    ensures var n, child := Tower(part, rest, leaf), Tower(rest[0], rest[1..], leaf);
            && n.wild.None? && n.pattern == "" && n.handler.None?
            && (n.param == if IsParam(rest[0]) then Some(child) else None)
            && (n.statics == if IsParam(rest[0]) then map[] else map[rest[0] := child])
  {
  }

  /** A trie with one route below the node, literal on both sides of a wide gap, is missed when frozen. */
  lemma {:induction false} TowerMisses(part: string, rest: seq<string>, leaf: Leaf, span: string, spanSegs: nat,
                                       shown: string, segs: PathSegments, h: nat, j: nat)
    requires Segmented(segs) && |segs.parts| <= MAX_DEPTH && ValidParts(rest) && leaf.pattern != "" && !IsWild(shown)
    requires Straddles(rest, segs, h, j)
    ensures FrozenBody(FreezeNode(Tower(part, rest, leaf), span, spanSegs, shown), segs, h) == None
    decreases |rest|, 1
  {
    TowerShape(part, rest, leaf);
    if IsParam(rest[0]) {
      ParamBelowMisses(rest, leaf, segs, h, j);
    } else {
      ChainMisses(rest, leaf, segs, h, j);
    }
    BodyMisses(Tower(part, rest, leaf), span, spanSegs, shown, segs, h);
  }

  lemma {:induction false} ParamBelowMisses(rest: seq<string>, leaf: Leaf, segs: PathSegments, h: nat, j: nat)
    requires Segmented(segs) && |segs.parts| <= MAX_DEPTH && ValidParts(rest) && leaf.pattern != ""
    requires Straddles(rest, segs, h, j) && IsParam(rest[0])
    ensures FrozenFind(FreezeChild(Tower(rest[0], rest[1..], leaf)), segs, h + 1) == None
    decreases |rest|, 0
  {
    TowerMissesRest(rest[0], rest, leaf, "", 0, rest[0], segs, h, j, 1);
    ParamMisses(Tower(rest[0], rest[1..], leaf), segs, h + 1);
  }

  /** The same for what is left of a route after `n` of its segments. */
  lemma {:induction false} TowerMissesRest(part: string, rest: seq<string>, leaf: Leaf, span: string, spanSegs: nat,
                                           shown: string, segs: PathSegments, h: nat, j: nat, n: nat)
    requires Segmented(segs) && |segs.parts| <= MAX_DEPTH && ValidParts(rest) && leaf.pattern != "" && !IsWild(shown)
    requires Straddles(rest, segs, h, j) && 0 < n <= j
    ensures FrozenBody(FreezeNode(Tower(part, rest[n..], leaf), span, spanSegs, shown), segs, h + n) == None
    decreases |rest| - n, 2
  {
    StraddlesRest(rest, segs, h, j, n);
    RestValid(rest, n);
    TowerMisses(part, rest[n..], leaf, span, spanSegs, shown, segs, h + n, j - n);
  }

  lemma RestValid(rest: seq<string>, n: nat)
    requires ValidParts(rest) && n <= |rest|
    ensures ValidParts(rest[n..])
  {
    assert forall i | 0 <= i < |rest| - n :: rest[n..][i] == rest[i + n];
  }

  lemma JumpMisses(c: Node, ch: Chain, segs: PathSegments, h: nat)
    requires Segmented(segs) && h < |segs.parts| && h <= MAX_DEPTH && ch == Compress(c)
    requires JumpChain(ch, segs, h) == None
    ensures FrozenFind(FreezeChain(c), segs, h) == None
  {
    ChainJump(c, segs, h);
  }

  lemma {:induction false} ChainMisses(rest: seq<string>, leaf: Leaf, segs: PathSegments, h: nat, j: nat)
    requires Segmented(segs) && |segs.parts| <= MAX_DEPTH && ValidParts(rest) && leaf.pattern != ""
    requires Straddles(rest, segs, h, j) && !IsDynamic(rest[0])
    ensures FrozenFind(FreezeChain(Tower(rest[0], rest[1..], leaf)), segs, h) == None
    decreases |rest|, 0
  {
    TowerChain(rest, leaf);
    RunMisses(rest, leaf, segs, h, j, LiteralRun(rest));
    JumpMisses(Tower(rest[0], rest[1..], leaf), Compress(Tower(rest[0], rest[1..], leaf)), segs, h);
  }

  /** The leading literals either cover the gap or leave it to what follows them. */
  lemma {:induction false} RunMisses(rest: seq<string>, leaf: Leaf, segs: PathSegments, h: nat, j: nat, n: nat)
    requires Segmented(segs) && |segs.parts| <= MAX_DEPTH && ValidParts(rest) && leaf.pattern != ""
    requires Straddles(rest, segs, h, j) && n == LiteralRun(rest) > 0
    ensures JumpChain(Chain(rest[..n], Tower(rest[n - 1], rest[n..], leaf)), segs, h) == None
    decreases |rest| - n, 3
  {
    if j < n {
      RunOverGap(rest, Tower(rest[n - 1], rest[n..], leaf), segs, h, j, n);
    } else {
      TowerMissesRest(rest[n - 1], rest, leaf, Join(rest[..n]), n, "", segs, h, j, n);
      EndMisses(rest[..n], Tower(rest[n - 1], rest[n..], leaf), segs, h, n);
    }
  }

  lemma RunOverGap(rest: seq<string>, end: Node, segs: PathSegments, h: nat, j: nat, n: nat)
    requires Segmented(segs) && ValidParts(rest) && Straddles(rest, segs, h, j) && j < n == LiteralRun(rest)
    ensures JumpChain(Chain(rest[..n], end), segs, h) == None
  {
    RunGoesOn(rest, j);
    assert forall i | 0 <= i < n :: rest[..n][i] == rest[i];
    ChainOverGap(Chain(rest[..n], end), segs, h, j);
  }

  lemma EndMisses(parts: seq<string>, end: Node, segs: PathSegments, h: nat, n: nat)
    requires Segmented(segs) && n == |parts| > 0 && h + n <= |segs.parts|
    requires FrozenBody(FreezeNode(end, Join(parts), n, ""), segs, h + n) == None
    ensures JumpChain(Chain(parts, end), segs, h) == None
  {
    JumpCases(Chain(parts, end), segs, h, h + n);
  }

  lemma ParamMisses(child: Node, segs: PathSegments, h: nat)
    requires Segmented(segs) && h <= |segs.parts|
    requires FrozenBody(FreezeNode(child, "", 0, child.part), segs, h) == None
    ensures FrozenFind(FreezeChild(child), segs, h) == None
  {
    assert FreezeChild(child) == FreezeNode(child, "", 0, child.part);
    assert FreezeNode(child, "", 0, child.part).spanSegs == 0;
  }

  lemma BodyMisses(n: Node, span: string, spanSegs: nat, shown: string, segs: PathSegments, h: nat)
    requires Segmented(segs) && h < |segs.parts| && !IsWild(shown) && n.wild.None?
    requires segs.parts[h] in n.statics ==> FrozenFind(FreezeChain(n.statics[segs.parts[h]]), segs, h) == None
    requires n.param.Some? ==> FrozenFind(FreezeChild(n.param.value), segs, h + 1) == None
    ensures FrozenBody(FreezeNode(n, span, spanSegs, shown), segs, h) == None
  {
  }

  // ---------------------------------------------------------------- the witness

  /** A path that the router hands to the search. */
  ghost predicate Searchable(segs: PathSegments) {
    Segmented(segs) && |segs.parts| <= MAX_DEPTH && !HasControl(segs.matched)
  }

  lemma WideIsPair(segs: PathSegments, k: nat)
    requires Searchable(segs) && WideAt(segs, k)
    ensures LiteralPair(segs.parts, k)
  {
    forall i | 0 <= i < |segs.parts|
      ensures Sanitary(segs.parts[i])
    {
      PartSanitary(segs.matched, segs.parts[i], segs.indices[i]);
    }
  }

  lemma WitnessCanonical(segs: PathSegments, k: nat, limit: nat)
    requires Searchable(segs) && WideAt(segs, k) && Shortest(segs.parts, k) <= limit
    ensures LiteralPair(segs.parts, k) && ValidRoute(Witness(segs.parts, k))
    ensures CanonicalRoute(Witness(segs.parts, k), limit)
  {
    WideIsPair(segs, k);
    WitnessValid(segs.parts, k);
    WitnessLength(segs.parts, k);
    var p := WitnessParts(segs.parts, k);
    forall part <- p
      ensures SlashFree(part)
    {
      assert ValidPart(part);
      assert forall i | 0 <= i < |part| :: part[i] in part;
    }
    BuiltParts(p, false);
    BuiltIsCanonical(p, false);
  }

  /**
   For every wide gap between two literal segments: this one route is found by the trie and missed by
   its frozen form.
   */
  lemma GapBreaksParity(segs: PathSegments, k: nat)
    requires Searchable(segs) && WideAt(segs, k)
    ensures LiteralPair(segs.parts, k) && ValidRoute(Witness(segs.parts, k))
    ensures Find(Build([Witness(segs.parts, k)]), segs, 0).Some?
    ensures FrozenFind(FreezeRoot(Build([Witness(segs.parts, k)])), segs, 0) == None
  {
    WideIsPair(segs, k);
    var r := Witness(segs.parts, k);
    WitnessValid(segs.parts, k);
    OneRoute(r);
    WitnessMatches(segs.parts, k);
    SearchAnswersBestRoute([r], segs);
    assert r in [r];
    assert Straddles(r.parts, segs, 0, k);
    TowerMisses("", r.parts, RouteLeaf(r), "", 0, "", segs, 0, k);
    FrozenRootIsBody(Build([r]), segs);
  }

  lemma FrozenRootIsBody(root: Node, segs: PathSegments)
    requires Segmented(segs)
    ensures FrozenFind(FreezeRoot(root), segs, 0) == FrozenBody(FreezeNode(root, "", 0, ""), segs, 0)
  {
    assert FreezeRoot(root) == FreezeNode(root, "", 0, "") && FreezeRoot(root).spanSegs == 0;
  }

  // ---------------------------------------------------------------- the exact condition

  /**
   For every path the router hands to the search: freezing preserves the answer of every trie built
   from patterns of at most `limit` bytes if and only if no pattern of that length fits across a gap
   wider than one slash.
   */
  lemma ParityExactlyWhenNoneFits(segs: PathSegments, limit: nat)
    requires Searchable(segs)
    ensures AlwaysParity(segs, limit) <==> NoneFits(segs, limit)
  {
    if NoneFits(segs, limit) {
      forall attempts: seq<Route> | AllCanonical(attempts, limit)
        ensures Parity(Build(attempts), FreezeRoot(Build(attempts)), segs)
      {
        ParityWhenNoneFits(attempts, segs, limit);
      }
    } else {
      var k: nat :| WideAt(segs, k) && Shortest(segs.parts, k) <= limit;
      NoParityWhenOneFits(segs, k, limit);
    }
  }

  lemma ParityWhenNoneFits(attempts: seq<Route>, segs: PathSegments, limit: nat)
    requires AllCanonical(attempts, limit) && Segmented(segs) && NoneFits(segs, limit)
    ensures Parity(Build(attempts), FreezeRoot(Build(attempts)), segs)
  {
    BuildStoresAccepted(attempts);
    BuildNoSpan(attempts, segs, limit);
    FreezeParity(Build(attempts), segs);
  }

  lemma NoParityWhenOneFits(segs: PathSegments, k: nat, limit: nat)
    requires Searchable(segs) && WideAt(segs, k) && Shortest(segs.parts, k) <= limit
    ensures !AlwaysParity(segs, limit)
  {
    WitnessCanonical(segs, k, limit);
    GapBreaksParity(segs, k);
    BrokenParity([Witness(segs.parts, k)], segs, limit);
  }

  lemma BrokenParity(attempts: seq<Route>, segs: PathSegments, limit: nat)
    requires AllCanonical(attempts, limit) && Segmented(segs)
    requires Find(Build(attempts), segs, 0).Some? && FrozenFind(FreezeRoot(Build(attempts)), segs, 0) == None
    ensures !AlwaysParity(segs, limit)
  {
    assert !Parity(Build(attempts), FreezeRoot(Build(attempts)), segs);
  }

  /** Without a limit: if and only if adjacent literal segments are exactly one slash apart. */
  lemma ParityExactlyWhenSingleGaps(segs: PathSegments)
    requires Searchable(segs)
    ensures (forall limit: nat :: AlwaysParity(segs, limit)) <==> SingleStaticGaps(segs)
  {
    forall limit: nat
      ensures AlwaysParity(segs, limit) <==> NoneFits(segs, limit)
    {
      ParityExactlyWhenNoneFits(segs, limit);
    }
    if !SingleStaticGaps(segs) {
      var k: nat :| k < |segs.parts| - 1 && IsLiteral(segs.parts[k]) && IsLiteral(segs.parts[k + 1]) && !GapAt(segs, k);
      assert WideAt(segs, k) && !NoneFits(segs, Shortest(segs.parts, k));
      assert !AlwaysParity(segs, Shortest(segs.parts, k));
    }
  }

  // ---------------------------------------------------------------- the shortest instance

  lemma DoubleSlashSegments()
    ensures Segment("/a//b", "/a//b") == PathSegments("/a//b", "/a//b", ["a", "b"], [1, 4, 5])
  {
    var s := "/a//b";
    HeadRun(s, 4, "b", "");
    assert Parts(s, 3) == ["b"] && Starts(s, 3) == [4];
    HeadRun(s, 1, "a", "//b");
    assert Parts(s, 0) == Parts(s, 1) && Starts(s, 0) == Starts(s, 1);
  }

  /** "/a//b" finds the route "/a/b" in the trie and misses it in the frozen form. */
  lemma DoubleSlashExample(handler: Handler)
    ensures var segs, t := Segment("/a//b", "/a//b"), Build([Route(["a", "b"], "/a/b", handler)]);
            && Segmented(segs)
            && Find(t, segs, 0) == Some(Match(Leaf("/a/b", Some(handler), false), []))
            && FrozenFind(FreezeRoot(t), segs, 0) == None
  {
    DoubleSlashFound(handler);
    DoubleSlashMissed(handler);
    DoubleSlashRoute(handler);
    OneRoute(Route(["a", "b"], "/a/b", handler));
  }

  lemma DoubleSlashRoute(handler: Handler)
    ensures var r := Route(["a", "b"], "/a/b", handler);
            ValidRoute(r) && RouteLeaf(r) == Leaf("/a/b", Some(handler), false)
  {
    assert !AnyDynamic(["a", "b"]);
  }

  lemma DoubleSlashFound(handler: Handler)
    ensures var segs, t := Segment("/a//b", "/a//b"), Build([Route(["a", "b"], "/a/b", handler)]);
            Segmented(segs) && Find(t, segs, 0) == Some(Match(Leaf("/a/b", Some(handler), false), []))
  {
    DoubleSlashSegments();
    SegmentedPath("/a//b", "/a//b");
    DoubleSlashRoute(handler);
    var r := Route(["a", "b"], "/a/b", handler);
    OneRoute(r);
    BuildStoresAccepted([r]);
    assert r in [r];
    StaticRouteFound(Build([r]), Segment("/a//b", "/a//b"));
  }

  lemma DoubleSlashMissed(handler: Handler)
    ensures var segs, t := Segment("/a//b", "/a//b"), Tower("", ["a", "b"], Leaf("/a/b", Some(handler), false));
            Segmented(segs) && FrozenFind(FreezeRoot(t), segs, 0) == None
  {
    DoubleSlashSegments();
    SegmentedPath("/a//b", "/a//b");
    var segs, leaf := Segment("/a//b", "/a//b"), Leaf("/a/b", Some(handler), false);
    assert Straddles(["a", "b"], segs, 0, 0);
    TowerMisses("", ["a", "b"], leaf, "", 0, "", segs, 0, 0);
    FrozenRootIsBody(Tower("", ["a", "b"], leaf), segs);
  }
}

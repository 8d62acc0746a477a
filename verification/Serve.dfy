/**
 Serving and the Allow set on one quiescent table: the static map as an index of the tries, and the
 agreement between what is served and what the Allow header lists.
 */
module Serve {
  import opened Base
  import opened Segments
  import opened Paths
  import opened Trie
  import opened Search
  import opened Allow
  import opened Table

  /** The handler called, and the parameters its response writer exposes. */
  datatype Answer = Answer(handler: Handler, bindings: seq<Binding>)

  // ---------------------------------------------------------------- serving

  function ServeMatch(found: Option<Match>): Option<Answer> {
    if found.Some? && found.value.leaf.handler.Some? then
      Some(Answer(found.value.leaf.handler.value, if found.value.leaf.hasParams then found.value.bindings else []))
    else None
  }

  /** serveMethodInTable: the static map first, then the trie if the method has parameter routes. */
  function ServeMethod(t: RouteTable, m: string, matchPath: string, rawPath: string): Option<Answer>
    requires |rawPath| == |matchPath|
  {
    if IndexHit(t, m, matchPath).Some? then Some(Answer(IndexHit(t, m, matchPath).value, []))
    else if !HasParams(t, m) then None
    else if HasControl(matchPath) then None
    else
      var segs := Segment(matchPath, rawPath);
      SegmentedPath(matchPath, rawPath);
      if |segs.parts| > MAX_DEPTH then None
      else if m !in t.roots then None
      else ServeMatch(Find(t.roots[m], segs, 0))
  }

  function FirstAnswer(a: Option<Answer>, b: Option<Answer>): Option<Answer> {
    if a.Some? then a else b
  }

  /** serveInTable: HEAD falls back to GET. */
  function ServeInTable(t: RouteTable, m: string, matchPath: string, rawPath: string): Option<Answer>
    requires |rawPath| == |matchPath|
  {
    if m == HEAD then FirstAnswer(ServeMethod(t, HEAD, matchPath, rawPath), ServeMethod(t, GET, matchPath, rawPath))
    else ServeMethod(t, m, matchPath, rawPath)
  }

  // ---------------------------------------------------------------- allowed methods

  /** Methods with parameter routes and a trie. */
  predicate IsSearched(t: RouteTable, m: string) {
    m in t.hasParams && t.hasParams[m] && m in t.roots
  }

  function Searched(t: RouteTable): set<string> {
    set m | m in t.hasParams && IsSearched(t, m)
  }

  predicate TrieMatches(n: Node, path: string) {
    SegmentedPath(path, path);
    Find(n, Segment(path, path), 0).Some?
  }

  predicate IsHit(t: RouteTable, path: string, m: string) {
    IsSearched(t, m) && TrieMatches(t.roots[m], path)
  }

  /** The path cannot be split, or is too deep. */
  predicate Unsearchable(path: string) {
    HasControl(path) || |Parts(path, 0)| > MAX_DEPTH
  }

  /** The methods whose trie matches the path. */
  function TrieHits(t: RouteTable, path: string): set<string> {
    set m | m in t.hasParams && IsHit(t, path, m)
  }

  /** The methods found before HEAD and OPTIONS are added. */
  function Found(t: RouteTable, path: string): set<string> {
    if !t.anyParams then StaticMethods(t.statics, path)
    else if Searched(t) != {} && Unsearchable(path) then {}
    else StaticMethods(t.statics, path) + TrieHits(t, path)
  }

  /** allowedMethodsInTable: the cached header when no method has parameters, a full scan otherwise. */
  ghost function AllowedInTable(t: RouteTable, path: string): Option<string> {
    if !t.anyParams then Cached(t, path)
    else if Found(t, path) == {} then None
    else Some(AllowHeader(Closure(Found(t, path))))
  }

  method AllowedMethodsInTable(t: RouteTable, path: string) returns (header: string, ok: bool)
    ensures AllowedInTable(t, path) == if ok then Some(header) else None
  {
    if !t.anyParams {
      if path in t.staticAllow {
        return t.staticAllow[path], true;
      }
      return "", false;
    }
    var bits, custom := ScanStatics(t.statics, path);
    var blocked;
    bits, custom, blocked := ScanTries(t, path, bits, custom);
    if blocked {
      return "", false;
    }
    header, ok := FinishAllow(bits, custom);
  }

  /** The second loop: the path is split at the first trie that needs it, and a failed split ends the scan. */
  method ScanTries(t: RouteTable, path: string, bits0: set<string>, custom0: seq<string>)
    returns (bits: set<string>, custom: seq<string>, blocked: bool)
    requires Collected(bits0, custom0)
    ensures Collected(bits, custom)
    ensures blocked <==> Searched(t) != {} && Unsearchable(path)
    ensures !blocked ==> bits + Elements(custom) == bits0 + Elements(custom0) + TrieHits(t, path)
  {
    bits, custom, blocked := bits0, custom0, false;
    var todo := t.hasParams.Keys;
    var split := false;
    ghost var base: set<string>, done: set<string> := bits0 + Elements(custom0), {};
    while todo != {}
      invariant done + todo == t.hasParams.Keys
      invariant Collected(bits, custom)
      invariant if split then !Unsearchable(path) else forall x <- done :: !IsSearched(t, x)
      invariant forall x :: x in bits + Elements(custom) <==> x in base || (x in done && IsHit(t, path, x))
      decreases |todo|
    {
      var m :| m in todo;
      todo, done := todo - {m}, done + {m};
      bits, custom, split, blocked := VisitTrie(t, path, m, bits, custom, split);
      if blocked {
        return;
      }
    }
    assert bits + Elements(custom) == base + TrieHits(t, path);
  }

  /** One round of that loop; `split` remembers that the path has been split. */
  method VisitTrie(t: RouteTable, path: string, m: string, bits0: set<string>, custom0: seq<string>, split0: bool)
    returns (bits: set<string>, custom: seq<string>, split: bool, blocked: bool)
    requires m in t.hasParams && (split0 ==> !Unsearchable(path))
    requires Collected(bits0, custom0)
    ensures Collected(bits, custom)
    ensures blocked <==> IsSearched(t, m) && Unsearchable(path)
    ensures !blocked ==> (split <==> split0 || IsSearched(t, m)) && (split ==> !Unsearchable(path))
    ensures !blocked ==> bits + Elements(custom) ==
                         bits0 + Elements(custom0) + if IsHit(t, path, m) then {m} else {}
  {
    bits, custom, split, blocked := bits0, custom0, split0, false;
    if t.hasParams[m] && m in t.roots {
      if !split {
        var segs, segsOk := GetPartsWithRaw(path, path);
        if !segsOk || |segs.parts| > MAX_DEPTH {
          blocked := true;
          return;
        }
        split := true;
      }
      if TrieMatches(t.roots[m], path) {
        bits, custom := AddAllowedMethod(m, bits, custom);
      }
    }
  }

  // ---------------------------------------------------------------- the static index

  /**
   Whenever the static map answers, the trie search on that path reaches the leaf with the same
   handler and no parameters, whatever dynamic routes overlap it.
   */
  lemma StaticIndexSound(t: RouteTable, m: string, path: string, raw: string)
    requires TableOk(t) && IndexHit(t, m, path).Some? && |raw| == |path|
    ensures !Unsearchable(path) && m in t.roots && Segmented(Segment(path, raw))
    ensures Find(t.roots[m], Segment(path, raw), 0) == Some(Match(Leaf(path, IndexHit(t, m, path), false), []))
  {
    assert IndexHit(t, m, path) == TrieHit(t, m, path);
    var segs := Segment(path, raw);
    SegmentedPath(path, raw);
    var leaf := Lookup(t.roots[m], segs.parts).value;
    assert LeafOk(segs.parts, leaf);
    StaticRouteFound(t.roots[m], segs);
  }

  // ---------------------------------------------------------------- Allow agrees with serving

  /** The leaf found does not depend on the path parameters are cut from. */
  lemma {:induction false} LeafIgnoresRaw(n: Node, a: PathSegments, b: PathSegments, h: nat)
    requires Segmented(a) && Segmented(b) && a.parts == b.parts && h <= |a.parts|
    ensures LeafFound(Find(n, a, h)) == LeafFound(Find(n, b, h))
    decreases n
  {
    if n.wild.Some? {
      LeafIgnoresRaw(n.wild.value, a, b, h);
    }
    if h < |a.parts| {
      if a.parts[h] in n.statics {
        LeafIgnoresRaw(n.statics[a.parts[h]], a, b, h + 1);
      }
      if n.param.Some? {
        LeafIgnoresRaw(n.param.value, a, b, h + 1);
      }
      ChildrenIgnoreRaw(n, a, b, h);
    }
  }

  lemma ChildrenIgnoreRaw(n: Node, a: PathSegments, b: PathSegments, h: nat)
    requires Segmented(a) && Segmented(b) && a.parts == b.parts && h < |a.parts|
    requires n.wild.Some? ==> LeafFound(Find(n.wild.value, a, h)) == LeafFound(Find(n.wild.value, b, h))
    requires a.parts[h] in n.statics ==>
               LeafFound(Find(n.statics[a.parts[h]], a, h + 1)) == LeafFound(Find(n.statics[a.parts[h]], b, h + 1))
    requires n.param.Some? ==> LeafFound(Find(n.param.value, a, h + 1)) == LeafFound(Find(n.param.value, b, h + 1))
    ensures LeafFound(Find(n, a, h)) == LeafFound(Find(n, b, h))
  {
    assert LeafFound(FindParam(n, a, h)) == LeafFound(FindParam(n, b, h));
    assert LeafFound(FindWild(n, a, h)) == LeafFound(FindWild(n, b, h));
  }

  /** In a table every leaf found has a handler. */
  lemma FoundHasHandler(t: RouteTable, m: string, segs: PathSegments)
    requires RootsOk(t) && m in t.roots && Segmented(segs) && Find(t.roots[m], segs, 0).Some?
    ensures Find(t.roots[m], segs, 0).value.leaf.handler.Some?
  {
    FindIsBestMatch(t.roots[m], segs, 0);
    var found := Find(t.roots[m], segs, 0).value;
    var p :| IsBest(t.roots[m], segs, 0, p, found);
  }

  /** A method is found exactly when it is served under its own name. */
  lemma FoundIsServed(t: RouteTable, m: string, path: string, raw: string)
    requires TableOk(t) && |raw| == |path|
    ensures m in Found(t, path) <==> ServeMethod(t, m, path, raw).Some?
  {
    if IndexHit(t, m, path).Some? {
      StaticIndexSound(t, m, path, path);
    } else {
      TrieFoundIsServed(t, m, path, raw);
    }
  }

  lemma TrieFoundIsServed(t: RouteTable, m: string, path: string, raw: string)
    requires TableOk(t) && |raw| == |path| && IndexHit(t, m, path).None?
    ensures m in Found(t, path) <==> ServeMethod(t, m, path, raw).Some?
  {
    assert HasParams(t, m) ==> t.anyParams;
    assert HasParams(t, m) ==> StoresParams(t, m);
    assert HasParams(t, m) <==> m in Searched(t);
    if HasParams(t, m) && !Unsearchable(path) {
      SegmentedPath(path, raw);
      SegmentedPath(path, path);
      LeafIgnoresRaw(t.roots[m], Segment(path, path), Segment(path, raw), 0);
      if Find(t.roots[m], Segment(path, raw), 0).Some? {
        FoundHasHandler(t, m, Segment(path, raw));
      }
    }
  }

  /** A trie that matches serves, unless the static map does so already. */
  lemma TrieServes(t: RouteTable, m: string, path: string)
    requires TableOk(t) && HasParams(t, m) && m in t.roots && !Unsearchable(path) && TrieMatches(t.roots[m], path)
    ensures ServeMethod(t, m, path, path).Some?
  {
    if IndexHit(t, m, path).None? {
      SegmentedPath(path, path);
      FoundHasHandler(t, m, Segment(path, path));
    }
  }

  /** Without parameter routes, skipping the scan of the tries loses nothing. */
  lemma FastPathIsFullScan(t: RouteTable, path: string)
    requires TableOk(t) && !t.anyParams
    ensures Found(t, path) == Found(t.(anyParams := true), path)
    ensures AllowedInTable(t, path) == AllowedInTable(t.(anyParams := true), path)
  {
    var u := t.(anyParams := true);
    forall m
      ensures m !in Searched(u) && m !in TrieHits(u, path)
    {
      assert !HasParams(t, m);
    }
    assert Searched(u) == {} && TrieHits(u, path) == {};
    assert Found(u, path) == Found(t, path);
    AllowedIsSet(t, path);
  }

  /** The set of methods of a path that the Allow header lists. */
  function AllowedSet(t: RouteTable, path: string): set<string> {
    if Found(t, path) == {} then {} else Closure(Found(t, path))
  }

  /** The header is the rendering of that set; the cache never serves a stale one. */
  lemma AllowedIsSet(t: RouteTable, path: string)
    requires TableOk(t)
    ensures AllowedInTable(t, path) ==
            if AllowedSet(t, path) == {} then None else Some(AllowHeader(AllowedSet(t, path)))
  {
    assert Cached(t, path) == StaticAllow(t.statics, path);
    assert Found(t, path) != {} ==> OPTIONS in Closure(Found(t, path));
  }

  /**
   Allow agrees with dispatch: a method other than OPTIONS is listed exactly when it would be served,
   HEAD through GET included, and OPTIONS is listed exactly when something is.
   */
  lemma AllowAgreesWithServing(t: RouteTable, path: string, raw: string, m: string)
    requires TableOk(t) && |raw| == |path|
    ensures m != OPTIONS ==> (m in AllowedSet(t, path) <==> ServeInTable(t, m, path, raw).Some?)
    ensures OPTIONS in AllowedSet(t, path) <==> AllowedSet(t, path) != {}
    ensures AllowedSet(t, path) != {} <==> exists m' :: ServeMethod(t, m', path, raw).Some?
  {
    FoundIsServed(t, m, path, raw);
    FoundIsServed(t, HEAD, path, raw);
    FoundIsServed(t, GET, path, raw);
    if Found(t, path) != {} {
      var m' :| m' in Found(t, path);
      FoundIsServed(t, m', path, raw);
    }
    if m' :| ServeMethod(t, m', path, raw).Some? {
      FoundIsServed(t, m', path, raw);
    }
  }
}

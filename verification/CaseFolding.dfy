/**
 Case-insensitive routing: matching runs on the lower-case path and capturing on the original one.
 Paths that differ only in case get the same leaf, and captured values keep their case.
 */
module CaseFolding {
  import opened Base
  import opened Segments
  import opened Paths
  import opened Trie
  import opened Search
  import opened Allow
  import opened Table
  import opened Serve
  import opened Dispatch
  import opened Registration

  // ---------------------------------------------------------------- captured values

  /** The segmentation of a request, with case ignored or not. */
  function RequestSegments(p: string, folded: bool): (segs: PathSegments)
    ensures Segmented(segs)
  {
    SegmentedPath(Key(p, folded), p);
    Segment(Key(p, folded), p)
  }

  /**
   A captured value is the text of the original path at the matched place, case included. The
   branch that skips a slash before a wildcard's rest is never taken.
   */
  lemma CapturesKeepCase(p: string, folded: bool, h: nat)
    requires h <= |Parts(p, 0)|
    ensures var segs := RequestSegments(p, folded);
            && |segs.parts| == |Parts(p, 0)|
            && (h < |segs.parts| ==>
               ParamValue(segs, h) == Parts(p, 0)[h] && segs.parts[h] == Key(Parts(p, 0)[h], folded))
            && (segs.indices[h] == |p| <==> h == |segs.parts|)
            && (segs.indices[h] < |p| ==> p[segs.indices[h]] != '/')
            && WildValue(segs, h) == p[segs.indices[h]..]
  {
    RequestPlaces(p, folded);
    if h < |Parts(p, 0)| {
      SegmentText(p, h);
    }
  }

  /** Folding moves no segment. */
  lemma RequestPlaces(p: string, folded: bool)
    ensures RequestSegments(p, folded).path == p && RequestSegments(p, folded).indices == Starts(p, 0) + [|p|]
    ensures |RequestSegments(p, folded).parts| == |Parts(p, 0)| == |Starts(p, 0)|
    ensures forall h | 0 <= h < |Parts(p, 0)| :: RequestSegments(p, folded).parts[h] == Key(Parts(p, 0)[h], folded)
  {
    LowerParts(p, 0);
    SegmentedPath(p, p);
  }

  lemma SegmentText(p: string, h: nat)
    requires h < |Parts(p, 0)|
    ensures |Starts(p, 0)| == |Parts(p, 0)|
    ensures var start, part := Starts(p, 0)[h], Parts(p, 0)[h];
            part != "" && start + |part| <= |p| && p[start..start + |part|] == part && p[start] != '/'
  {
    SegmentedPath(p, p);
    assert SegmentAt(p, Parts(p, 0)[h], Starts(p, 0)[h]);
  }

  // ---------------------------------------------------------------- paths equal up to case

  predicate Alike(p: string, q: string) {
    Lower(p) == Lower(q)
  }

  ghost predicate AlikeBindings(a: seq<Binding>, b: seq<Binding>) {
    |a| == |b| && forall i | 0 <= i < |a| :: a[i].key == b[i].key && Alike(a[i].value, b[i].value)
  }

  ghost predicate AlikeMatches(a: Option<Match>, b: Option<Match>) {
    && a.Some? == b.Some?
    && (a.Some? ==> a.value.leaf == b.value.leaf && AlikeBindings(a.value.bindings, b.value.bindings))
  }

  /** The same segments, with values from two paths that differ only in case. */
  ghost predicate AlikeSegments(a: PathSegments, b: PathSegments) {
    Segmented(a) && Segmented(b) && a.parts == b.parts && a.indices == b.indices && Alike(a.path, b.path)
  }

  lemma SliceAlike(p: string, q: string, i: nat, j: nat)
    requires Alike(p, q) && i <= j <= |p|
    ensures |p| == |q| && Alike(p[i..j], q[i..j])
  {
    assert |Lower(p)| == |Lower(q)|;
    assert Lower(p[i..j]) == Lower(p)[i..j];
    assert Lower(q[i..j]) == Lower(q)[i..j];
  }

  lemma ValuesAlike(a: PathSegments, b: PathSegments, h: nat)
    requires AlikeSegments(a, b) && h <= |a.parts|
    ensures h < |a.parts| ==> Alike(ParamValue(a, h), ParamValue(b, h))
    ensures Alike(WildValue(a, h), WildValue(b, h))
  {
    StartInPath(a, h);
    var start := a.indices[h];
    SliceAlike(a.path, b.path, start, |a.path|);
    if start < |a.path| {
      assert Lower(a.path)[start] == Lower(b.path)[start];
      SliceAlike(a.path, b.path, start + 1, |a.path|);
    }
    if h < |a.parts| && start + |a.parts[h]| <= |a.path| {
      SliceAlike(a.path, b.path, start, start + |a.parts[h]|);
    }
  }

  lemma {:induction false} FindAlike(n: Node, a: PathSegments, b: PathSegments, h: nat)
    requires AlikeSegments(a, b) && h <= |a.parts|
    ensures AlikeMatches(Find(n, a, h), Find(n, b, h))
    decreases n
  {
    ValuesAlike(a, b, h);
    if n.wild.Some? {
      FindAlike(n.wild.value, a, b, h);
    }
    if h < |a.parts| {
      if a.parts[h] in n.statics {
        FindAlike(n.statics[a.parts[h]], a, b, h + 1);
      }
      if n.param.Some? {
        FindAlike(n.param.value, a, b, h + 1);
      }
      ChildrenAlike(n, a, b, h);
    }
  }

  lemma ChildrenAlike(n: Node, a: PathSegments, b: PathSegments, h: nat)
    requires AlikeSegments(a, b) && h < |a.parts|
    requires n.wild.Some? ==> AlikeMatches(Find(n.wild.value, a, h), Find(n.wild.value, b, h))
    requires a.parts[h] in n.statics ==>
               AlikeMatches(Find(n.statics[a.parts[h]], a, h + 1), Find(n.statics[a.parts[h]], b, h + 1))
    requires n.param.Some? ==> AlikeMatches(Find(n.param.value, a, h + 1), Find(n.param.value, b, h + 1))
    ensures AlikeMatches(Find(n, a, h), Find(n, b, h))
  {
    ValuesAlike(a, b, h);
    assert AlikeMatches(FindParam(n, a, h), FindParam(n, b, h));
    assert AlikeMatches(FindWild(n, a, h), FindWild(n, b, h));
  }

  // ---------------------------------------------------------------- outcomes equal up to case

  ghost predicate AlikeAnswers(a: Option<Answer>, b: Option<Answer>) {
    && a.Some? == b.Some?
    && (a.Some? ==> a.value.handler == b.value.handler && AlikeBindings(a.value.bindings, b.value.bindings))
  }

  /** The same outcome, except that redirect targets and captured values keep the case of their request. */
  ghost predicate AlikeOutcomes(a: Outcome, b: Outcome) {
    match a
    case Redirect(target, raw, code) => b.Redirect? && Alike(target, b.target) && b.raw == raw && b.code == code
    case Served(answer) => b.Served? && AlikeAnswers(Some(answer), Some(b.answer))
    case OptionsAnswered(allow) => b == a
    case MethodNotAllowed(allow) => b == a
    case NotFound => b == a
    case TooLong => b == a
  }

  ghost predicate AlikeOptions(a: Option<Outcome>, b: Option<Outcome>) {
    a.Some? == b.Some? && (a.Some? ==> AlikeOutcomes(a.value, b.value))
  }

  lemma ServeMethodAlike(t: RouteTable, m: string, matchPath: string, p: string, q: string)
    requires |p| == |matchPath| && Alike(p, q)
    ensures |q| == |p|
    ensures AlikeAnswers(ServeMethod(t, m, matchPath, p), ServeMethod(t, m, matchPath, q))
  {
    SliceAlike(p, q, 0, 0);
    SegmentedPath(matchPath, p);
    SegmentedPath(matchPath, q);
    if m in t.roots {
      FindAlike(t.roots[m], Segment(matchPath, p), Segment(matchPath, q), 0);
    }
  }

  lemma ServeAlike(t: RouteTable, m: string, matchPath: string, p: string, q: string)
    requires |p| == |matchPath| && Alike(p, q)
    ensures |q| == |p|
    ensures AlikeAnswers(ServeInTable(t, m, matchPath, p), ServeInTable(t, m, matchPath, q))
  {
    ServeMethodAlike(t, m, matchPath, p, q);
    ServeMethodAlike(t, HEAD, matchPath, p, q);
    ServeMethodAlike(t, GET, matchPath, p, q);
  }

  /** Two requests past their preparation that differ only in the case of the path. */
  ghost predicate AlikeContexts(a: Context, b: Context) {
    a.folded && b.folded && a.method_ == b.method_ && a.useRaw == b.useRaw && Alike(a.paramPath, b.paramPath)
  }

  lemma AlternateAlike(t: RouteTable, a: Context, b: Context, strict: bool)
    requires AlikeContexts(a, b)
    ensures AlikeOptions(AlternateSlash(t, a, strict), AlternateSlash(t, b, strict))
  {
    AlternateFolds(a);
    AlternateFolds(b);
    if AlternatePath(a.MatchPath()).Some? {
      var p, q := AlternatePath(a.paramPath).value, AlternatePath(b.paramPath).value;
      assert Alike(p, q);
      ServeAlike(t, a.method_, Lower(p), p, q);
    }
  }

  lemma TryTableAlike(t: RouteTable, a: Context, b: Context, strict: bool)
    requires AlikeContexts(a, b)
    ensures AlikeOptions(TryTable(t, a, strict), TryTable(t, b, strict))
  {
    ServeAlike(t, a.method_, a.MatchPath(), a.paramPath, b.paramPath);
    AlternateAlike(t, a, b, strict);
    assert NotAllowed(t, a, strict) == NotAllowed(t, b, strict);
  }

  // ---------------------------------------------------------------- cleaning and case

  function LowerAll(parts: seq<string>): (r: seq<string>)
    ensures |r| == |parts| && forall i | 0 <= i < |parts| :: r[i] == Lower(parts[i])
  {
    seq(|parts|, i requires 0 <= i < |parts| => Lower(parts[i]))
  }

  lemma LowerConcat(a: string, b: string)
    ensures Lower(a + b) == Lower(a) + Lower(b)
  {
  }

  lemma {:induction false} ResolveFolds(parts: seq<string>, kept: seq<string>)
    ensures Resolve(LowerAll(parts), LowerAll(kept)) == LowerAll(Resolve(parts, kept))
    decreases |parts|
  {
    if parts != [] {
      DotsHaveNoCase(parts[0]);
      assert LowerAll(parts)[1..] == LowerAll(parts[1..]);
      if parts[0] == "." {
        ResolveFolds(parts[1..], kept);
      } else if parts[0] == ".." {
        var less := if kept == [] then [] else kept[..|kept| - 1];
        assert LowerAll(less) == if kept == [] then [] else LowerAll(kept)[..|kept| - 1];
        ResolveFolds(parts[1..], less);
      } else {
        assert LowerAll(kept + [parts[0]]) == LowerAll(kept) + [Lower(parts[0])];
        ResolveFolds(parts[1..], kept + [parts[0]]);
      }
    }
  }

  lemma {:induction false} JoinFolds(parts: seq<string>)
    ensures Join(LowerAll(parts)) == Lower(Join(parts))
  {
    if |parts| > 1 {
      JoinFolds(parts[1..]);
      assert LowerAll(parts)[1..] == LowerAll(parts[1..]);
      LowerConcat(parts[0] + "/", Join(parts[1..]));
      LowerConcat(parts[0], "/");
    }
  }

  lemma CleanFolds(q: string)
    ensures Clean(Lower(q)) == Lower(Clean(q))
  {
    var kept := Resolve(Parts(q, 0), []);
    LowerParts(q, 0);
    assert Parts(Lower(q), 0) == LowerAll(Parts(q, 0));
    assert LowerAll([]) == [];
    ResolveFolds(Parts(q, 0), []);
    JoinFolds(kept);
    LowerConcat("/", Join(kept));
  }

  /** The trailing slash that cleanPath puts back. */
  function Trail(cp: string, q: string): string
    requires q != "" && cp != ""
  {
    if |cp| > 1 && q[|q| - 1] == '/' && cp[|cp| - 1] != '/' then cp + "/" else cp
  }

  lemma TrailFolds(cp: string, q: string)
    requires q != "" && cp != ""
    ensures Trail(Lower(cp), Lower(q)) == Lower(Trail(cp, q))
  {
    LowerConcat(cp, "/");
  }

  /** Cleaning a path does not depend on its case. */
  lemma CleanPathFolds(p: string)
    ensures CleanPath(Lower(p)) == Lower(CleanPath(p))
  {
    if p != "" {
      var q := Rooted(p);
      LowerConcat("/", p);
      CleanFolds(q);
      TrailFolds(Clean(q), q);
      assert Rooted(Lower(p)) == Lower(q);
      assert CleanPath(p) == Trail(Clean(q), q);
      assert CleanPath(Lower(p)) == Trail(Clean(Lower(q)), Lower(q));
    }
  }

  lemma SameRun(s: string, t: string, i: nat)
    requires i < |s| && i < |t| && s[i] != '/' && t[i] != '/' && Parts(s, i) == Parts(t, i)
    ensures EndOf(s, i) == EndOf(t, i)
    ensures var e := EndOf(s, i); s[i..e] == t[i..e] && Parts(s, e) == Parts(t, e)
  {
    var e, f := EndOf(s, i), EndOf(t, i);
    assert s[i..e] == Parts(s, i)[0] == t[i..f];
    assert |s[i..e]| == e - i && |t[i..f]| == f - i;
    assert Parts(s, e) == Parts(s, i)[1..] && Parts(t, f) == Parts(t, i)[1..];
  }

  /** Alike paths with the same segments are the same path. */
  lemma {:induction false} SameByParts(s: string, t: string, i: nat)
    requires Alike(s, t) && i <= |s| && i <= |t| && Parts(s, i) == Parts(t, i)
    ensures s[i..] == t[i..]
    decreases |s| - i
  {
    assert |Lower(s)| == |Lower(t)|;
    if i < |s| {
      assert Lower(s)[i] == Lower(t)[i];
      if s[i] == '/' {
        SameByParts(s, t, i + 1);
        assert s[i..] == "/" + s[i + 1..] && t[i..] == "/" + t[i + 1..];
      } else {
        var e := EndOf(s, i);
        SameRun(s, t, i);
        SameByParts(s, t, e);
        assert s[i..] == s[i..e] + s[e..] && t[i..] == t[i..e] + t[e..];
      }
    }
  }

  lemma PartsAlike(p: string, q: string)
    requires Alike(p, q)
    ensures LowerAll(Parts(p, 0)) == LowerAll(Parts(q, 0))
  {
    LowerParts(p, 0);
    LowerParts(q, 0);
    assert LowerAll(Parts(p, 0)) == Parts(Lower(p), 0);
  }

  /** Whether cleanPath keeps a path does not depend on its case. */
  lemma CanonicalAlike(p: string, q: string)
    requires Alike(p, q) && CleanPath(p) == p
    ensures CleanPath(q) == q
  {
    CanonicalResolves(p);
    assert |Lower(p)| == |Lower(q)| && Lower(q)[0] == Lower(p)[0];
    PartsAlike(p, q);
    var a, b := Parts(p, 0), Parts(q, 0);
    ResolveFolds(a, []);
    ResolveFolds(b, []);
    assert |Resolve(b, [])| == |LowerAll(Resolve(b, []))| == |LowerAll(a)| == |LowerAll(b)|;
    ResolveDrops(b, []);
    CleanedParts(q);
    CleanPathFolds(p);
    CleanPathFolds(q);
    SameByParts(CleanPath(q), q, 0);
    assert q[0..] == q && CleanPath(q)[0..] == CleanPath(q);
  }

  lemma CleanPathsAlike(p: string, q: string)
    requires Alike(p, q)
    ensures Alike(CleanPath(p), CleanPath(q)) && (CleanPath(p) == p <==> CleanPath(q) == q)
  {
    CleanPathFolds(p);
    CleanPathFolds(q);
    if CleanPath(p) == p {
      CanonicalAlike(p, q);
    } else if CleanPath(q) == q {
      CanonicalAlike(q, p);
    }
  }

  /** Requests that differ only in the case of their paths. */
  ghost predicate AlikeRequests(a: Request, b: Request, useRawPath: bool) {
    && a.method_ == b.method_ && a.host == b.host && Alike(a.path, b.path) && Alike(a.rawPath, b.rawPath)
    && UsesRaw(a, useRawPath) == UsesRaw(b, useRawPath)
  }

  /** With IgnoreCase on, requests equal up to case are answered alike. */
  lemma CaseBlindDispatch(r: Router, a: Request, b: Request)
    requires IgnoreCaseActive(r) && AlikeRequests(a, b, r.useRawPath)
    ensures AlikeOutcomes(ServeHTTP(r, a), ServeHTTP(r, b))
  {
    CleanPathsAlike(a.path, b.path);
    assert |Lower(a.path)| == |Lower(b.path)| && |Lower(a.rawPath)| == |Lower(b.rawPath)|;
    assert |Lower(CleanPath(a.path))| == |Lower(CleanPath(b.path))|;
    if Prepare(a, r.useRawPath, true).Go? {
      var x, y := Prepare(a, r.useRawPath, true).ctx, Prepare(b, r.useRawPath, true).ctx;
      if a.host != "" && a.host in r.hosts {
        TryTableAlike(r.hosts[a.host], x, y, r.strictSlash);
      }
      TryTableAlike(r.table, x, y, r.strictSlash);
    }
  }

  // ---------------------------------------------------------------- what a folded pattern matches

  /** Matching with literal segments compared up to case. */
  predicate MatchesAlike(p: seq<string>, parts: seq<string>)
    decreases |p|
  {
    if p == [] then parts == []
    else if IsWild(p[0]) then |p| == 1
    else if parts == [] then false
    else (IsParam(p[0]) || Alike(p[0], parts[0])) && MatchesAlike(p[1..], parts[1..])
  }

  /** A pattern stored in folded form matches a folded path exactly when the original ones match up to case. */
  lemma {:induction false} FoldedMatch(p: seq<string>, parts: seq<string>)
    requires forall i | 0 <= i < |p| :: Sanitary(p[i])
    ensures Matches(FoldParts(p), LowerAll(parts)) <==> MatchesAlike(p, parts)
    decreases |p|
  {
    if p != [] {
      FoldPartFacts(p[0]);
      assert IsParam(FoldPart(p[0])) <==> IsParam(p[0]);
      assert FoldParts(p)[1..] == FoldParts(p[1..]);
      if parts != [] {
        assert LowerAll(parts)[1..] == LowerAll(parts[1..]);
        FoldedMatch(p[1..], parts[1..]);
      }
    }
  }
}

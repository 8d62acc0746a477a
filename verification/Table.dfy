/**
 The routing table of one host: a trie per method, the static index, the cached Allow headers and
 the flags, and what every registration keeps true of them.
 */
module Table {
  import opened Base
  import opened Segments
  import opened Paths
  import opened Trie
  import opened Routes
  import opened Allow

  datatype RouteTable = RouteTable(
    roots: map<string, Node>,
    statics: map<string, map<string, Handler>>,
    staticAllow: map<string, string>,
    hasParams: map<string, bool>,
    anyParams: bool,
    hasTrailing: bool)

  const NEW_TABLE: RouteTable := RouteTable(map[], map[], map[], map[], false, false)

  // ---------------------------------------------------------------- registration

  /** What handle does under its lock, once the pattern is validated. */
  datatype TableUpdate = TableUpdate(table: RouteTable, error: Option<InsertError>)

  predicate HasTrailingSlash(pattern: string) {
    |pattern| > 1 && pattern[|pattern| - 1] == '/'
  }

  function RootOf(t: RouteTable, m: string): Node {
    if m in t.roots then t.roots[m] else EMPTY_ROOT
  }

  function StaticsOf(t: RouteTable, m: string): map<string, Handler> {
    if m in t.statics then t.statics[m] else map[]
  }

  /** The methods with a static route at this path. */
  function StaticMethods(statics: map<string, map<string, Handler>>, path: string): set<string> {
    set m | m in statics && path in statics[m]
  }

  /** The cached header is recomputed for the path just registered. */
  ghost function StaticAllow(statics: map<string, map<string, Handler>>, path: string): Option<string> {
    var ms := StaticMethods(statics, path);
    if ms == {} then None else Some(AllowHeader(Closure(ms)))
  }

  ghost function TableInsert(t: RouteTable, m: string, r: Route): TableUpdate {
    var inserted := Register(RootOf(t, m), r);
    var t1 := t.(roots := t.roots[m := inserted.node]);
    if inserted.error.Some? then TableUpdate(t1, inserted.error)
    else
      var t2 := if HasTrailingSlash(r.pattern) then t1.(hasTrailing := true) else t1;
      if AnyDynamic(r.parts) then
        TableUpdate(t2.(hasParams := t.hasParams[m := true], anyParams := true), None)
      else
        var statics := t.statics[m := StaticsOf(t, m)[r.pattern := r.handler]];
        var allow := StaticAllow(statics, r.pattern);
        var cache := if allow.Some? then t.staticAllow[r.pattern := allow.value] else t.staticAllow;
        TableUpdate(t2.(statics := statics, staticAllow := cache), None)
  }

  /** The loop over the static maps, shared by the Allow functions; a map is ranged over in any order. */
  method ScanStatics(statics: map<string, map<string, Handler>>, path: string)
    returns (bits: set<string>, custom: seq<string>)
    ensures Collected(bits, custom)
    ensures bits + Elements(custom) == StaticMethods(statics, path)
  {
    bits, custom := {}, [];
    var todo := statics.Keys;
    while todo != {}
      invariant todo <= statics.Keys
      invariant Collected(bits, custom)
      invariant bits + Elements(custom) == set m | m in statics.Keys - todo && path in statics[m]
      decreases |todo|
    {
      var m :| m in todo;
      todo := todo - {m};
      if path in statics[m] {
        bits, custom := AddAllowedMethod(m, bits, custom);
      }
    }
  }

  /** buildStaticAllowHeader */
  method BuildStaticAllowHeader(statics: map<string, map<string, Handler>>, path: string)
    returns (header: string, ok: bool)
    ensures StaticAllow(statics, path) == if ok then Some(header) else None
  {
    var bits, custom := ScanStatics(statics, path);
    header, ok := FinishAllow(bits, custom);
  }

  /** The end shared by the Allow functions: nothing found, or the closed set rendered. */
  method FinishAllow(bits: set<string>, custom: seq<string>) returns (header: string, ok: bool)
    requires Collected(bits, custom)
    ensures ok <==> bits + Elements(custom) != {}
    ensures ok ==> header == AllowHeader(Closure(bits + Elements(custom)))
  {
    if bits == {} && |custom| == 0 {
      return "", false;
    }
    assert |custom| > 0 ==> custom[0] in Elements(custom);
    StandardOwnsBit(bits, custom);
    var all := bits;
    if GET in bits {
      all := all + {HEAD};
    }
    all := all + {OPTIONS};
    assert Closure(bits + Elements(custom)) == all + Elements(custom);
    header := BuildAllowHeader(all, custom);
    ok := true;
  }

  lemma StandardOwnsBit(bits: set<string>, custom: seq<string>)
    requires Elements(custom) !! Elements(METHOD_ORDER)
    ensures {GET, HEAD, OPTIONS} <= Elements(METHOD_ORDER)
    ensures GET in bits + Elements(custom) <==> GET in bits
  {
    assert METHOD_ORDER[0] == GET && METHOD_ORDER[1] == HEAD && METHOD_ORDER[6] == OPTIONS;
  }

  // ---------------------------------------------------------------- the invariant

  /** A stored leaf belongs to the pattern it is stored under. */
  ghost predicate LeafOk(p: seq<string>, leaf: Leaf) {
    && leaf.handler.Some? && leaf.hasParams == AnyDynamic(p)
    && ValidParts(p) && Parts(leaf.pattern, 0) == p && CleanPath(leaf.pattern) == leaf.pattern
    && !HasControl(leaf.pattern) && |p| <= MAX_DEPTH && |leaf.pattern| <= MAX_PATH_LENGTH
  }

  ghost predicate RootsOk(t: RouteTable) {
    && (forall m <- t.roots :: RootOk(t.roots[m]))
    && (forall m <- t.roots, p | Lookup(t.roots[m], p).Some? :: LeafOk(p, Lookup(t.roots[m], p).value))
  }

  /** The handler the static map holds. */
  function IndexHit(t: RouteTable, m: string, path: string): Option<Handler> {
    if m in t.statics && path in t.statics[m] then Some(t.statics[m][path]) else None
  }

  /** The handler of a static route the trie stores under exactly this path. */
  function TrieHit(t: RouteTable, m: string, path: string): Option<Handler> {
    if m !in t.roots then None
    else match Lookup(t.roots[m], Parts(path, 0))
      case None => None
      case Some(leaf) => if leaf.pattern == path && !leaf.hasParams then leaf.handler else None
  }

  ghost predicate IndexOk(t: RouteTable) {
    forall m, path :: IndexHit(t, m, path) == TrieHit(t, m, path)
  }

  predicate HasParams(t: RouteTable, m: string) {
    m in t.hasParams && t.hasParams[m]
  }

  /** Some parameter or wildcard route is stored for the method. */
  ghost predicate StoresParams(t: RouteTable, m: string) {
    m in t.roots && exists p :: Lookup(t.roots[m], p).Some? && AnyDynamic(p)
  }

  ghost predicate FlagsOk(t: RouteTable) {
    && (forall m :: HasParams(t, m) <==> StoresParams(t, m))
    && (t.anyParams <==> exists m :: HasParams(t, m))
  }

  ghost predicate StoresTrailing(t: RouteTable, m: string) {
    m in t.roots && exists p :: Lookup(t.roots[m], p).Some? && HasTrailingSlash(Lookup(t.roots[m], p).value.pattern)
  }

  ghost predicate TrailingOk(t: RouteTable) {
    t.hasTrailing <==> exists m :: StoresTrailing(t, m)
  }

  function Cached(t: RouteTable, path: string): Option<string> {
    if path in t.staticAllow then Some(t.staticAllow[path]) else None
  }

  /** The cached header is the one a recomputation would give. */
  ghost predicate CacheOk(t: RouteTable) {
    forall path :: Cached(t, path) == StaticAllow(t.statics, path)
  }

  ghost predicate TableOk(t: RouteTable) {
    RootsOk(t) && IndexOk(t) && FlagsOk(t) && TrailingOk(t) && CacheOk(t)
  }

  /** A route as handle passes it on: canonical, split, validated. */
  ghost predicate Registrable(r: Route) {
    ValidRoute(r) && LeafOk(r.parts, RouteLeaf(r))
  }

  lemma NewTableOk()
    ensures TableOk(NEW_TABLE)
  {
  }

  lemma RootsKept(t: RouteTable, m: string)
    requires RootsOk(t)
    ensures RootOk(RootOf(t, m))
    ensures forall p | Lookup(RootOf(t, m), p).Some? :: LeafOk(p, Lookup(RootOf(t, m), p).value)
  {
  }

  /** A failed registration changes nothing: the root was there, since an empty trie conflicts with nothing. */
  lemma FailedInsertKeepsTable(t: RouteTable, m: string, r: Route)
    requires RootsOk(t) && Registrable(r) && TableInsert(t, m, r).error.Some?
    ensures TableInsert(t, m, r).table == t
  {
    RegisterCharacterised(RootOf(t, m), r);
    if m !in t.roots {
      assert Clash(EMPTY_ROOT, r.parts);
      var q :| Lookup(EMPTY_ROOT, q).Some?;
      EmptyStoresNothing("", q);
    }
  }

  /** `t'` stores, for method `m`, one route more than `t`. */
  ghost predicate Grown(t: RouteTable, t': RouteTable, m: string, r: Route) {
    && m in t'.roots && RootOk(t'.roots[m])
    && t'.roots == t.roots[m := t'.roots[m]]
    && (forall q :: Lookup(t'.roots[m], q) == if q == r.parts then Some(RouteLeaf(r)) else Lookup(RootOf(t, m), q))
    && Lookup(RootOf(t, m), r.parts).None?
  }

  lemma InsertRoots(t: RouteTable, m: string, r: Route)
    ensures TableInsert(t, m, r).error == Register(RootOf(t, m), r).error
    ensures TableInsert(t, m, r).table.roots == t.roots[m := Register(RootOf(t, m), r).node]
  {
  }

  lemma InsertGrows(t: RouteTable, m: string, r: Route)
    requires RootsOk(t) && Registrable(r) && TableInsert(t, m, r).error.None?
    ensures Grown(t, TableInsert(t, m, r).table, m, r)
  {
    InsertRoots(t, m, r);
    RegisterGrows(t, TableInsert(t, m, r).table, m, r);
  }

  lemma RegisterGrows(t: RouteTable, t': RouteTable, m: string, r: Route)
    requires RootsOk(t) && Registrable(r) && Register(RootOf(t, m), r).error.None?
    requires t'.roots == t.roots[m := Register(RootOf(t, m), r).node]
    ensures Grown(t, t', m, r)
  {
    RootsKept(t, m);
    RegisterCharacterised(RootOf(t, m), r);
    NoClashNoRoute(RootOf(t, m), r);
  }

  lemma NoClashNoRoute(n: Node, r: Route)
    requires !Clash(n, r.parts)
    ensures Lookup(n, r.parts).None?
  {
    ConflictReflexive(r.parts);
  }

  lemma GrownRoots(t: RouteTable, t': RouteTable, m: string, r: Route)
    requires RootsOk(t) && Registrable(r) && Grown(t, t', m, r)
    ensures RootsOk(t')
  {
    RootsKept(t, m);
  }

  /** What TableInsert does to the maps beside the tries. */
  lemma InsertFields(t: RouteTable, m: string, r: Route)
    requires TableInsert(t, m, r).error.None?
    ensures var t' := TableInsert(t, m, r).table;
            && t'.hasTrailing == (t.hasTrailing || HasTrailingSlash(r.pattern))
            && (AnyDynamic(r.parts) ==> t'.hasParams == t.hasParams[m := true] && t'.anyParams &&
                                        t'.statics == t.statics && t'.staticAllow == t.staticAllow)
            && (!AnyDynamic(r.parts) ==> t'.hasParams == t.hasParams && t'.anyParams == t.anyParams &&
                                         t'.statics == t.statics[m := StaticsOf(t, m)[r.pattern := r.handler]])
  {
  }

  lemma GrownIndex(t: RouteTable, t': RouteTable, m: string, r: Route, m': string, path: string)
    requires Registrable(r) && Grown(t, t', m, r) && IndexHit(t, m', path) == TrieHit(t, m', path)
    requires AnyDynamic(r.parts) ==> t'.statics == t.statics
    requires !AnyDynamic(r.parts) ==> t'.statics == t.statics[m := StaticsOf(t, m)[r.pattern := r.handler]]
    ensures IndexHit(t', m', path) == TrieHit(t', m', path)
  {
    EmptyStoresNothing("", Parts(path, 0));
    if m' == m {
      assert Lookup(t'.roots[m], Parts(path, 0)) ==
             if Parts(path, 0) == r.parts then Some(RouteLeaf(r)) else Lookup(RootOf(t, m), Parts(path, 0));
    }
  }

  lemma InsertKeepsIndex(t: RouteTable, m: string, r: Route)
    requires TableOk(t) && Registrable(r) && TableInsert(t, m, r).error.None?
    ensures IndexOk(TableInsert(t, m, r).table)
  {
    InsertGrows(t, m, r);
    InsertFields(t, m, r);
    var t' := TableInsert(t, m, r).table;
    forall m', path
      ensures IndexHit(t', m', path) == TrieHit(t', m', path)
    {
      assert IndexHit(t, m', path) == TrieHit(t, m', path);
      GrownIndex(t, t', m, r, m', path);
    }
  }

  lemma GrownParams(t: RouteTable, t': RouteTable, m: string, r: Route)
    requires Grown(t, t', m, r)
    ensures forall m' :: StoresParams(t', m') <==> StoresParams(t, m') || (m' == m && AnyDynamic(r.parts))
  {
    if StoresParams(t', m) {
      var p :| Lookup(t'.roots[m], p).Some? && AnyDynamic(p);
      EmptyStoresNothing("", p);
    }
    if StoresParams(t, m) {
      var p :| Lookup(t.roots[m], p).Some? && AnyDynamic(p);
      assert Lookup(t'.roots[m], p).Some?;
    }
    if AnyDynamic(r.parts) {
      assert Lookup(t'.roots[m], r.parts).Some?;
    }
  }

  lemma InsertKeepsFlags(t: RouteTable, m: string, r: Route)
    requires TableOk(t) && Registrable(r) && TableInsert(t, m, r).error.None?
    ensures FlagsOk(TableInsert(t, m, r).table)
  {
    InsertGrows(t, m, r);
    InsertFields(t, m, r);
    GrownFlags(t, TableInsert(t, m, r).table, m, r);
  }

  lemma GrownFlags(t: RouteTable, t': RouteTable, m: string, r: Route)
    requires Grown(t, t', m, r) && FlagsOk(t)
    requires AnyDynamic(r.parts) ==> t'.hasParams == t.hasParams[m := true] && t'.anyParams
    requires !AnyDynamic(r.parts) ==> t'.hasParams == t.hasParams && t'.anyParams == t.anyParams
    ensures FlagsOk(t')
  {
    GrownParams(t, t', m, r);
    if AnyDynamic(r.parts) {
      assert HasParams(t', m);
    } else {
      assert forall m' :: HasParams(t', m') <==> HasParams(t, m');
    }
  }

  lemma GrownTrailing(t: RouteTable, t': RouteTable, m: string, r: Route)
    requires Grown(t, t', m, r)
    ensures forall m' :: StoresTrailing(t', m') <==> StoresTrailing(t, m') || (m' == m && HasTrailingSlash(r.pattern))
  {
    if StoresTrailing(t', m) {
      var p :| Lookup(t'.roots[m], p).Some? && HasTrailingSlash(Lookup(t'.roots[m], p).value.pattern);
      EmptyStoresNothing("", p);
    }
    if StoresTrailing(t, m) {
      var p :| Lookup(t.roots[m], p).Some? && HasTrailingSlash(Lookup(t.roots[m], p).value.pattern);
      assert Lookup(t'.roots[m], p) == Lookup(t.roots[m], p);
    }
    assert Lookup(t'.roots[m], r.parts) == Some(RouteLeaf(r));
    forall m' | m' != m
      ensures StoresTrailing(t', m') <==> StoresTrailing(t, m')
    {
      assert m' in t'.roots ==> t'.roots[m'] == t.roots[m'];
    }
  }

  lemma InsertKeepsTrailing(t: RouteTable, m: string, r: Route)
    requires TableOk(t) && Registrable(r) && TableInsert(t, m, r).error.None?
    ensures TrailingOk(TableInsert(t, m, r).table)
  {
    InsertGrows(t, m, r);
    InsertFields(t, m, r);
    var t' := TableInsert(t, m, r).table;
    GrownTrailing(t, t', m, r);
    if HasTrailingSlash(r.pattern) {
      assert StoresTrailing(t', m);
    }
    if m' :| StoresTrailing(t, m') {
      assert StoresTrailing(t', m');
    }
  }

  lemma InsertKeepsCache(t: RouteTable, m: string, r: Route)
    requires CacheOk(t) && TableInsert(t, m, r).error.None?
    ensures CacheOk(TableInsert(t, m, r).table)
  {
    InsertFields(t, m, r);
    var t' := TableInsert(t, m, r).table;
    forall path
      ensures Cached(t', path) == StaticAllow(t'.statics, path)
    {
      assert Cached(t, path) == StaticAllow(t.statics, path);
      if !AnyDynamic(r.parts) {
        StaticMethodsGrow(t, t', m, r, path);
        CacheUpdated(t, m, r, path);
      }
    }
  }

  lemma StaticMethodsGrow(t: RouteTable, t': RouteTable, m: string, r: Route, path: string)
    requires t'.statics == t.statics[m := StaticsOf(t, m)[r.pattern := r.handler]]
    ensures path == r.pattern ==> m in StaticMethods(t'.statics, path)
    ensures path != r.pattern ==> StaticAllow(t'.statics, path) == StaticAllow(t.statics, path)
  {
    if path != r.pattern {
      assert StaticMethods(t'.statics, path) == StaticMethods(t.statics, path);
    }
  }

  lemma CacheUpdated(t: RouteTable, m: string, r: Route, path: string)
    requires TableInsert(t, m, r).error.None? && !AnyDynamic(r.parts)
    requires path == r.pattern ==> m in StaticMethods(TableInsert(t, m, r).table.statics, path)
    ensures Cached(TableInsert(t, m, r).table, path) ==
            if path == r.pattern then StaticAllow(TableInsert(t, m, r).table.statics, path) else Cached(t, path)
  {
  }

  /** Every registration, successful or not, keeps the index, the flags and the Allow cache right. */
  lemma InsertKeepsTable(t: RouteTable, m: string, r: Route)
    requires TableOk(t) && Registrable(r)
    ensures TableOk(TableInsert(t, m, r).table)
  {
    if TableInsert(t, m, r).error.Some? {
      FailedInsertKeepsTable(t, m, r);
    } else {
      InsertGrows(t, m, r);
      GrownRoots(t, TableInsert(t, m, r).table, m, r);
      InsertKeepsIndex(t, m, r);
      InsertKeepsFlags(t, m, r);
      InsertKeepsTrailing(t, m, r);
      InsertKeepsCache(t, m, r);
    }
  }
}

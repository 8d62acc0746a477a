/**
 The frozen search with its buffer (`frozenNode.search`), and what parity means for a caller that
 reads the buffer.
 */
module FrozenSearch {
  import opened Base
  import opened Segments
  import opened Paths
  import opened Trie
  import opened Routes
  import opened Search
  import opened Frozen

  /** The result and the buffer after a search, given what the search on values finds. */
  ghost predicate Reports(res: Option<FrozenNode>, found: Option<Match>) {
    && res.Some? == found.Some?
    && (res.Some? ==> FrozenLeaf(res.value) == found.value.leaf)
  }

  method FrozenSearchInto(f: FrozenNode, segs: PathSegments, height: nat, params: Params?)
    returns (res: Option<FrozenNode>)
    requires Segmented(segs) && height <= |segs.parts|
    requires params != null ==> params.Valid()
    modifies if params == null then {} else {params}
    ensures Reports(res, FrozenFind(f, segs, height))
    ensures params != null ==>
              params.Valid() && Appended(params.keys, params.values, old(params.keys), old(params.values),
                                         BindingsFound(FrozenFind(f, segs, height)))
    ensures params != null && res.None? ==> params.keys == old(params.keys) && params.values == old(params.values)
    decreases f, 4
  {
    FindAfterSpan(f, segs, height);
    var next := PassSpan(f, segs, height);
    if next.None? {
      return None;
    }
    var h := next.value;
    if h == |segs.parts| || (|f.part| > 0 && f.part[0] == '*') {
      res := FrozenSearchHere(f, segs, h, params);
    } else {
      res := FrozenSearchBelow(f, segs, h, params);
    }
  }

  /** The height after the span of the node, when the node matches there at all. */
  function AfterSpan(f: FrozenNode, segs: PathSegments, height: nat): (h: Option<nat>)
    requires Segmented(segs) && height <= |segs.parts|
    ensures h.Some? ==> height <= h.value <= |segs.parts|
  {
    if height > MAX_DEPTH then None
    else if f.spanSegs == 0 then Some(height)
    else if height + f.spanSegs > |segs.parts| || SpanText(segs, height, f.spanSegs) != f.staticSpan then None
    else Some(height + f.spanSegs)
  }

  /**
   A node that carries the joined segments of a chain passes exactly when the next segments are those
   of the chain, one by one, with exactly one slash between them.
   */
  lemma SpanPassesExactly(f: FrozenNode, chain: seq<string>, segs: PathSegments, height: nat)
    requires Segmented(segs) && height <= |segs.parts| && AllSlashFree(chain)
    requires f.spanSegs == |chain| && f.staticSpan == Join(chain)
    ensures AfterSpan(f, segs, height).Some? <==>
            height <= MAX_DEPTH && height + |chain| <= |segs.parts| && SpanMatches(segs, height, chain)
    ensures AfterSpan(f, segs, height).Some? ==> AfterSpan(f, segs, height).value == height + |chain|
  {
    if height + |chain| <= |segs.parts| {
      ChainPasses(chain, segs, height);
      if chain != [] {
        var text := SpanText(segs, height, |chain|);
        assert text == f.staticSpan <==> SpanMatches(segs, height, chain);
      }
    }
  }

  lemma ChainPasses(chain: seq<string>, segs: PathSegments, height: nat)
    requires Segmented(segs) && height + |chain| <= |segs.parts| && AllSlashFree(chain)
    ensures SpanMatches(segs, height, chain) <==> chain == [] || SpanText(segs, height, |chain|) == Join(chain)
  {
    if chain == [] {
      assert segs.parts[height..height] == [];
    } else {
      SpanComparison(segs, height, chain);
    }
  }

  lemma FindAfterSpan(f: FrozenNode, segs: PathSegments, height: nat)
    requires Segmented(segs) && height <= |segs.parts|
    ensures var h := AfterSpan(f, segs, height);
            FrozenFind(f, segs, height) == if h.Some? then FrozenBody(f, segs, h.value) else None
  {
  }

  /** The span comparison: one substring of the path against the whole span. */
  method PassSpan(f: FrozenNode, segs: PathSegments, height: nat) returns (h: Option<nat>)
    requires Segmented(segs) && height <= |segs.parts|
    ensures h == AfterSpan(f, segs, height)
  {
    if height > MAX_DEPTH {
      return None;
    }
    if f.spanSegs > 0 {
      if height + f.spanSegs > |segs.parts| {
        return None;
      }
      SpanBounds(segs, height, f.spanSegs);
      var start := segs.indices[height];
      var last := height + f.spanSegs - 1;
      var end := segs.indices[last] + |segs.parts[last]|;
      assert segs.matched[start..end] == SpanText(segs, height, f.spanSegs);
      if segs.matched[start..end] != f.staticSpan {
        return None;
      }
    }
    h := Some(height + f.spanSegs);
  }

  method FrozenSearchHere(f: FrozenNode, segs: PathSegments, height: nat, params: Params?)
    returns (res: Option<FrozenNode>)
    requires Segmented(segs) && height <= |segs.parts| && (height == |segs.parts| || IsWild(f.part))
    requires params != null ==> params.Valid()
    modifies if params == null then {} else {params}
    ensures Reports(res, FrozenBody(f, segs, height))
    ensures params != null ==>
              params.Valid() && Appended(params.keys, params.values, old(params.keys), old(params.values),
                                         BindingsFound(FrozenBody(f, segs, height)))
    ensures params != null && res.None? ==> params.keys == old(params.keys) && params.values == old(params.values)
    decreases f, 0
  {
    if f.pattern == "" {
      res := None;
      if height == |segs.parts| && f.wild.Some? {
        res := FrozenSearchInto(f.wild.value, segs, height, params);
      }
    } else {
      if |f.part| > 0 && f.part[0] == '*' && params != null {
        StartInPath(segs, height);
        var start := segs.indices[height];
        if start < |segs.path| && segs.path[start] == '/' {
          start := start + 1;
        }
        params.Add(f.part[1..], segs.path[start..]);
      }
      res := Some(f);
    }
  }

  method FrozenSearchBelow(f: FrozenNode, segs: PathSegments, height: nat, params: Params?)
    returns (res: Option<FrozenNode>)
    requires Segmented(segs) && height < |segs.parts| && !IsWild(f.part)
    requires params != null ==> params.Valid()
    modifies if params == null then {} else {params}
    ensures Reports(res, FrozenBody(f, segs, height))
    ensures params != null ==>
              params.Valid() && Appended(params.keys, params.values, old(params.keys), old(params.values),
                                         BindingsFound(FrozenBody(f, segs, height)))
    ensures params != null && res.None? ==> params.keys == old(params.keys) && params.values == old(params.values)
    decreases f, 3
  {
    BodyInOrder(f, segs, height);
    var part := segs.parts[height];
    if part in f.statics {
      res := FrozenSearchInto(f.statics[part], segs, height, params);
      if res.Some? {
        return;
      }
    }
    res := FrozenSearchDynamic(f, segs, height, params);
  }

  method FrozenSearchDynamic(f: FrozenNode, segs: PathSegments, height: nat, params: Params?)
    returns (res: Option<FrozenNode>)
    requires Segmented(segs) && height < |segs.parts|
    requires params != null ==> params.Valid()
    modifies if params == null then {} else {params}
    ensures Reports(res, FrozenDynamic(f, segs, height))
    ensures params != null ==>
              params.Valid() && Appended(params.keys, params.values, old(params.keys), old(params.values),
                                         BindingsFound(FrozenDynamic(f, segs, height)))
    ensures params != null && res.None? ==> params.keys == old(params.keys) && params.values == old(params.values)
    decreases f, 2
  {
    res := FrozenSearchParam(f, segs, height, params);
    if res.None? && f.wild.Some? {
      res := FrozenSearchInto(f.wild.value, segs, height, params);
    }
  }

  /** What the parameter child contributes. */
  function FrozenParam(f: FrozenNode, segs: PathSegments, height: nat): Option<Match>
    requires Segmented(segs) && height < |segs.parts|
  {
    if f.param.Some? && f.param.value.part != "" then
      Bound(Binding(f.param.value.part[1..], ParamValue(segs, height)), FrozenFind(f.param.value, segs, height + 1))
    else None
  }

  /** The parameter child, else the wildcard child. */
  function FrozenDynamic(f: FrozenNode, segs: PathSegments, height: nat): Option<Match>
    requires Segmented(segs) && height < |segs.parts|
  {
    FirstOf(FrozenParam(f, segs, height), if f.wild.Some? then FrozenFind(f.wild.value, segs, height) else None)
  }

  /** Below a node: the static child first, then the dynamic ones. */
  lemma BodyInOrder(f: FrozenNode, segs: PathSegments, height: nat)
    requires Segmented(segs) && height < |segs.parts| && !IsWild(f.part)
    ensures FrozenBody(f, segs, height) ==
      if segs.parts[height] in f.statics && FrozenFind(f.statics[segs.parts[height]], segs, height).Some?
        then FrozenFind(f.statics[segs.parts[height]], segs, height)
      else FrozenDynamic(f, segs, height)
  {
  }

  method FrozenSearchParam(f: FrozenNode, segs: PathSegments, height: nat, params: Params?)
    returns (res: Option<FrozenNode>)
    requires Segmented(segs) && height < |segs.parts|
    requires params != null ==> params.Valid()
    modifies if params == null then {} else {params}
    ensures Reports(res, FrozenParam(f, segs, height))
    ensures params != null ==>
              params.Valid() && Appended(params.keys, params.values, old(params.keys), old(params.values),
                                         BindingsFound(FrozenParam(f, segs, height)))
    ensures params != null && res.None? ==> params.keys == old(params.keys) && params.values == old(params.values)
    decreases f, 0
  {
    res := None;
    if f.param.Some? && f.param.value.part != "" {
      var child := f.param.value;
      var snapshot := if params != null then |params.keys| else 0;
      if params != null {
        Capture(child.part, segs, height, params);
      }
      res := FrozenSearchInto(child, segs, height + 1, params);
      if params != null {
        if res.None? {
          params.keys := params.keys[..snapshot];
          params.values := params.values[..snapshot];
          NothingAppended(old(params.keys), old(params.values));
        } else {
          ghost var b := Binding(child.part[1..], ParamValue(segs, height));
          BoundAppended(params.keys, params.values, old(params.keys), old(params.values), b,
            FrozenFind(child, segs, height + 1));
        }
      }
    } else if params != null {
      NothingAppended(params.keys, params.values);
    }
  }

  /**
   Freeze a trie and search both forms with buffers of the same contents: the same leaf is found and
   the two buffers end up equal.
   */
  method SearchBoth(root: Node, segs: PathSegments, a: Params, b: Params)
    returns (x: Option<Leaf>, y: Option<FrozenNode>)
    requires Segmented(segs) && RootOk(root) && NoSpan(root, segs, 0)
    requires a != b && a.Valid() && b.Valid() && a.keys == b.keys && a.values == b.values
    modifies a, b
    ensures x == if y.Some? then Some(FrozenLeaf(y.value)) else None
    ensures a.keys == b.keys && a.values == b.values
  {
    FreezeParity(root, segs);
    x := SearchInto(root, segs, 0, a);
    y := FrozenSearchInto(FreezeRoot(root), segs, 0, b);
  }
}

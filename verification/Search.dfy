/**
 Searching the trie (`node.search`) against a declarative specification: the best matching pattern
 among the stored routes, with the bindings of exactly that pattern.
 */
module Search {
  import opened Base
  import opened Segments
  import opened Paths
  import opened Trie

  datatype Binding = Binding(key: string, value: string)

  /** The leaf found and the parameters appended on the way to it. */
  datatype Match = Match(leaf: Leaf, bindings: seq<Binding>)

  // ---------------------------------------------------------------- the search of the source

  /** The value a parameter captures. */
  function ParamValue(segs: PathSegments, height: nat): string
    requires Segmented(segs) && height < |segs.parts|
  {
    var start := segs.indices[height];
    var end := start + |segs.parts[height]|;
    if end <= |segs.path| then segs.path[start..end] else segs.parts[height]
  }

  /** The value a wildcard captures: the rest of the path, after a slash if there is one. */
  function WildValue(segs: PathSegments, height: nat): string
    requires Segmented(segs) && height <= |segs.parts|
  {
    StartInPath(segs, height);
    var start := segs.indices[height];
    if start < |segs.path| && segs.path[start] == '/' then segs.path[start + 1..] else segs.path[start..]
  }

  lemma StartInPath(segs: PathSegments, height: nat)
    requires Segmented(segs) && height <= |segs.parts|
    ensures segs.indices[height] <= |segs.path|
  {
    if height < |segs.parts| {
      assert SegmentAt(segs.matched, segs.parts[height], segs.indices[height]);
    }
  }

  function Bound(b: Binding, m: Option<Match>): Option<Match> {
    if m.Some? then Some(Match(m.value.leaf, [b] + m.value.bindings)) else None
  }

  /** node.search, with the bindings it would append to an empty buffer. */
  function Find(n: Node, segs: PathSegments, height: nat): Option<Match>
    requires Segmented(segs) && height <= |segs.parts|
    decreases n
  {
    if height > MAX_DEPTH then None
    else if height == |segs.parts| || IsWild(n.part) then
      if n.pattern == "" then
        if height == |segs.parts| && n.wild.Some? then Find(n.wild.value, segs, height) else None
      else
        Some(Match(LeafOf(n), if IsWild(n.part) then [Binding(n.part[1..], WildValue(segs, height))] else []))
    else
      var part := segs.parts[height];
      var static_ := if part in n.statics then Find(n.statics[part], segs, height + 1) else None;
      FirstOf(static_, FirstOf(FindParam(n, segs, height), FindWild(n, segs, height)))
  }

  function FirstOf(a: Option<Match>, b: Option<Match>): Option<Match> {
    if a.Some? then a else b
  }

  function FindWild(n: Node, segs: PathSegments, height: nat): Option<Match>
    requires Segmented(segs) && height < |segs.parts|
    decreases n, 0
  {
    if n.wild.Some? then Find(n.wild.value, segs, height) else None
  }

  function FindParam(n: Node, segs: PathSegments, height: nat): Option<Match>
    requires Segmented(segs) && height < |segs.parts|
    decreases n, 0
  {
    if n.param.Some? && n.param.value.part != "" then
      Bound(Binding(n.param.value.part[1..], ParamValue(segs, height)), Find(n.param.value, segs, height + 1))
    else None
  }

  // ---------------------------------------------------------------- the specification

  /** Pattern `p` matches the path segments `parts`; a wildcard matches any rest, the empty one too. */
  predicate Matches(p: seq<string>, parts: seq<string>)
    decreases |p|
  {
    if p == [] then parts == []
    else if IsWild(p[0]) then |p| == 1
    else if parts == [] then false
    else (IsParam(p[0]) || p[0] == parts[0]) && Matches(p[1..], parts[1..])
  }

  /** Static before parameter before wildcard. */
  function Rank(part: string): nat {
    if IsWild(part) then 2 else if IsParam(part) then 1 else 0
  }

  /** The first differing segment decides, by rank; an exact end beats a wildcard's empty rest. */
  predicate Better(p: seq<string>, q: seq<string>)
    decreases |p|
  {
    if p == [] then true
    else if q == [] then false
    else if Rank(p[0]) != Rank(q[0]) then Rank(p[0]) < Rank(q[0])
    else Better(p[1..], q[1..])
  }

  /** The bindings of a pattern on a path it matches. */
  function Bindings(p: seq<string>, segs: PathSegments, height: nat): seq<Binding>
    requires Segmented(segs) && height <= |segs.parts|
    decreases |p|
  {
    if p == [] || p[0] == "" then []
    else if IsWild(p[0]) then [Binding(p[0][1..], WildValue(segs, height))]
    else if height == |segs.parts| then []
    else (if IsParam(p[0]) then [Binding(p[0][1..], ParamValue(segs, height))] else [])
         + Bindings(p[1..], segs, height + 1)
  }

  /** `p` is the best stored pattern for the segments from `height` on, and `m` its answer. */
  ghost predicate IsBest(n: Node, segs: PathSegments, height: nat, p: seq<string>, m: Match)
    requires Segmented(segs) && height <= |segs.parts|
  {
    && Lookup(n, p) == Some(m.leaf)
    && Matches(p, segs.parts[height..])
    && m.bindings == Bindings(p, segs, height)
    && forall q :: Lookup(n, q).Some? && Matches(q, segs.parts[height..]) ==> Better(p, q)
  }

  ghost predicate NoneMatches(n: Node, segs: PathSegments, height: nat)
    requires Segmented(segs) && height <= |segs.parts|
  {
    forall q :: Lookup(n, q).Some? ==> !Matches(q, segs.parts[height..])
  }

  ghost predicate FindCorrect(n: Node, segs: PathSegments, height: nat)
    requires Segmented(segs) && height <= |segs.parts|
  {
    match Find(n, segs, height)
    case None => NoneMatches(n, segs, height)
    case Some(m) => exists p :: IsBest(n, segs, height, p, m)
  }

  // ---------------------------------------------------------------- refinement

  /** At the end of the path: the node itself, or its wildcard with an empty rest. */
  lemma FindAtEnd(n: Node, segs: PathSegments)
    requires Segmented(segs) && WellFormed(n, |segs.parts|) && !IsWild(n.part)
    ensures FindCorrect(n, segs, |segs.parts|)
  {
    var h := |segs.parts|;
    assert segs.parts[h..] == [];
    if n.pattern != "" {
      assert IsBest(n, segs, h, [], Find(n, segs, h).value);
    } else if n.wild.Some? {
      var p := [n.wild.value.part];
      assert Lookup(n.wild.value, []).Some? && p[1..] == [];
      assert Find(n.wild.value, segs, h).Some?;
      forall q | Lookup(n, q).Some? && Matches(q, [])
        ensures Better(p, q)
      {
        assert q != [] && IsWild(q[0]);
      }
      assert IsBest(n, segs, h, p, Find(n, segs, h).value);
    }
  }

  /** The wildcard child answers any rest. */
  lemma WildAnswers(n: Node, segs: PathSegments, height: nat)
    requires Segmented(segs) && height < |segs.parts| && WellFormed(n, height) && n.wild.Some?
    ensures Find(n.wild.value, segs, height).Some?
    ensures var m, p := Find(n.wild.value, segs, height).value, [n.wild.value.part];
            && Lookup(n, p) == Some(m.leaf) && Matches(p, segs.parts[height..])
            && m.bindings == Bindings(p, segs, height)
  {
    var p := [n.wild.value.part];
    assert p[1..] == [];
  }

  /** A stored pattern that matches goes through the static, the parameter or the wildcard child. */
  lemma MatchCases(n: Node, segs: PathSegments, height: nat, q: seq<string>)
    requires Segmented(segs) && height < |segs.parts| && WellFormed(n, height)
    requires Lookup(n, q).Some? && Matches(q, segs.parts[height..])
    ensures q != []
    ensures Rank(q[0]) == 0 ==> q[0] == segs.parts[height] && q[0] in n.statics &&
                                Lookup(n.statics[q[0]], q[1..]).Some? && Matches(q[1..], segs.parts[height + 1..])
    ensures Rank(q[0]) == 1 ==> n.param.Some? && q[0] == n.param.value.part &&
                                Lookup(n.param.value, q[1..]).Some? && Matches(q[1..], segs.parts[height + 1..])
    ensures Rank(q[0]) == 2 ==> n.wild.Some? && q == [n.wild.value.part]
  {
    var parts := segs.parts[height..];
    assert parts != [] && parts[0] == segs.parts[height] && parts[1..] == segs.parts[height + 1..];
  }

  /** Prepending the part of a child extends its best answer, when no better child answers. */
  lemma ExtendBest(n: Node, segs: PathSegments, height: nat, c: Node, p: seq<string>, m: Match, m': Match)
    requires Segmented(segs) && height < |segs.parts| && WellFormed(n, height)
    requires Child(n, c.part) == Some(c) && !IsWild(c.part) && c.part != "" && IsBest(c, segs, height + 1, p, m)
    requires IsParam(c.part) || c.part == segs.parts[height]
    requires m'.leaf == m.leaf
    requires m'.bindings ==
             (if IsParam(c.part) then [Binding(c.part[1..], ParamValue(segs, height))] else []) + m.bindings
    requires IsParam(c.part) ==>
               segs.parts[height] in n.statics && !IsDynamic(segs.parts[height]) ==>
                 NoneMatches(n.statics[segs.parts[height]], segs, height + 1)
    ensures IsBest(n, segs, height, [c.part] + p, m')
  {
    var r, parts := [c.part] + p, segs.parts[height..];
    assert r[1..] == p && parts[0] == segs.parts[height] && parts[1..] == segs.parts[height + 1..];
    forall q | Lookup(n, q).Some? && Matches(q, parts)
      ensures Better(r, q)
    {
      MatchCases(n, segs, height, q);
      if Rank(q[0]) == Rank(c.part) {
        assert Lookup(c, q[1..]).Some?;
      }
    }
  }

  lemma FindStatic(n: Node, segs: PathSegments, height: nat)
    requires Segmented(segs) && height < |segs.parts| && WellFormed(n, height) && !IsWild(n.part)
    requires segs.parts[height] in n.statics && Find(n.statics[segs.parts[height]], segs, height + 1).Some?
    requires FindCorrect(n.statics[segs.parts[height]], segs, height + 1)
    ensures FindCorrect(n, segs, height)
  {
    var c := n.statics[segs.parts[height]];
    var m := Find(c, segs, height + 1).value;
    var p :| IsBest(c, segs, height + 1, p, m);
    ExtendBest(n, segs, height, c, p, m, m);
  }

  lemma FindThroughParam(n: Node, segs: PathSegments, height: nat)
    requires Segmented(segs) && height < |segs.parts| && WellFormed(n, height) && !IsWild(n.part)
    requires n.param.Some? && Find(n.param.value, segs, height + 1).Some?
    requires FindCorrect(n.param.value, segs, height + 1)
    requires segs.parts[height] in n.statics ==>
               Find(n.statics[segs.parts[height]], segs, height + 1).None?
                 && NoneMatches(n.statics[segs.parts[height]], segs, height + 1)
    ensures FindCorrect(n, segs, height)
  {
    var c := n.param.value;
    var m := Find(c, segs, height + 1).value;
    var p :| IsBest(c, segs, height + 1, p, m);
    ExtendBest(n, segs, height, c, p, m, FindParam(n, segs, height).value);
  }

  lemma FindRest(n: Node, segs: PathSegments, height: nat)
    requires Segmented(segs) && height < |segs.parts| && WellFormed(n, height) && !IsWild(n.part)
    requires n.param.Some? ==>
             Find(n.param.value, segs, height + 1).None? && NoneMatches(n.param.value, segs, height + 1)
    requires segs.parts[height] in n.statics ==>
               Find(n.statics[segs.parts[height]], segs, height + 1).None?
                 && NoneMatches(n.statics[segs.parts[height]], segs, height + 1)
    ensures FindCorrect(n, segs, height)
  {
    forall q | Lookup(n, q).Some? && Matches(q, segs.parts[height..])
      ensures n.wild.Some? && q == [n.wild.value.part]
    {
      MatchCases(n, segs, height, q);
    }
    assert FindParam(n, segs, height).None?;
    assert Find(n, segs, height) == FindWild(n, segs, height);
    if n.wild.Some? {
      WildAnswers(n, segs, height);
      assert IsBest(n, segs, height, [n.wild.value.part], Find(n, segs, height).value);
    }
  }

  /**
   The search returns a leaf exactly when some stored pattern matches, and then the leaf and the
   bindings of the best one: static before parameter before wildcard at the first difference.
   */
  lemma {:induction false} FindIsBestMatch(n: Node, segs: PathSegments, height: nat)
    requires Segmented(segs) && height <= |segs.parts| && WellFormed(n, height) && !IsWild(n.part)
    ensures FindCorrect(n, segs, height)
    decreases n
  {
    if height == |segs.parts| {
      FindAtEnd(n, segs);
    } else {
      var part := segs.parts[height];
      if part in n.statics {
        FindIsBestMatch(n.statics[part], segs, height + 1);
      }
      if n.param.Some? {
        FindIsBestMatch(n.param.value, segs, height + 1);
      }
      if part in n.statics && Find(n.statics[part], segs, height + 1).Some? {
        FindStatic(n, segs, height);
      } else if n.param.Some? && Find(n.param.value, segs, height + 1).Some? {
        FindThroughParam(n, segs, height);
      } else {
        FindRest(n, segs, height);
      }
    }
  }

  /** The two orders of preference agree only on one pattern, so the best match is unique. */
  lemma {:induction false} BestIsUnique(n: Node, segs: PathSegments, height: nat, p: seq<string>, q: seq<string>)
    requires Segmented(segs) && height <= |segs.parts| && (WellFormed(n, height) || IsPlainLeaf(n))
    requires Lookup(n, p).Some? && Matches(p, segs.parts[height..])
    requires Lookup(n, q).Some? && Matches(q, segs.parts[height..])
    requires Better(p, q) && Better(q, p)
    ensures p == q
    decreases n
  {
    if p != [] && height < |segs.parts| && WellFormed(n, height) {
      MatchCases(n, segs, height, p);
      MatchCases(n, segs, height, q);
      assert Child(n, p[0]).Some?;
      if Rank(p[0]) < 2 {
        BestIsUnique(Child(n, p[0]).value, segs, height + 1, p[1..], q[1..]);
        assert p == [p[0]] + p[1..] && q == [q[0]] + q[1..];
      }
    } else if p != [] && WellFormed(n, height) {
      OnlyWildAtEnd(n, segs, height, p);
      OnlyWildAtEnd(n, segs, height, q);
    }
  }

  /** At the end of the path only the wildcard of a node matches, besides the node itself. */
  lemma OnlyWildAtEnd(n: Node, segs: PathSegments, height: nat, p: seq<string>)
    requires Segmented(segs) && height == |segs.parts| && WellFormed(n, height)
    requires p != [] && Lookup(n, p).Some? && Matches(p, segs.parts[height..])
    ensures n.wild.Some? && p == [n.wild.value.part]
  {
    assert segs.parts[height..] == [];
    assert IsWild(p[0]);
  }

  /** A stored pattern equal to the path itself is found whatever parameters or wildcards overlap it. */
  lemma StaticRouteFound(n: Node, segs: PathSegments)
    requires Segmented(segs) && WellFormed(n, 0) && !IsWild(n.part) && |segs.parts| <= MAX_DEPTH
    requires Lookup(n, segs.parts).Some? && forall i | 0 <= i < |segs.parts| :: !IsDynamic(segs.parts[i])
    ensures Find(n, segs, 0) == Some(Match(Lookup(n, segs.parts).value, []))
  {
    FindIsBestMatch(n, segs, 0);
    assert segs.parts[0..] == segs.parts;
    SelfMatch(segs.parts);
    var m := Find(n, segs, 0).value;
    var p :| IsBest(n, segs, 0, p, m);
    StaticIsBest(p, segs.parts);
    NoBindings(segs.parts, segs, 0);
  }

  lemma {:induction false} SelfMatch(parts: seq<string>)
    requires forall i | 0 <= i < |parts| :: !IsDynamic(parts[i])
    ensures Matches(parts, parts)
  {
    if parts != [] {
      SelfMatch(parts[1..]);
    }
  }

  lemma {:induction false} StaticIsBest(p: seq<string>, parts: seq<string>)
    requires forall i | 0 <= i < |parts| :: !IsDynamic(parts[i])
    requires Matches(p, parts) && Better(p, parts)
    ensures p == parts
    decreases |p|
  {
    if p != [] && parts != [] {
      StaticIsBest(p[1..], parts[1..]);
      assert p == [p[0]] + p[1..] && parts == [parts[0]] + parts[1..];
    }
  }

  lemma {:induction false} NoBindings(p: seq<string>, segs: PathSegments, height: nat)
    requires Segmented(segs) && height <= |segs.parts| && forall i | 0 <= i < |p| :: !IsDynamic(p[i])
    ensures Bindings(p, segs, height) == []
    decreases |p|
  {
    if p != [] && height < |segs.parts| {
      NoBindings(p[1..], segs, height + 1);
    }
  }

  // ---------------------------------------------------------------- names and values

  /** The names of the dynamic segments of a pattern, in order. */
  function Names(p: seq<string>): seq<string> {
    if p == [] then []
    else (if IsDynamic(p[0]) then [p[0][1..]] else []) + Names(p[1..])
  }

  function Keys(bs: seq<Binding>): (r: seq<string>)
    ensures |r| == |bs| && forall i | 0 <= i < |bs| :: r[i] == bs[i].key
  {
    seq(|bs|, i requires 0 <= i < |bs| => bs[i].key)
  }

  function Values(bs: seq<Binding>): (r: seq<string>)
    ensures |r| == |bs| && forall i | 0 <= i < |bs| :: r[i] == bs[i].value
  {
    seq(|bs|, i requires 0 <= i < |bs| => bs[i].value)
  }

  /** A matching pattern binds exactly its names, in order. */
  lemma {:induction false} BindingsBindNames(p: seq<string>, segs: PathSegments, height: nat)
    requires Segmented(segs) && height <= |segs.parts| && ValidParts(p) && Matches(p, segs.parts[height..])
    ensures Keys(Bindings(p, segs, height)) == Names(p)
    decreases |p|
  {
    if p != [] {
      if IsWild(p[0]) {
        assert Names(p[1..]) == [];
      } else {
        assert segs.parts[height..] != [];
        assert segs.parts[height..][1..] == segs.parts[height + 1..];
        BindingsBindNames(p[1..], segs, height + 1);
        var rest := Bindings(p[1..], segs, height + 1);
        assert Bindings(p, segs, height) ==
               (if IsParam(p[0]) then [Binding(p[0][1..], ParamValue(segs, height))] else []) + rest;
      }
    }
  }

  lemma {:induction false} NameOrigin(p: seq<string>, k: nat) returns (i: nat)
    requires k < |Names(p)|
    ensures i < |p| && IsDynamic(p[i]) && p[i][1..] == Names(p)[k]
  {
    var head := if IsDynamic(p[0]) then [p[0][1..]] else [];
    if k < |head| {
      i := 0;
    } else {
      var j := NameOrigin(p[1..], k - |head|);
      i := j + 1;
    }
  }

  /** No name occurs twice on a matched route, so each lookup has one answer. */
  lemma {:induction false} NamesDistinct(p: seq<string>)
    requires forall i, j | 0 <= i < j < |p| && IsDynamic(p[i]) && IsDynamic(p[j]) :: p[i][1..] != p[j][1..]
    ensures forall k, l | 0 <= k < l < |Names(p)| :: Names(p)[k] != Names(p)[l]
  {
    if p != [] {
      assert forall i | 0 <= i < |p| - 1 :: p[1..][i] == p[i + 1];
      NamesDistinct(p[1..]);
      if IsDynamic(p[0]) {
        forall l | 0 <= l < |Names(p[1..])|
          ensures Names(p[1..])[l] != p[0][1..]
        {
          var i := NameOrigin(p[1..], l);
          assert p[i + 1] == p[1..][i];
        }
      }
    }
  }

  // ---------------------------------------------------------------- the params buffer

  /** Params: the buffer that a search grows and truncates in place. */
  class Params {
    var keys: seq<string>
    var values: seq<string>

    ghost predicate Valid()
      reads this
    {
      |keys| == |values|
    }

    constructor ()
      ensures Valid() && keys == [] && values == []
    {
      keys, values := [], [];
    }

    method Add(key: string, value: string)
      requires Valid()
      modifies this
      ensures Valid() && keys == old(keys) + [key] && values == old(values) + [value]
    {
      keys := keys + [key];
      values := values + [value];
    }

    method Reset()
      modifies this
      ensures Valid() && keys == [] && values == []
    {
      keys := keys[..0];
      values := values[..0];
    }

    /** The value at the first position of the key. */
    method Get(key: string) returns (value: string, ok: bool)
      requires Valid()
      ensures ok <==> key in keys
      ensures ok ==> exists i :: 0 <= i < |keys| && keys[i] == key && key !in keys[..i] && value == values[i]
    {
      for i := 0 to |keys|
        invariant key !in keys[..i]
      {
        if keys[i] == key {
          return values[i], true;
        }
      }
      value, ok := "", false;
    }
  }

  ghost predicate Appended(keys: seq<string>, values: seq<string>, keys0: seq<string>, values0: seq<string>,
                           bs: seq<Binding>) {
    keys == keys0 + Keys(bs) && values == values0 + Values(bs)
  }

  function LeafFound(m: Option<Match>): Option<Leaf> {
    if m.Some? then Some(m.value.leaf) else None
  }

  function BindingsFound(m: Option<Match>): seq<Binding> {
    if m.Some? then m.value.bindings else []
  }

  lemma NothingAppended(keys: seq<string>, values: seq<string>)
    ensures Appended(keys, values, keys, values, [])
  {
  }

  lemma Associative<T>(a: seq<T>, b: seq<T>, c: seq<T>)
    ensures (a + b) + c == a + (b + c)
  {
  }

  lemma ConsParts(b: Binding, bs: seq<Binding>)
    ensures Keys([b] + bs) == [b.key] + Keys(bs) && Values([b] + bs) == [b.value] + Values(bs)
  {
  }

  lemma BoundAppended(keys: seq<string>, values: seq<string>, keys0: seq<string>, values0: seq<string>, b: Binding,
                      m: Option<Match>)
    requires m.Some? && Appended(keys, values, keys0 + [b.key], values0 + [b.value], m.value.bindings)
    ensures Appended(keys, values, keys0, values0, BindingsFound(Bound(b, m)))
  {
    ConsParts(b, m.value.bindings);
    Associative(keys0, [b.key], Keys(m.value.bindings));
    Associative(values0, [b.value], Values(m.value.bindings));
  }

  /** Append the value that a parameter captures. */
  method Capture(part: string, segs: PathSegments, height: nat, params: Params)
    requires Segmented(segs) && height < |segs.parts| && part != "" && params.Valid()
    modifies params
    ensures params.Valid() && params.keys == old(params.keys) + [part[1..]]
    ensures params.values == old(params.values) + [ParamValue(segs, height)]
  {
    var start := segs.indices[height];
    var end := start + |segs.parts[height]|;
    var value := segs.parts[height];
    if end <= |segs.path| {
      value := segs.path[start..end];
    }
    params.Add(part[1..], value);
  }

  /**
   node.search with its buffer. The node returned does not depend on the buffer, a miss leaves the
   buffer as it was, and a hit appends exactly the bindings of the match.
   */
  method SearchInto(n: Node, segs: PathSegments, height: nat, params: Params?) returns (res: Option<Leaf>)
    requires Segmented(segs) && height <= |segs.parts|
    requires params != null ==> params.Valid()
    modifies if params == null then {} else {params}
    ensures res == LeafFound(Find(n, segs, height))
    ensures params != null ==>
              params.Valid() && Appended(params.keys, params.values, old(params.keys), old(params.values),
                                         BindingsFound(Find(n, segs, height)))
    ensures params != null && res.None? ==> params.keys == old(params.keys) && params.values == old(params.values)
    decreases n, 3
  {
    if height > MAX_DEPTH {
      res := None;
    } else if height == |segs.parts| || (|n.part| > 0 && n.part[0] == '*') {
      res := SearchHere(n, segs, height, params);
    } else {
      res := SearchBelow(n, segs, height, params);
    }
  }

  /** The base case: the path is exhausted or the node is a wildcard. */
  method SearchHere(n: Node, segs: PathSegments, height: nat, params: Params?) returns (res: Option<Leaf>)
    requires height <= MAX_DEPTH && (height == |segs.parts| || IsWild(n.part))
    requires Segmented(segs) && height <= |segs.parts|
    requires params != null ==> params.Valid()
    modifies if params == null then {} else {params}
    ensures res == LeafFound(Find(n, segs, height))
    ensures params != null ==>
              params.Valid() && Appended(params.keys, params.values, old(params.keys), old(params.values),
                                         BindingsFound(Find(n, segs, height)))
    ensures params != null && res.None? ==> params.keys == old(params.keys) && params.values == old(params.values)
    decreases n, 0
  {
    if n.pattern == "" {
      res := None;
      if height == |segs.parts| && n.wild.Some? {
        res := SearchInto(n.wild.value, segs, height, params);
      }
    } else {
      if |n.part| > 0 && n.part[0] == '*' && params != null {
        StartInPath(segs, height);
        var start := segs.indices[height];
        if start < |segs.path| && segs.path[start] == '/' {
          start := start + 1;
        }
        params.Add(n.part[1..], segs.path[start..]);
      }
      res := Some(LeafOf(n));
    }
  }

  /** Static, then parameter, then wildcard child. */
  method SearchBelow(n: Node, segs: PathSegments, height: nat, params: Params?) returns (res: Option<Leaf>)
    requires height <= MAX_DEPTH && height != |segs.parts| && !IsWild(n.part)
    requires Segmented(segs) && height <= |segs.parts|
    requires params != null ==> params.Valid()
    modifies if params == null then {} else {params}
    ensures res == LeafFound(Find(n, segs, height))
    ensures params != null ==>
              params.Valid() && Appended(params.keys, params.values, old(params.keys), old(params.values),
                                         BindingsFound(Find(n, segs, height)))
    ensures params != null && res.None? ==> params.keys == old(params.keys) && params.values == old(params.values)
    decreases n, 2
  {
    var part := segs.parts[height];
    if part in n.statics {
      res := SearchInto(n.statics[part], segs, height + 1, params);
      if res.Some? {
        return;
      }
    }
    res := SearchDynamic(n, segs, height, params);
  }

  method SearchDynamic(n: Node, segs: PathSegments, height: nat, params: Params?) returns (res: Option<Leaf>)
    requires Segmented(segs) && height < |segs.parts|
    requires params != null ==> params.Valid()
    modifies if params == null then {} else {params}
    ensures res == LeafFound(FirstOf(FindParam(n, segs, height), FindWild(n, segs, height)))
    ensures params != null ==>
              params.Valid() && Appended(params.keys, params.values, old(params.keys), old(params.values),
                                         BindingsFound(FirstOf(FindParam(n, segs, height), FindWild(n, segs, height))))
    ensures params != null && res.None? ==> params.keys == old(params.keys) && params.values == old(params.values)
    decreases n, 1
  {
    res := SearchParam(n, segs, height, params);
    if res.None? && n.wild.Some? {
      res := SearchInto(n.wild.value, segs, height, params);
    }
  }

  method SearchParam(n: Node, segs: PathSegments, height: nat, params: Params?) returns (res: Option<Leaf>)
    requires Segmented(segs) && height < |segs.parts|
    requires params != null ==> params.Valid()
    modifies if params == null then {} else {params}
    ensures res == LeafFound(FindParam(n, segs, height))
    ensures params != null ==>
              params.Valid() && Appended(params.keys, params.values, old(params.keys), old(params.values),
                                         BindingsFound(FindParam(n, segs, height)))
    ensures params != null && res.None? ==> params.keys == old(params.keys) && params.values == old(params.values)
    decreases n, 0
  {
    res := None;
    if n.param.Some? && n.param.value.part != "" {
      var child := n.param.value;
      var snapshot := if params != null then |params.keys| else 0;
      if params != null {
        Capture(child.part, segs, height, params);
      }
      res := SearchInto(child, segs, height + 1, params);
      if params != null {
        if res.None? {
          params.keys := params.keys[..snapshot];
          params.values := params.values[..snapshot];
          NothingAppended(old(params.keys), old(params.values));
        } else {
          ghost var b := Binding(child.part[1..], ParamValue(segs, height));
          BoundAppended(params.keys, params.values, old(params.keys), old(params.values), b,
            Find(child, segs, height + 1));
        }
      }
    } else if params != null {
      NothingAppended(params.keys, params.values);
    }
  }
}

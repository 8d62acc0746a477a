/**
 The frozen trie: chains of static nodes compressed into one span (`compressStaticChain`,
 `buildFrozenStatic`), and the search that compares a span as one substring (`frozenNode.search`).
 */
module Frozen {
  import opened Base
  import opened Segments
  import opened Paths
  import opened Trie
  import opened Search

  datatype FrozenNode = FrozenNode(
    staticSpan: string,
    spanSegs: nat,
    part: string,
    statics: map<string, FrozenNode>,
    param: Option<FrozenNode>,
    wild: Option<FrozenNode>,
    pattern: string,
    handler: Option<Handler>,
    hasParams: bool)

  // ---------------------------------------------------------------- compression

  /** A chain of static parts and the node it ends at. */
  datatype Chain = Chain(parts: seq<string>, end: Node)

  predicate EndsChain(n: Node) {
    n.pattern != "" || n.handler.Some? || n.param.Some? || n.wild.Some? || |n.statics| != 1
  }

  lemma SingletonKey(m: map<string, Node>)
    requires |m| == 1
    ensures exists k :: k in m && forall j <- m :: j == k
  {
    assert |m.Keys| == 1;
    var k :| k in m.Keys;
    assert |m.Keys - {k}| == 0;
  }

  /** staticChildren.only */
  function OnlyChild(n: Node): (c: Node)
    requires |n.statics| == 1
    ensures c < n
  {
    SingletonKey(n.statics);
    var k :| k in n.statics && forall j <- n.statics :: j == k;
    n.statics[k]
  }

  function Compress(n: Node): (c: Chain)
    ensures c.end == n || c.end < n
    ensures |c.parts| > 0
    decreases n
  {
    if EndsChain(n) then Chain([n.part], n)
    else
      var rest := Compress(OnlyChild(n));
      Chain([n.part] + rest.parts, rest.end)
  }

  /** compressStaticChain walks the chain with a cursor. */
  method CompressStaticChain(start: Node) returns (parts: seq<string>, end: Node)
    ensures Chain(parts, end) == Compress(start)
  {
    parts := [];
    var cur := start;
    while true
      invariant Chain(parts + Compress(cur).parts, Compress(cur).end) == Compress(start)
      decreases cur
    {
      var before := parts;
      parts := parts + [cur.part];
      if cur.pattern != "" || cur.handler.Some? || cur.param.Some? || cur.wild.Some? {
        return parts, cur;
      }
      if |cur.statics| != 1 {
        return parts, cur;
      }
      assert before + Compress(cur).parts == parts + Compress(OnlyChild(cur)).parts;
      cur := OnlyChild(cur);
    }
  }

  /** buildFrozenStatic on a compressed chain. */
  function FreezeChain(start: Node): FrozenNode
    decreases start, 1
  {
    var c := Compress(start);
    FreezeNode(c.end, Join(c.parts), |c.parts|, "")
  }

  /** The common part of freezeRoot, buildFrozenStatic and buildFrozenNode. */
  function FreezeNode(n: Node, span: string, spanSegs: nat, part: string): FrozenNode
    decreases n, 0
  {
    FrozenNode(span, spanSegs, part,
               map k | k in n.statics :: FreezeChain(n.statics[k]),
               if n.param.Some? then Some(FreezeChild(n.param.value)) else None,
               if n.wild.Some? then Some(FreezeChild(n.wild.value)) else None,
               n.pattern, n.handler, n.hasParams)
  }

  /** buildFrozenNode: parameter and wildcard nodes keep their own part. */
  function FreezeChild(n: Node): FrozenNode
    decreases n, 1
  {
    FreezeNode(n, "", 0, n.part)
  }

  function FreezeRoot(root: Node): FrozenNode {
    FreezeNode(root, "", 0, "")
  }

  // ---------------------------------------------------------------- frozen search

  function FrozenLeaf(f: FrozenNode): Leaf {
    Leaf(f.pattern, f.handler, f.hasParams)
  }

  function FrozenFind(f: FrozenNode, segs: PathSegments, height: nat): Option<Match>
    requires Segmented(segs) && height <= |segs.parts|
    decreases f, 1
  {
    if height > MAX_DEPTH then None
    else if f.spanSegs > 0 then
      if height + f.spanSegs > |segs.parts| then None
      else if SpanText(segs, height, f.spanSegs) != f.staticSpan then None
      else FrozenBody(f, segs, height + f.spanSegs)
    else FrozenBody(f, segs, height)
  }

  /** The search after the span comparison. */
  function FrozenBody(f: FrozenNode, segs: PathSegments, height: nat): Option<Match>
    requires Segmented(segs) && height <= |segs.parts|
    decreases f, 0
  {
    if height == |segs.parts| || IsWild(f.part) then
      if f.pattern == "" then
        if height == |segs.parts| && f.wild.Some? then FrozenFind(f.wild.value, segs, height) else None
      else
        Some(Match(FrozenLeaf(f), if IsWild(f.part) then [Binding(f.part[1..], WildValue(segs, height))] else []))
    else
      var part := segs.parts[height];
      var static_ := if part in f.statics then FrozenFind(f.statics[part], segs, height) else None;
      var param := if f.param.Some? && f.param.value.part != "" then
          Bound(Binding(f.param.value.part[1..], ParamValue(segs, height)), FrozenFind(f.param.value, segs, height + 1))
        else None;
      var wild := if f.wild.Some? then FrozenFind(f.wild.value, segs, height) else None;
      FirstOf(static_, FirstOf(param, wild))
  }

  // ---------------------------------------------------------------- parity

  ghost predicate Parity(n: Node, f: FrozenNode, segs: PathSegments)
    requires Segmented(segs)
  {
    FrozenFind(f, segs, 0) == Find(n, segs, 0)
  }

  predicate StaticPart(part: string) {
    Sanitary(part) && !IsDynamic(part)
  }

  predicate StaticParts(parts: seq<string>) {
    parts != [] && forall i | 0 <= i < |parts| :: StaticPart(parts[i])
  }

  /** A chain inside a well-formed trie consists of static parts. */
  lemma {:induction false} ChainParts(c: Node, depth: nat)
    requires WellFormed(c, depth) && StaticPart(c.part)
    ensures StaticParts(Compress(c).parts) && Compress(c).parts[0] == c.part
    decreases c
  {
    if !EndsChain(c) {
      OnlyChildShape(c, depth);
      ChainParts(OnlyChild(c), depth + 1);
      ChainGrows(c);
    }
  }

  ghost predicate EndOk(n: Node, d: nat) {
    WellFormed(n, d) && !IsWild(n.part)
  }

  /** Its end is a well-formed node as deep as the chain is long. */
  lemma {:induction false} ChainEnd(c: Node, depth: nat, d: nat)
    requires WellFormed(c, depth) && StaticPart(c.part) && d == depth + |Compress(c).parts| - 1
    ensures EndOk(Compress(c).end, d)
    decreases c
  {
    if EndsChain(c) {
      assert Compress(c) == Chain([c.part], c);
    } else {
      OnlyChildShape(c, depth);
      ChainGrows(c);
      ChainEnd(OnlyChild(c), depth + 1, d);
    }
  }

  lemma OnlyChildShape(c: Node, depth: nat)
    requires WellFormed(c, depth) && |c.statics| == 1
    ensures var next := OnlyChild(c);
            && StaticPart(next.part) && WellFormed(next, depth + 1) && next.part in c.statics
            && c.statics[next.part] == next
  {
  }

  lemma ChainGrows(c: Node)
    requires !EndsChain(c)
    ensures Compress(c) == Chain([c.part] + Compress(OnlyChild(c)).parts, Compress(OnlyChild(c)).end)
  {
  }

  /** The next segments of the path are those of the chain. */
  predicate Walked(ch: Chain, segs: PathSegments, h: nat) {
    h + |ch.parts| <= |segs.parts| && segs.parts[h..h + |ch.parts|] == ch.parts
  }

  /** Walking a chain node by node: its parts compared one by one, then the search below its end. */
  function WalkChain(ch: Chain, segs: PathSegments, h: nat): Option<Match>
    requires Segmented(segs)
  {
    if Walked(ch, segs, h) then Find(ch.end, segs, h + |ch.parts|) else None
  }

  /** The text of the next segments, compared as one substring. */
  predicate SpanIs(segs: PathSegments, h: nat, n: nat, text: string)
    requires Segmented(segs) && 0 < n
  {
    h + n <= |segs.parts| && SpanText(segs, h, n) == text
  }

  /** Jumping over a chain: its joined parts compared at once, then the frozen search below its end. */
  function JumpChain(ch: Chain, segs: PathSegments, h: nat): Option<Match>
    requires Segmented(segs) && |ch.parts| > 0
  {
    if SpanIs(segs, h, |ch.parts|, Join(ch.parts))
    then FrozenBody(FreezeNode(ch.end, Join(ch.parts), |ch.parts|, ""), segs, h + |ch.parts|) else None
  }

  lemma {:induction false} ChainWalk(c: Node, segs: PathSegments, h: nat)
    requires Segmented(segs) && h < |segs.parts| && segs.parts[h] == c.part
    requires WellFormed(c, h + 1) && StaticPart(c.part)
    ensures Find(c, segs, h + 1) == WalkChain(Compress(c), segs, h)
    decreases c
  {
    if EndsChain(c) {
      assert segs.parts[h..h + 1] == [c.part];
    } else {
      var next := OnlyChild(c);
      ChainStep(c, segs, h);
      if h + 1 < |segs.parts| && segs.parts[h + 1] == next.part {
        ChainWalk(next, segs, h + 1);
      }
      ChainGrows(c);
      WalkOn(c.part, Compress(next), segs, h);
    }
  }

  /** Peeling the first part off a chain walk. */
  lemma WalkOn(first: string, rest: Chain, segs: PathSegments, h: nat)
    requires Segmented(segs) && h < |segs.parts| && segs.parts[h] == first && rest.parts != []
    ensures WalkChain(Chain([first] + rest.parts, rest.end), segs, h) ==
            if h + 1 < |segs.parts| && segs.parts[h + 1] == rest.parts[0] then WalkChain(rest, segs, h + 1) else None
  {
    if h + 1 < |segs.parts| {
      PartsShift(segs.parts, h, first, rest.parts);
    }
  }

  /** An inner chain node only passes the search on to its one child. */
  lemma ChainStep(c: Node, segs: PathSegments, h: nat)
    requires Segmented(segs) && h < |segs.parts| && WellFormed(c, h + 1) && StaticPart(c.part) && !EndsChain(c)
    ensures var next := OnlyChild(c);
            && StaticPart(next.part) && WellFormed(next, h + 2) && Compress(next).parts[0] == next.part
            && Find(c, segs, h + 1) ==
               if h + 1 < |segs.parts| && segs.parts[h + 1] == next.part then Find(next, segs, h + 2) else None
  {
    var next := OnlyChild(c);
    OnlyChildShape(c, h + 1);
    assert forall k <- c.statics :: k == next.part;
  }

  lemma PartsShift(parts: seq<string>, h: nat, first: string, rest: seq<string>)
    requires h + 1 < |parts| && parts[h] == first && rest != []
    ensures (h + 1 + |rest| <= |parts| && parts[h..h + 1 + |rest|] == [first] + rest) <==>
            (h + 1 + |rest| <= |parts| && parts[h + 1..h + 1 + |rest|] == rest)
    ensures parts[h + 1] != rest[0] && h + 1 + |rest| <= |parts| ==> parts[h + 1..h + 1 + |rest|] != rest
  {
    if h + 1 + |rest| <= |parts| {
      assert parts[h..h + 1 + |rest|] == [first] + parts[h + 1..h + 1 + |rest|];
      assert parts[h + 1..h + 1 + |rest|][0] == parts[h + 1];
      assert ([first] + rest)[1..] == rest;
    }
  }

  // ---------------------------------------------------------------- patterns that span a wide gap

  /**
   The literal segments `j` and `j + 1` of a pattern, laid on the path from segment `h` on, are not one
   slash apart there.
   */
  predicate Straddles(q: seq<string>, segs: PathSegments, h: nat, j: nat)
    requires Segmented(segs)
  {
    && j + 1 < |q| && !IsDynamic(q[j]) && !IsDynamic(q[j + 1])
    && h + j + 1 < |segs.parts| && !GapAt(segs, h + j)
  }

  /** The pattern matches the path from segment `h` on, over such a gap. */
  ghost predicate SpansFrom(q: seq<string>, segs: PathSegments, h: nat)
    requires Segmented(segs) && h <= |segs.parts|
  {
    Matches(q, segs.parts[h..]) && exists j: nat :: Straddles(q, segs, h, j)
  }

  /** No pattern stored at or below the node does so. */
  ghost predicate NoSpan(n: Node, segs: PathSegments, h: nat)
    requires Segmented(segs) && h <= |segs.parts|
  {
    forall q | Lookup(n, q).Some? :: !SpansFrom(q, segs, h)
  }

  /** Segments of a pattern, other than wildcards, that match the first segments of a path. */
  predicate Fits(front: seq<string>, parts: seq<string>) {
    |front| <= |parts| &&
    forall i | 0 <= i < |front| :: !IsWild(front[i]) && (IsParam(front[i]) || front[i] == parts[i])
  }

  lemma {:induction false} FrontMatches(front: seq<string>, q: seq<string>, parts: seq<string>)
    requires Fits(front, parts)
    ensures Matches(front + q, parts) <==> Matches(q, parts[|front|..])
    decreases |front|
  {
    if front == [] {
      assert front + q == q && parts[0..] == parts;
    } else {
      assert (front + q)[1..] == front[1..] + q;
      assert parts[1..][|front| - 1..] == parts[|front|..];
      FrontMatches(front[1..], q, parts[1..]);
    }
  }

  lemma StraddleShift(front: seq<string>, q: seq<string>, segs: PathSegments, h: nat, d: nat, j: nat)
    requires Segmented(segs) && d == h + |front| && Straddles(q, segs, d, j)
    ensures Straddles(front + q, segs, h, j + |front|)
  {
    var p := front + q;
    assert p[|front| + j] == q[j] && p[|front| + j + 1] == q[j + 1];
    assert h + (j + |front|) == d + j;
  }

  /** A span below a front is a span of the whole. */
  lemma SpanShift(front: seq<string>, q: seq<string>, segs: PathSegments, h: nat, d: nat)
    requires Segmented(segs) && d == h + |front| && d <= |segs.parts| && Fits(front, segs.parts[h..])
    ensures SpansFrom(q, segs, d) ==> SpansFrom(front + q, segs, h)
  {
    if SpansFrom(q, segs, d) {
      FrontMatches(front, q, segs.parts[h..]);
      assert segs.parts[h..][|front|..] == segs.parts[d..];
      var j: nat :| Straddles(q, segs, d, j);
      StraddleShift(front, q, segs, h, d, j);
    }
  }

  lemma ChildNoSpan(n: Node, part: string, segs: PathSegments, h: nat)
    requires Segmented(segs) && h < |segs.parts| && NoSpan(n, segs, h)
    requires Child(n, part).Some? && part != "" && !IsWild(part) && (IsParam(part) || part == segs.parts[h])
    ensures NoSpan(Child(n, part).value, segs, h + 1)
    ensures NoSpanAt(Child(n, part).value, part, segs, h)
  {
    forall q | Lookup(Child(n, part).value, q).Some?
      ensures !SpansFrom(q, segs, h + 1) && !SpansFrom([part] + q, segs, h)
    {
      var p := [part] + q;
      assert p[1..] == q;
      assert Lookup(n, p).Some?;
      SpanShift([part], q, segs, h, h + 1);
    }
  }

  /** The same for a child and the segment it stands for. */
  ghost predicate NoSpanAt(c: Node, part: string, segs: PathSegments, h: nat)
    requires Segmented(segs) && h <= |segs.parts|
  {
    forall q | Lookup(c, q).Some? :: !SpansFrom([part] + q, segs, h)
  }

  // ---------------------------------------------------------------- parity

  /** What a chain stores is what its end stores. */
  lemma {:induction false} ChainLookup(c: Node, depth: nat, q: seq<string>)
    requires WellFormed(c, depth) && StaticPart(c.part)
    ensures Lookup(c, Compress(c).parts[1..] + q) == Lookup(Compress(c).end, q)
    decreases c
  {
    if EndsChain(c) {
      assert Compress(c).parts[1..] + q == q;
    } else {
      var next := OnlyChild(c);
      OnlyChildShape(c, depth);
      ChainParts(next, depth + 1);
      ChainGrows(c);
      ChainLookup(next, depth + 1, q);
      var rest := Compress(next).parts;
      var p := Compress(c).parts[1..] + q;
      assert p == rest + q && p[0] == next.part && p[1..] == rest[1..] + q;
    }
  }

  /** A chain of static parts at segment `h`, with no span through it. */
  ghost predicate ChainOk(ch: Chain, segs: PathSegments, h: nat)
    requires Segmented(segs) && h <= |segs.parts|
  {
    StaticParts(ch.parts) && EndOk(ch.end, h + |ch.parts|) && NoSpanThrough(ch, segs, h)
  }

  ghost predicate NoSpanThrough(ch: Chain, segs: PathSegments, h: nat)
    requires Segmented(segs) && h <= |segs.parts|
  {
    forall q | Lookup(ch.end, q).Some? :: !SpansFrom(ch.parts + q, segs, h)
  }

  lemma CompressedOk(c: Node, segs: PathSegments, h: nat)
    requires Segmented(segs) && h <= |segs.parts| && WellFormed(c, h + 1) && StaticPart(c.part)
    requires NoSpanAt(c, c.part, segs, h)
    ensures ChainOk(Compress(c), segs, h)
  {
    ChainParts(c, h + 1);
    ChainEnd(c, h + 1, h + |Compress(c).parts|);
    CompressedNoSpan(c, segs, h);
  }

  lemma CompressedNoSpan(c: Node, segs: PathSegments, h: nat)
    requires Segmented(segs) && h <= |segs.parts| && WellFormed(c, h + 1) && StaticPart(c.part)
    requires NoSpanAt(c, c.part, segs, h)
    ensures NoSpanThrough(Compress(c), segs, h)
  {
    forall q | Lookup(Compress(c).end, q).Some?
      ensures !SpansFrom(Compress(c).parts + q, segs, h)
    {
      CompressedPattern(c, h, q);
      var rest := Compress(c).parts[1..] + q;
      assert !SpansFrom([c.part] + rest, segs, h);
    }
  }

  /** What the end of a chain stores, seen from its start. */
  lemma CompressedPattern(c: Node, h: nat, q: seq<string>)
    requires WellFormed(c, h + 1) && StaticPart(c.part) && Lookup(Compress(c).end, q).Some?
    ensures Lookup(c, Compress(c).parts[1..] + q).Some?
    ensures Compress(c).parts + q == [c.part] + (Compress(c).parts[1..] + q)
  {
    ChainParts(c, h + 1);
    ChainLookup(c, h + 1, q);
    FirstAndRest(Compress(c).parts, q);
  }

  lemma FirstAndRest<T>(parts: seq<T>, q: seq<T>)
    requires parts != []
    ensures parts + q == [parts[0]] + (parts[1..] + q)
  {
  }

  lemma WalkedFits(ch: Chain, segs: PathSegments, h: nat)
    requires Segmented(segs) && h <= |segs.parts| && ChainOk(ch, segs, h) && Walked(ch, segs, h)
    ensures Fits(ch.parts, segs.parts[h..])
  {
    var parts := ch.parts;
    assert forall i | 0 <= i < |parts| :: parts[i] == segs.parts[h..h + |parts|][i] == segs.parts[h..][i];
  }

  /** Below the end of a walked chain there is no span either. */
  lemma WalkedNoSpan(ch: Chain, segs: PathSegments, h: nat, d: nat)
    requires Segmented(segs) && h <= |segs.parts| && ChainOk(ch, segs, h) && Walked(ch, segs, h) && d == h + |ch.parts|
    ensures NoSpan(ch.end, segs, d)
  {
    WalkedFits(ch, segs, h);
    forall q | Lookup(ch.end, q).Some?
      ensures !SpansFrom(q, segs, d)
    {
      SpanShift(ch.parts, q, segs, h, d);
    }
  }

  /** The end of a chain over a wide gap matches nothing, so the failing comparison loses nothing. */
  lemma WideChainDead(ch: Chain, segs: PathSegments, h: nat, d: nat, k: nat)
    requires Segmented(segs) && h <= |segs.parts| && ChainOk(ch, segs, h) && Walked(ch, segs, h) && d == h + |ch.parts|
    requires h <= k < d - 1 && !GapAt(segs, k)
    ensures Find(ch.end, segs, d) == None
  {
    WalkedFits(ch, segs, h);
    forall q | Lookup(ch.end, q).Some?
      ensures !Matches(q, segs.parts[d..])
    {
      FrontMatches(ch.parts, q, segs.parts[h..]);
      assert segs.parts[h..][|ch.parts|..] == segs.parts[d..];
      WideStraddles(ch.parts, q, segs, h, k);
    }
    FindIsBestMatch(ch.end, segs, d);
  }

  lemma WideStraddles(parts: seq<string>, q: seq<string>, segs: PathSegments, h: nat, k: nat)
    requires Segmented(segs) && StaticParts(parts) && h + |parts| <= |segs.parts|
    requires h <= k < h + |parts| - 1 && !GapAt(segs, k)
    ensures Straddles(parts + q, segs, h, k - h)
  {
    var p := parts + q;
    assert p[k - h] == parts[k - h] && p[k - h + 1] == parts[k - h + 1];
  }

  /** The comparison of a span fails on a walked chain only over a wide gap, where nothing matches below. */
  lemma JumpOrDead(ch: Chain, segs: PathSegments, h: nat, d: nat)
    requires Segmented(segs) && h <= |segs.parts| && ChainOk(ch, segs, h) && d == h + |ch.parts|
    ensures SpanIs(segs, h, |ch.parts|, Join(ch.parts)) ==> Walked(ch, segs, h)
    ensures Walked(ch, segs, h) && !SpanIs(segs, h, |ch.parts|, Join(ch.parts)) ==> Find(ch.end, segs, d) == None
  {
    if d <= |segs.parts| {
      SpanComparison(segs, h, ch.parts);
      if Walked(ch, segs, h) && !SpanMatches(segs, h, ch.parts) {
        var k :| h <= k < d - 1 && !GapAt(segs, k);
        WideChainDead(ch, segs, h, d, k);
      }
    }
  }

  lemma WalkCases(ch: Chain, segs: PathSegments, h: nat, d: nat)
    requires Segmented(segs) && d == h + |ch.parts|
    ensures WalkChain(ch, segs, h) == if Walked(ch, segs, h) then Find(ch.end, segs, d) else None
  {
  }

  lemma JumpCases(ch: Chain, segs: PathSegments, h: nat, d: nat)
    requires Segmented(segs) && d == h + |ch.parts| && ch.parts != []
    ensures JumpChain(ch, segs, h) ==
      if SpanIs(segs, h, |ch.parts|, Join(ch.parts))
      then FrozenBody(FreezeNode(ch.end, Join(ch.parts), |ch.parts|, ""), segs, d) else None
  {
  }

  lemma {:induction false} ChainParity(c: Node, segs: PathSegments, h: nat)
    requires Segmented(segs) && h < |segs.parts| && segs.parts[h] == c.part
    requires WellFormed(c, h + 1) && StaticPart(c.part) && NoSpanAt(c, c.part, segs, h)
    ensures FrozenFind(FreezeChain(c), segs, h) == Find(c, segs, h + 1)
    decreases c, 1, 0
  {
    ChainWalk(c, segs, h);
    ChainJump(c, segs, h);
    CompressedOk(c, segs, h);
    ChainJumpsAsWalked(c, Compress(c), segs, h);
  }

  lemma {:induction false} ChainJumpsAsWalked(c: Node, ch: Chain, segs: PathSegments, h: nat)
    requires Segmented(segs) && h <= |segs.parts| && ChainOk(ch, segs, h) && (ch.end == c || ch.end < c)
    ensures JumpChain(ch, segs, h) == WalkChain(ch, segs, h)
    decreases c, 0, 4
  {
    var d := h + |ch.parts|;
    WalkCases(ch, segs, h, d);
    JumpCases(ch, segs, h, d);
    JumpOrDead(ch, segs, h, d);
    if Walked(ch, segs, h) {
      EndParity(c, ch, segs, h, d);
    }
  }

  lemma {:induction false} EndParity(c: Node, ch: Chain, segs: PathSegments, h: nat, d: nat)
    requires Segmented(segs) && h <= |segs.parts| && ChainOk(ch, segs, h) && Walked(ch, segs, h) && d == h + |ch.parts|
    requires ch.end == c || ch.end < c
    ensures FrozenBody(FreezeNode(ch.end, Join(ch.parts), |ch.parts|, ""), segs, d) == Find(ch.end, segs, d)
    decreases c, 0, 3
  {
    WalkedNoSpan(ch, segs, h, d);
    BodyParity(ch.end, Join(ch.parts), |ch.parts|, "", segs, d);
  }

  lemma FindOverSpan(f: FrozenNode, segs: PathSegments, h: nat)
    requires Segmented(segs) && h <= |segs.parts| && h <= MAX_DEPTH && f.spanSegs > 0
    ensures FrozenFind(f, segs, h) ==
      if SpanIs(segs, h, f.spanSegs, f.staticSpan)
      then FrozenBody(f, segs, h + f.spanSegs) else None
  {
  }

  /** What the frozen search does on a compressed chain. */
  lemma ChainJump(c: Node, segs: PathSegments, h: nat)
    requires Segmented(segs) && h < |segs.parts| && h <= MAX_DEPTH
    ensures FrozenFind(FreezeChain(c), segs, h) == JumpChain(Compress(c), segs, h)
  {
    var ch := Compress(c);
    var f := FreezeChain(c);
    assert f == FreezeNode(ch.end, Join(ch.parts), |ch.parts|, "");
    assert f.spanSegs == |ch.parts| && f.staticSpan == Join(ch.parts);
    FindOverSpan(f, segs, h);
    assert SpanIs(segs, h, f.spanSegs, f.staticSpan) <==> SpanIs(segs, h, |ch.parts|, Join(ch.parts));
  }

  /** A frozen node built from `n` answers like `n`, whatever span it carries. */
  lemma {:induction false} BodyParity(n: Node, span: string, spanSegs: nat, part: string, segs: PathSegments, h: nat)
    requires Segmented(segs) && h <= |segs.parts|
    requires WellFormed(n, h) && NoSpan(n, segs, h) && !IsWild(n.part) && !IsWild(part)
    ensures FrozenBody(FreezeNode(n, span, spanSegs, part), segs, h) == Find(n, segs, h)
    decreases n, 0, 2
  {
    if h == |segs.parts| {
      BodyAtEnd(n, span, spanSegs, part, segs);
    } else {
      ChildrenParity(n, segs, h);
      BodyBelow(n, span, spanSegs, part, segs, h);
    }
  }

  lemma BodyAtEnd(n: Node, span: string, spanSegs: nat, part: string, segs: PathSegments)
    requires Segmented(segs) && WellFormed(n, |segs.parts|) && !IsWild(n.part) && !IsWild(part)
    ensures FrozenBody(FreezeNode(n, span, spanSegs, part), segs, |segs.parts|) == Find(n, segs, |segs.parts|)
  {
    if n.wild.Some? {
      WildParity(n.wild.value, segs, |segs.parts|);
    }
  }

  lemma {:induction false} ChildrenParity(n: Node, segs: PathSegments, h: nat)
    requires Segmented(segs) && h < |segs.parts| && WellFormed(n, h) && NoSpan(n, segs, h)
    ensures n.wild.Some? ==> FrozenFind(FreezeChild(n.wild.value), segs, h) == Find(n.wild.value, segs, h)
    ensures segs.parts[h] in n.statics ==>
              FrozenFind(FreezeChain(n.statics[segs.parts[h]]), segs, h) == Find(n.statics[segs.parts[h]], segs, h + 1)
    ensures n.param.Some? ==>
              FrozenBody(FreezeNode(n.param.value, "", 0, n.param.value.part), segs, h + 1) ==
                Find(n.param.value, segs, h + 1)
    decreases n, 0, 1
  {
    if n.wild.Some? {
      WildParity(n.wild.value, segs, h);
    }
    if segs.parts[h] in n.statics {
      ChildNoSpan(n, segs.parts[h], segs, h);
      ChainParity(n.statics[segs.parts[h]], segs, h);
    }
    if n.param.Some? {
      ParamParity(n, segs, h);
    }
  }

  lemma {:induction false} ParamParity(n: Node, segs: PathSegments, h: nat)
    requires Segmented(segs) && h < |segs.parts| && WellFormed(n, h) && NoSpan(n, segs, h) && n.param.Some?
    ensures FrozenBody(FreezeNode(n.param.value, "", 0, n.param.value.part), segs, h + 1) ==
            Find(n.param.value, segs, h + 1)
    decreases n, 0, 0
  {
    ChildNoSpan(n, n.param.value.part, segs, h);
    BodyParity(n.param.value, "", 0, n.param.value.part, segs, h + 1);
  }

  lemma BodyBelow(n: Node, span: string, spanSegs: nat, part: string, segs: PathSegments, h: nat)
    requires Segmented(segs) && h < |segs.parts| && h <= MAX_DEPTH && !IsWild(n.part) && !IsWild(part)
    requires n.wild.Some? ==> FrozenFind(FreezeChild(n.wild.value), segs, h) == Find(n.wild.value, segs, h)
    requires segs.parts[h] in n.statics ==>
               FrozenFind(FreezeChain(n.statics[segs.parts[h]]), segs, h) == Find(n.statics[segs.parts[h]], segs, h + 1)
    requires n.param.Some? ==> h < MAX_DEPTH
    requires n.param.Some? ==>
               FrozenBody(FreezeNode(n.param.value, "", 0, n.param.value.part), segs, h + 1) ==
                 Find(n.param.value, segs, h + 1)
    ensures FrozenBody(FreezeNode(n, span, spanSegs, part), segs, h) == Find(n, segs, h)
  {
    var f := FreezeNode(n, span, spanSegs, part);
    if n.param.Some? {
      var g := FreezeChild(n.param.value);
      assert g == FreezeNode(n.param.value, "", 0, n.param.value.part) && g.part == n.param.value.part
             && g.spanSegs == 0;
      assert FrozenFind(g, segs, h + 1) == Find(n.param.value, segs, h + 1);
    }
  }

  lemma WildParity(w: Node, segs: PathSegments, h: nat)
    requires Segmented(segs) && h <= |segs.parts| && IsWild(w.part) && IsPlainLeaf(w)
    ensures FrozenFind(FreezeChild(w), segs, h) == Find(w, segs, h)
  {
  }

  /**
   Freezing preserves meaning: if no stored pattern matches the path with adjacent literal segments
   over a gap wider than one slash, the frozen trie returns the same leaf and appends the same
   parameters.
   */
  lemma FreezeParity(root: Node, segs: PathSegments)
    requires WellFormed(root, 0) && root.part == "" && Segmented(segs) && NoSpan(root, segs, 0)
    ensures Parity(root, FreezeRoot(root), segs)
  {
    BodyParity(root, "", 0, "", segs, 0);
    var f := FreezeRoot(root);
    assert f.spanSegs == 0;
  }
}

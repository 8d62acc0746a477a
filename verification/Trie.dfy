/**
 The routing trie: nodes, registration with conflict detection (`node.insert`), and what a
 registration does to the set of routes the trie stores.
 */
module Trie {
  import opened Base
  import opened Segments
  import opened Paths

  const MAX_DEPTH: nat := 50

  datatype Handler = Handler(id: nat)

  /** A trie node. A node with an empty `pattern` is not a leaf; a nil handler is None. */
  datatype Node = Node(
    pattern: string,
    part: string,
    statics: map<string, Node>,
    param: Option<Node>,
    wild: Option<Node>,
    handler: Option<Handler>,
    hasParams: bool)

  function EmptyNode(part: string): Node {
    Node("", part, map[], None, None, None, false)
  }

  datatype InsertError =
    | TooDeep | Duplicate | NilHandler | WildcardNotLast | MissingName | InvalidPart
    | ParamNameConflict | WildcardNameConflict | ParamAgainstWildcard | WildcardAgainstParam

  /** `node` is the trie afterwards, on failure too: the source updates it in place. */
  datatype Inserted = Inserted(node: Node, error: Option<InsertError>)

  predicate IsParam(part: string) {
    part != "" && part[0] == ':'
  }

  predicate IsWild(part: string) {
    part != "" && part[0] == '*'
  }

  predicate Sanitary(part: string) {
    part != "" && forall c <- part :: c != '/' && !IsControl(c)
  }

  /** The segments of a path without control bytes pass sanitizePart. */
  lemma PartSanitary(s: string, part: string, i: nat)
    requires SegmentAt(s, part, i) && !HasControl(s)
    ensures Sanitary(part)
  {
    RunBytes(s, part, i);
    forall c <- part
      ensures c != '/' && !IsControl(c)
    {
      var x :| 0 <= x < |part| && part[x] == c;
      assert s[i + x] == c;
    }
  }

  /** matchChildForInsert: the child of the same kind, whatever its name. */
  function ChildForInsert(n: Node, part: string): (c: Option<Node>)
    ensures c.Some? ==> c.value < n
  {
    if part == "" then None
    else if IsParam(part) then n.param
    else if IsWild(part) then n.wild
    else if part in n.statics then Some(n.statics[part])
    else None
  }

  function SetChild(n: Node, part: string, child: Node): Node {
    if IsParam(part) then n.(param := Some(child))
    else if IsWild(part) then n.(wild := Some(child))
    else n.(statics := n.statics[part := child])
  }

  /** The error of `insert` at this level, before any child is created. */
  function PartError(parts: seq<string>, height: nat): Option<InsertError>
    requires height < |parts|
  {
    var part := parts[height];
    if IsWild(part) && |parts| > height + 1 then Some(WildcardNotLast)
    else if IsDynamic(part) && |part| == 1 then Some(MissingName)
    else if !Sanitary(part) then Some(InvalidPart)
    else None
  }

  /** The conflict of a part with the children already there. */
  function ChildError(n: Node, part: string): Option<InsertError> {
    var child := ChildForInsert(n, part);
    if child.Some? then
      if IsParam(part) && child.value.part != part then Some(ParamNameConflict)
      else if IsWild(part) && child.value.part != part then Some(WildcardNameConflict)
      else None
    else if IsParam(part) && n.wild.Some? then Some(ParamAgainstWildcard)
    else if IsWild(part) && n.param.Some? then Some(WildcardAgainstParam)
    else None
  }

  function Insert(n: Node, pattern: string, parts: seq<string>, height: nat,
                  handler: Option<Handler>, routeHasParams: bool): Inserted
    requires height <= |parts|
    decreases |parts| - height
  {
    if height > MAX_DEPTH then Inserted(n, Some(TooDeep))
    else if height == |parts| then
      if n.pattern != "" then Inserted(n, Some(Duplicate))
      else if handler.None? then Inserted(n, Some(NilHandler))
      else Inserted(n.(pattern := pattern, handler := handler, hasParams := routeHasParams), None)
    else
      var part := parts[height];
      if PartError(parts, height).Some? then Inserted(n, PartError(parts, height))
      else if ChildError(n, part).Some? then Inserted(n, ChildError(n, part))
      else
        var child := ChildForInsert(n, part);
        var start := if child.Some? then child.value else EmptyNode(part);
        var below := Insert(start, pattern, parts, height + 1, handler, routeHasParams || IsDynamic(part));
        Inserted(SetChild(n, part, below.node), below.error)
  }

  // ---------------------------------------------------------------- stored routes

  /** What a leaf answers with. */
  datatype Leaf = Leaf(pattern: string, handler: Option<Handler>, hasParams: bool)

  function LeafOf(n: Node): Leaf {
    Leaf(n.pattern, n.handler, n.hasParams)
  }

  /** The child reached by exactly this part, names included. */
  function Child(n: Node, part: string): (c: Option<Node>)
    ensures c.Some? ==> c.value < n
  {
    if IsParam(part) then if n.param.Some? && n.param.value.part == part then n.param else None
    else if IsWild(part) then if n.wild.Some? && n.wild.value.part == part then n.wild else None
    else if part in n.statics then Some(n.statics[part]) else None
  }

  /** The route stored under the pattern segments `p`, if any. */
  function Lookup(n: Node, p: seq<string>): Option<Leaf>
    decreases |p|
  {
    if p == [] then if n.pattern != "" then Some(LeafOf(n)) else None
    else
      var c := Child(n, p[0]);
      if c.Some? then Lookup(c.value, p[1..]) else None
  }

  /** A node that stores something, itself or below. */
  predicate Live(n: Node) {
    n.pattern != "" || n.statics != map[] || n.param.Some? || n.wild.Some?
  }

  /** The shape of every trie that registrations build; `depth` is the distance from the root. */
  ghost predicate WellFormed(n: Node, depth: nat) {
    && depth <= MAX_DEPTH
    && (n.pattern != "" <==> n.handler.Some?)
    && (n.pattern == "" ==> !n.hasParams)
    && (forall k <- n.statics ::
          && Sanitary(k) && !IsDynamic(k) && n.statics[k].part == k && Live(n.statics[k])
          && WellFormed(n.statics[k], depth + 1))
    && (n.param.Some? ==>
          && IsParam(n.param.value.part) && Live(n.param.value) && |n.param.value.part| > 1
          && WellFormed(n.param.value, depth + 1))
    && (n.wild.Some? ==>
          IsWild(n.wild.value.part) && |n.wild.value.part| > 1 && IsPlainLeaf(n.wild.value) && depth < MAX_DEPTH)
    && !(n.param.Some? && n.wild.Some?)
  }

  predicate IsPlainLeaf(n: Node) {
    n.pattern != "" && n.handler.Some? && n.statics == map[] && n.param.None? && n.wild.None?
  }

  /** Pattern segments that pass validateParamNames and sanitizePart. */
  predicate ValidPart(part: string) {
    Sanitary(part) && (IsDynamic(part) ==> |part| > 1)
  }

  predicate ValidParts(p: seq<string>) {
    forall i | 0 <= i < |p| :: ValidPart(p[i]) && (IsWild(p[i]) ==> i == |p| - 1)
  }

  /**
   Two patterns conflict when they are equal, or agree up to a segment where both are dynamic but
   different: two names, or a parameter against a wildcard.
   */
  predicate Conflict(p: seq<string>, q: seq<string>)
    decreases |p|
  {
    if p == [] || q == [] then p == q
    else if p[0] == q[0] then Conflict(p[1..], q[1..])
    else IsDynamic(p[0]) && IsDynamic(q[0])
  }

  lemma {:induction false} ConflictSymmetric(p: seq<string>, q: seq<string>)
    ensures Conflict(p, q) <==> Conflict(q, p)
    decreases |p|
  {
    if p != [] && q != [] && p[0] == q[0] {
      ConflictSymmetric(p[1..], q[1..]);
    }
  }

  lemma {:induction false} ConflictReflexive(p: seq<string>)
    ensures Conflict(p, p)
  {
    if p != [] {
      ConflictReflexive(p[1..]);
    }
  }

  /** Some stored route conflicts with `p`. */
  ghost predicate Clash(n: Node, p: seq<string>) {
    exists q :: Lookup(n, q).Some? && Conflict(p, q)
  }

  /** Every live subtree stores a route. */
  lemma {:induction false} LiveHasRoute(n: Node, depth: nat) returns (q: seq<string>)
    requires Live(n) && (WellFormed(n, depth) || IsPlainLeaf(n))
    ensures Lookup(n, q).Some?
    decreases n
  {
    if n.pattern != "" {
      q := [];
    } else if n.param.Some? {
      var rest := LiveHasRoute(n.param.value, depth + 1);
      q := [n.param.value.part] + rest;
    } else if n.wild.Some? {
      q := [n.wild.value.part];
      assert Lookup(n.wild.value, []).Some?;
    } else {
      var k :| k in n.statics;
      var rest := LiveHasRoute(n.statics[k], depth + 1);
      q := [k] + rest;
    }
  }

  /** Nothing is stored below an empty node. */
  lemma EmptyStoresNothing(part: string, q: seq<string>)
    ensures Lookup(EmptyNode(part), q).None?
  {
  }

  /** A clash below the child that `p` follows, or a dynamic sibling of another name or kind. */
  lemma ClashCases(n: Node, p: seq<string>, depth: nat)
    requires WellFormed(n, depth) && p != []
    ensures Clash(n, p) <==>
            || (Child(n, p[0]).Some? && Clash(Child(n, p[0]).value, p[1..]))
            || (IsDynamic(p[0]) && n.param.Some? && n.param.value.part != p[0])
            || (IsDynamic(p[0]) && n.wild.Some? && n.wild.value.part != p[0])
  {
    if Clash(n, p) {
      var q :| Lookup(n, q).Some? && Conflict(p, q);
      assert q != [];
      if p[0] == q[0] {
        assert Lookup(Child(n, p[0]).value, q[1..]).Some?;
      }
    }
    if Child(n, p[0]).Some? && Clash(Child(n, p[0]).value, p[1..]) {
      var q :| Lookup(Child(n, p[0]).value, q).Some? && Conflict(p[1..], q);
      assert ([p[0]] + q)[1..] == q;
      assert Lookup(n, [p[0]] + q).Some? && Conflict(p, [p[0]] + q);
    }
    if IsDynamic(p[0]) && n.param.Some? && n.param.value.part != p[0] {
      var q := LiveHasRoute(n.param.value, depth + 1);
      SiblingClash(n, p, n.param.value, q);
    }
    if IsDynamic(p[0]) && n.wild.Some? && n.wild.value.part != p[0] {
      SiblingClash(n, p, n.wild.value, []);
    }
  }

  lemma SiblingClash(n: Node, p: seq<string>, c: Node, q: seq<string>)
    requires p != [] && IsDynamic(p[0]) && IsDynamic(c.part) && c.part != p[0]
    requires Child(n, c.part) == Some(c) && Lookup(c, q).Some?
    ensures Clash(n, p)
  {
    var r := [c.part] + q;
    assert r[1..] == q;
    assert Lookup(n, r).Some? && Conflict(p, r);
  }

  // ---------------------------------------------------------------- registration

  /** What Insert does to the stored routes. */
  ghost predicate InsertEffect(n: Node, r: Inserted, p: seq<string>, leaf: Leaf, depth: nat) {
    && (r.error.Some? <==> Clash(n, p))
    && (r.error.Some? ==> r.node == n)
    && (r.error.None? ==>
          && Stored(r.node, depth) && r.node.part == n.part
          && forall q :: Lookup(r.node, q) == if q == p then Some(leaf) else Lookup(n, q))
  }

  /** A node of a trie, either an ordinary one or the wildcard leaf. */
  ghost predicate Stored(n: Node, depth: nat) {
    Live(n) && if IsWild(n.part) then IsPlainLeaf(n) else WellFormed(n, depth)
  }

  /** What a node may be when `insert` reaches it: ordinary, or a wildcard node fresh or stored. */
  ghost predicate Reached(n: Node, depth: nat, parts: seq<string>) {
    if IsWild(n.part) then depth == |parts| && (n == EmptyNode(n.part) || IsPlainLeaf(n)) else WellFormed(n, depth)
  }

  predicate AnyDynamic(p: seq<string>) {
    exists i | 0 <= i < |p| :: IsDynamic(p[i])
  }

  /** The child `insert` descends into: the one already there, or a fresh one. */
  function Descend(n: Node, part: string): Node {
    if ChildForInsert(n, part).Some? then ChildForInsert(n, part).value else EmptyNode(part)
  }

  lemma DescendIsChild(n: Node, part: string, depth: nat)
    requires WellFormed(n, depth) && ValidPart(part) && ChildError(n, part).None? && depth < MAX_DEPTH
    ensures ChildForInsert(n, part) == Child(n, part)
    ensures Descend(n, part).part == part
    ensures IsWild(part) ==> Descend(n, part) == EmptyNode(part) || IsPlainLeaf(Descend(n, part))
    ensures !IsWild(part) ==> WellFormed(Descend(n, part), depth + 1)
  {
  }

  /** ChildError is the part of a clash that shows at this level. */
  lemma ChildErrorMeaning(n: Node, part: string, depth: nat)
    requires WellFormed(n, depth) && ValidPart(part)
    ensures ChildError(n, part).Some? <==>
            || (IsDynamic(part) && n.param.Some? && n.param.value.part != part)
            || (IsDynamic(part) && n.wild.Some? && n.wild.value.part != part)
  {
  }

  lemma SetChildChild(n: Node, part: string, child: Node, k: string, depth: nat)
    requires WellFormed(n, depth) && ValidPart(part) && ChildError(n, part).None? && child.part == part
    ensures Child(SetChild(n, part, child), k) == if k == part then Some(child) else Child(n, k)
  {
  }

  lemma SetChildLookup(n: Node, part: string, child: Node, q: seq<string>, depth: nat)
    requires WellFormed(n, depth) && ValidPart(part) && ChildError(n, part).None? && child.part == part
    ensures Lookup(SetChild(n, part, child), q) ==
            if q != [] && q[0] == part then Lookup(child, q[1..]) else Lookup(n, q)
  {
    if q != [] {
      SetChildChild(n, part, child, q[0], depth);
    }
  }

  /** A fresh child stores nothing, so in either case the old routes through `part` are Descend's. */
  lemma DescendLookup(n: Node, part: string, q: seq<string>)
    requires ChildForInsert(n, part) == Child(n, part) && q != [] && q[0] == part
    ensures Lookup(n, q) == Lookup(Descend(n, part), q[1..])
  {
    EmptyStoresNothing(part, q[1..]);
  }

  lemma SetChildWellFormed(n: Node, part: string, child: Node, depth: nat)
    requires WellFormed(n, depth) && ValidPart(part) && ChildError(n, part).None? && depth < MAX_DEPTH
    requires child.part == part && Stored(child, depth + 1)
    ensures WellFormed(SetChild(n, part, child), depth) && Live(SetChild(n, part, child))
  {
    var n' := SetChild(n, part, child);
    if !IsDynamic(part) {
      assert part in n'.statics;
      forall k <- n'.statics
        ensures Sanitary(k) && !IsDynamic(k) && n'.statics[k].part == k && Live(n'.statics[k])
        ensures WellFormed(n'.statics[k], depth + 1)
      {
        assert k == part || k in n.statics;
      }
    }
  }

  lemma SetSameChild(n: Node, part: string)
    requires ChildForInsert(n, part).Some? && part != ""
    ensures SetChild(n, part, ChildForInsert(n, part).value) == n
  {
  }

  lemma InsertAtEnd(n: Node, pattern: string, parts: seq<string>, handler: Option<Handler>, hp: bool)
    requires |parts| <= MAX_DEPTH && Reached(n, |parts|, parts) && pattern != "" && handler.Some?
    ensures InsertEffect(n, Insert(n, pattern, parts, |parts|, handler, hp), [], Leaf(pattern, handler, hp), |parts|)
  {
    var r := Insert(n, pattern, parts, |parts|, handler, hp);
    assert Lookup(n, []).Some? ==> Clash(n, []) by {
      assert Conflict([], []);
    }
    forall q | q != []
      ensures Lookup(r.node, q) == Lookup(n, q)
    {
      assert Child(r.node, q[0]) == Child(n, q[0]);
    }
  }

  /**
   Registering a validated pattern fails exactly when it conflicts with a stored one; a failure
   leaves the trie as it was, and success adds exactly the new route.
   */
  lemma {:induction false} InsertCharacterised(n: Node, pattern: string, parts: seq<string>, height: nat,
                                               handler: Option<Handler>, hp: bool)
    requires height <= |parts| <= MAX_DEPTH && Reached(n, height, parts) && ValidParts(parts)
    requires pattern != "" && handler.Some?
    ensures InsertEffect(n, Insert(n, pattern, parts, height, handler, hp), parts[height..],
                         Leaf(pattern, handler, hp || AnyDynamic(parts[height..])), height)
    decreases |parts| - height
  {
    if height == |parts| {
      assert parts[height..] == [];
      InsertAtEnd(n, pattern, parts, handler, hp);
    } else {
      var part, p := parts[height], parts[height..];
      assert p[0] == part && p[1..] == parts[height + 1..];
      ChildErrorMeaning(n, part, height);
      ClashCases(n, p, height);
      if ChildError(n, part).None? {
        DescendIsChild(n, part, height);
        InsertCharacterised(Descend(n, part), pattern, parts, height + 1, handler, hp || IsDynamic(part));
        assert AnyDynamic(p) <==> IsDynamic(part) || AnyDynamic(p[1..]);
        InsertBelow(n, pattern, parts, height, handler, hp);
      }
    }
  }

  /** A route added below the child of its first segment is added to the node. */
  lemma LookupBelow(n: Node, child: Node, p: seq<string>, leaf: Leaf, q: seq<string>, height: nat)
    requires p != [] && WellFormed(n, height) && ValidPart(p[0]) && ChildError(n, p[0]).None? && child.part == p[0]
    requires ChildForInsert(n, p[0]) == Child(n, p[0])
    requires forall t :: Lookup(child, t) == if t == p[1..] then Some(leaf) else Lookup(Descend(n, p[0]), t)
    ensures Lookup(SetChild(n, p[0], child), q) == if q == p then Some(leaf) else Lookup(n, q)
  {
    SetChildLookup(n, p[0], child, q, height);
    if q != [] && q[0] == p[0] {
      DescendLookup(n, p[0], q);
      assert q == [p[0]] + q[1..] && p == [p[0]] + p[1..];
    }
  }

  lemma InsertBelow(n: Node, pattern: string, parts: seq<string>, height: nat, handler: Option<Handler>, hp: bool)
    requires height < |parts| <= MAX_DEPTH && WellFormed(n, height) && !IsWild(n.part) && ValidParts(parts)
    requires ChildError(n, parts[height]).None?
    requires ChildForInsert(n, parts[height]) == Child(n, parts[height])
    requires Descend(n, parts[height]).part == parts[height]
    requires Clash(n, parts[height..]) <==>
             Child(n, parts[height]).Some? && Clash(Child(n, parts[height]).value, parts[height + 1..])
    requires var part := parts[height];
             var below := Insert(Descend(n, part), pattern, parts, height + 1, handler, hp || IsDynamic(part));
             InsertEffect(Descend(n, part), below, parts[height + 1..],
                          Leaf(pattern, handler, hp || AnyDynamic(parts[height..])), height + 1)
    ensures InsertEffect(n, Insert(n, pattern, parts, height, handler, hp), parts[height..],
                         Leaf(pattern, handler, hp || AnyDynamic(parts[height..])), height)
  {
    var part, p, start := parts[height], parts[height..], Descend(n, parts[height]);
    assert p[0] == part && p[1..] == parts[height + 1..];
    var below := Insert(start, pattern, parts, height + 1, handler, hp || IsDynamic(part));
    var r := Insert(n, pattern, parts, height, handler, hp);
    assert r == Inserted(SetChild(n, part, below.node), below.error);
    if below.error.Some? {
      assert ChildForInsert(n, part).Some?;
      SetSameChild(n, part);
    } else {
      SetChildWellFormed(n, part, below.node, height);
      forall q
        ensures Lookup(r.node, q) == if q == p then Some(Leaf(pattern, handler, hp || AnyDynamic(p))) else Lookup(n, q)
      {
        LookupBelow(n, below.node, p, Leaf(pattern, handler, hp || AnyDynamic(p)), q, height);
      }
    }
  }

  // ---------------------------------------------------------------- atomicity of insert

  /** `insert` gets to a segment without errors and finds no child for it. */
  predicate Creates(n: Node, parts: seq<string>, height: nat)
    requires height <= |parts|
    decreases |parts| - height
  {
    && height <= MAX_DEPTH && height < |parts|
    && PartError(parts, height).None? && ChildError(n, parts[height]).None?
    && match ChildForInsert(n, parts[height])
       case None => true
       case Some(child) => Creates(child, parts, height + 1)
  }

  lemma SetChildFound(n: Node, part: string, child: Node)
    requires part != ""
    ensures ChildForInsert(SetChild(n, part, child), part) == Some(child)
  {
  }

  /**
   For any trie and any segments, validated or not: a failing insert changes the trie exactly when it
   has created a child on its way.
   */
  lemma {:induction false} FailedInsertChangesExactly(n: Node, pattern: string, parts: seq<string>, height: nat,
                                                      handler: Option<Handler>, hp: bool)
    requires height <= |parts| && Insert(n, pattern, parts, height, handler, hp).error.Some?
    ensures Insert(n, pattern, parts, height, handler, hp).node != n <==> Creates(n, parts, height)
    decreases |parts| - height
  {
    if height <= MAX_DEPTH && height < |parts| && PartError(parts, height).None? && ChildError(n, parts[height]).None? {
      var part := parts[height];
      var below := Insert(Descend(n, part), pattern, parts, height + 1, handler, hp || IsDynamic(part));
      assert Insert(n, pattern, parts, height, handler, hp) == Inserted(SetChild(n, part, below.node), below.error);
      FailedInsertChangesExactly(Descend(n, part), pattern, parts, height + 1, handler, hp || IsDynamic(part));
      SetChildFound(n, part, below.node);
      if ChildForInsert(n, part).Some? {
        SetSameChild(n, part);
      }
    }
  }

  /**
   A failing insert that does change the trie: the prefix "a" stays. Handle never asks for it, since
   the names are validated first.
   */
  lemma FailedInsertCanChange(handler: Handler)
    ensures var parts, root := ["a", "*w", "b"], EmptyNode("");
            var r := Insert(root, "/a/*w/b", parts, 0, Some(handler), true);
            && r.error == Some(WildcardNotLast) && Creates(root, parts, 0)
            && r.node == root.(statics := map["a" := EmptyNode("a")]) != root
  {
    var parts := ["a", "*w", "b"];
    var below := Insert(EmptyNode("a"), "/a/*w/b", parts, 1, Some(handler), true);
    assert below == Inserted(EmptyNode("a"), Some(WildcardNotLast));
    assert PartError(parts, 0).None?;
  }
}

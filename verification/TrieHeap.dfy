/**
 The trie as the linked nodes of the source: `insert` updates the nodes in place, and what it does
 to the whole structure is the function `Insert` on trees.
 */
module TrieHeap {
  import opened Base
  import opened Paths
  import opened Trie
  import opened StaticChildrenMap

  /** The edges of a node: literal segments, which never start with ':' or '*', and the two below. */
  const PARAM_EDGE := ":"
  const WILD_EDGE := "*"

  function EdgeOf(part: string): string {
    if IsParam(part) then PARAM_EDGE else if IsWild(part) then WILD_EDGE else part
  }

  /** A child with the objects below it and the tree it stands for. */
  datatype Kid = Kid(node: TrieNode, repr: set<object>, tree: Node)

  /** The subtrees of a node share no object, and none of them leads back to it. */
  ghost predicate Apart(self: object, statics: object?, kids: map<string, Kid>, repr: set<object>) {
    && self in repr && (statics != null ==> statics in repr)
    && (forall k <- kids :: Inside(self, statics, kids[k], repr))
    && (forall j <- kids, k <- kids | j != k :: kids[j].repr !! kids[k].repr)
  }

  ghost predicate Inside(self: object, statics: object?, kid: Kid, repr: set<object>) {
    kid.node in kid.repr && kid.repr <= repr && self !in kid.repr && statics !in kid.repr
  }

  ghost function NodesOf(kids: map<string, Kid>): map<string, TrieNode> {
    map k | k in kids && k != PARAM_EDGE && k != WILD_EDGE :: kids[k].node
  }

  ghost function TreeAt(kids: map<string, Kid>, edge: string): Option<Node> {
    if edge in kids then Some(kids[edge].tree) else None
  }

  ghost function TreeOf(pattern: string, part: string, handler: Option<Handler>, hasParams: bool,
                        kids: map<string, Kid>): Node {
    Node(pattern, part, map k | k in kids && k != PARAM_EDGE && k != WILD_EDGE :: kids[k].tree,
         TreeAt(kids, PARAM_EDGE), TreeAt(kids, WILD_EDGE), handler, hasParams)
  }

  lemma NodesOfUpdate(kids: map<string, Kid>, part: string, kid: Kid)
    requires part != ""
    ensures var more := kids[EdgeOf(part) := kid];
            NodesOf(more) == if IsDynamic(part) then NodesOf(kids) else NodesOf(kids)[part := kid.node]
  {
  }

  /** A kid that can take its place under an edge. */
  ghost predicate Fits(self: object, before: object?, after: object?, kids: map<string, Kid>, repr: set<object>,
                       edge: string, kid: Kid) {
    && Apart(self, before, kids, repr)
    && kid.node in kid.repr && self !in kid.repr && after !in kid.repr
    && (forall k <- kids | k != edge :: kids[k].repr !! kid.repr)
    && (after == before || after !in repr)
  }

  /** A kid added, or one whose subtree has grown. */
  lemma ApartUpdate(self: object, before: object?, after: object?, kids: map<string, Kid>, repr: set<object>,
                    edge: string, kid: Kid)
    requires Fits(self, before, after, kids, repr, edge, kid)
    ensures Apart(self, after, kids[edge := kid], repr + kid.repr + if after == null then {} else {after})
  {
  }

  /** A kid that has grown by new objects only. */
  lemma GrownFits(self: object, statics: object?, kids: map<string, Kid>, repr: set<object>, edge: string, kid: Kid)
    requires Apart(self, statics, kids, repr) && edge in kids && kid.node in kid.repr
    requires kid.repr !! repr - kids[edge].repr
    ensures Fits(self, statics, statics, kids, repr, edge, kid)
  {
    assert Inside(self, statics, kids[edge], repr);
    assert self in repr - kids[edge].repr;
    assert statics != null ==> statics in repr - kids[edge].repr;
    forall k <- kids | k != edge
      ensures kids[k].repr !! kid.repr
    {
      assert Inside(self, statics, kids[k], repr);
      assert kids[k].repr <= repr - kids[edge].repr;
    }
  }

  lemma TreeOfUpdate(pattern: string, part: string, handler: Option<Handler>, hasParams: bool, kids: map<string, Kid>,
                     at: string, kid: Kid)
    requires at != ""
    ensures TreeOf(pattern, part, handler, hasParams, kids[EdgeOf(at) := kid])
         == SetChild(TreeOf(pattern, part, handler, hasParams, kids), at, kid.tree)
  {
  }

  lemma ChildOfTree(pattern: string, part: string, handler: Option<Handler>, hasParams: bool, kids: map<string, Kid>,
                    at: string)
    requires at != ""
    ensures ChildForInsert(TreeOf(pattern, part, handler, hasParams, kids), at) == TreeAt(kids, EdgeOf(at))
  {
  }

  lemma SameChild(pattern: string, part: string, handler: Option<Handler>, hasParams: bool, kids: map<string, Kid>,
                  at: string)
    requires at != "" && EdgeOf(at) in kids
    ensures var n := TreeOf(pattern, part, handler, hasParams, kids);
            Trie.Descend(n, at) == kids[EdgeOf(at)].tree && SetChild(n, at, kids[EdgeOf(at)].tree) == n
  {
    TreeOfUpdate(pattern, part, handler, hasParams, kids, at, kids[EdgeOf(at)]);
    assert kids[EdgeOf(at) := kids[EdgeOf(at)]] == kids;
  }

  lemma InsertUnfolds(n: Node, pattern: string, parts: seq<string>, height: nat, handler: Option<Handler>,
                      routeHasParams: bool)
    requires height < |parts| && height <= MAX_DEPTH && PartError(parts, height).None?
    requires ChildError(n, parts[height]).None?
    ensures var part := parts[height];
            var start := Trie.Descend(n, part);
            var below := Trie.Insert(start, pattern, parts, height + 1, handler, routeHasParams || IsDynamic(part));
            && Trie.Insert(n, pattern, parts, height, handler, routeHasParams) ==
               Inserted(SetChild(n, part, below.node), below.error)
            && SetChild(SetChild(n, part, start), part, below.node) == SetChild(n, part, below.node)
  {
  }

  /** A kid is a valid node with the objects and the tree recorded for it. */
  ghost predicate Settled(kid: Kid)
    reads kid.node, kid.repr
    decreases kid.repr, 1
  {
    kid.node.repr == kid.repr && kid.node.Valid() && kid.node.Tree() == kid.tree
  }

  class TrieNode {
    var pattern: string
    var part: string
    var staticChildren: StaticChildren?<TrieNode>
    var paramChild: TrieNode?
    var wildChild: TrieNode?
    var handler: Option<Handler>
    var hasParams: bool
    /** All children by edge, and all objects of the subtree. */
    ghost var kids: map<string, Kid>
    ghost var repr: set<object>

    ghost predicate Valid()
      reads this, repr
      decreases repr, 0
    {
      && Apart(this, staticChildren, kids, repr)
      && Linked(kids)
      && (forall k <- kids :: Settled(kids[k]))
    }

    /** The fields hold these children. */
    ghost predicate Linked(kids: map<string, Kid>)
      reads this, staticChildren
    {
      && (staticChildren != null ==> staticChildren.Valid())
      && (paramChild == if PARAM_EDGE in kids then kids[PARAM_EDGE].node else null)
      && (wildChild == if WILD_EDGE in kids then kids[WILD_EDGE].node else null)
      && (if staticChildren == null then map[] else staticChildren.contents) == NodesOf(kids)
    }

    ghost function Tree(): Node
      reads this
    {
      TreeOf(pattern, part, handler, hasParams, kids)
    }

    constructor (part: string)
      ensures Valid() && fresh(repr) && Tree() == EmptyNode(part)
    {
      this.pattern, this.part, handler, hasParams := "", part, None, false;
      staticChildren, paramChild, wildChild := null, null, null;
      kids, repr := map[], {this};
    }

    method MatchChildForInsert(part: string) returns (child: TrieNode?)
      requires Linked(kids)
      ensures child == if part != "" && EdgeOf(part) in kids then kids[EdgeOf(part)].node else null
    {
      if |part| == 0 {
        return null;
      }
      if part[0] == ':' {
        return paramChild;
      }
      if part[0] == '*' {
        return wildChild;
      }
      assert part in kids ==> part in NodesOf(kids);
      if staticChildren == null {
        return null;
      }
      var found := staticChildren.Get(part);
      return if found.Some? then found.value else null;
    }

    /** The assignments to the child fields. */
    method LinkChild(part: string, child: TrieNode)
      requires Linked(kids) && part != "" && EdgeOf(part) !in kids
      modifies this`paramChild, this`wildChild, this`staticChildren, staticChildren
      ensures Linked(kids[EdgeOf(part) := Kid(child, child.repr, child.Tree())])
      ensures staticChildren != old(staticChildren) ==> old(staticChildren) == null && fresh(staticChildren)
    {
      NodesOfUpdate(kids, part, Kid(child, child.repr, child.Tree()));
      if part[0] == ':' {
        paramChild := child;
      } else if part[0] == '*' {
        wildChild := child;
      } else {
        if staticChildren == null {
          staticChildren := new StaticChildren();
        }
        staticChildren.Set(part, child);
      }
    }

    /** Account for a kid that is new or whose subtree has changed. */
    ghost method Record(part: string, kid: Kid, before: object?)
      requires part != "" && Fits(this, before, staticChildren, kids, repr, EdgeOf(part), kid)
      requires Settled(kid) && forall k <- kids | k != EdgeOf(part) :: Settled(kids[k])
      requires Linked(kids[EdgeOf(part) := kid])
      modifies this`kids, this`repr
      ensures Valid() && kids == old(kids)[EdgeOf(part) := kid]
      ensures repr == old(repr) + kid.repr + if staticChildren == null then {} else {staticChildren}
      ensures Tree() == SetChild(old(Tree()), part, kid.tree)
    {
      ApartUpdate(this, before, staticChildren, kids, repr, EdgeOf(part), kid);
      TreeOfUpdate(pattern, this.part, handler, hasParams, kids, part, kid);
      kids := kids[EdgeOf(part) := kid];
      repr := repr + kid.repr + if staticChildren == null then {} else {staticChildren};
    }

    /** Hang a new node below this one. */
    method Attach(part: string, child: TrieNode)
      requires Valid() && part != "" && EdgeOf(part) !in kids
      requires child.Valid() && child.repr !! repr
      modifies this, staticChildren
      ensures Valid() && fresh(repr - old(repr) - child.repr)
      ensures kids == old(kids)[EdgeOf(part) := Kid(child, child.repr, child.Tree())]
      ensures Tree() == SetChild(old(Tree()), part, child.Tree())
    {
      LinkChild(part, child);
      Record(part, Kid(child, child.repr, child.Tree()), old(staticChildren));
    }

    /** node.insert: the error, and the tree afterwards, are those of the function on trees. */
    method Insert(pattern: string, parts: seq<string>, height: nat, handler: Option<Handler>, routeHasParams: bool)
      returns (error: Option<InsertError>)
      requires Valid() && height <= |parts|
      modifies repr
      ensures Valid() && fresh(repr - old(repr))
      ensures Inserted(Tree(), error) == Trie.Insert(old(Tree()), pattern, parts, height, handler, routeHasParams)
      decreases |parts| - height, 1
    {
      if height > MAX_DEPTH {
        return Some(TooDeep);
      }
      if height == |parts| {
        error := StoreHere(pattern, handler, routeHasParams);
        return;
      }
      var part := parts[height];
      error := PartError(parts, height);
      if error.Some? {
        return;
      }
      ghost var before := Tree();
      error := PickChild(part);
      if error.Some? {
        return;
      }
      InsertUnfolds(before, pattern, parts, height, handler, routeHasParams);
      error := InsertIntoChild(pattern, parts, height, handler, routeHasParams || IsDynamic(part));
    }

    /** The conflict checks of insert. */
    method CheckConflict(part: string, child: TrieNode?) returns (error: Option<InsertError>)
      requires Valid() && part != "" && child == if EdgeOf(part) in kids then kids[EdgeOf(part)].node else null
      ensures error == ChildError(Tree(), part)
    {
      ChildOfTree(pattern, this.part, handler, hasParams, kids, part);
      if child != null {
        assert Settled(kids[EdgeOf(part)]);
        if IsParam(part) && child.part != part {
          return Some(ParamNameConflict);
        }
        if IsWild(part) && child.part != part {
          return Some(WildcardNameConflict);
        }
      } else {
        if IsParam(part) && wildChild != null {
          return Some(ParamAgainstWildcard);
        }
        if IsWild(part) && paramChild != null {
          return Some(WildcardAgainstParam);
        }
      }
      error := None;
    }

    /** The child of insert, checked, and created when it is missing. */
    method PickChild(part: string) returns (error: Option<InsertError>)
      requires Valid() && part != ""
      modifies this, staticChildren
      ensures Valid() && fresh(repr - old(repr))
      ensures error == ChildError(old(Tree()), part)
      ensures error.Some? ==> Tree() == old(Tree())
      ensures error.None? ==> EdgeOf(part) in kids && kids[EdgeOf(part)].tree == Trie.Descend(old(Tree()), part)
      ensures error.None? ==> Tree() == SetChild(old(Tree()), part, Trie.Descend(old(Tree()), part))
    {
      var child := MatchChildForInsert(part);
      error := CheckConflict(part, child);
      ChildOfTree(pattern, this.part, handler, hasParams, kids, part);
      if child != null {
        SameChild(pattern, this.part, handler, hasParams, kids, part);
      } else if error.None? {
        child := new TrieNode(part);
        Attach(part, child);
      }
    }

    /** The recursive call of insert. */
    method InsertIntoChild(pattern: string, parts: seq<string>, height: nat, handler: Option<Handler>,
                           routeHasParams: bool)
      returns (error: Option<InsertError>)
      requires Valid() && height < |parts| && parts[height] != "" && EdgeOf(parts[height]) in kids
      modifies repr
      ensures Valid() && fresh(repr - old(repr))
      ensures var start := old(kids)[EdgeOf(parts[height])].tree;
        var below := Trie.Insert(start, pattern, parts, height + 1, handler, routeHasParams);
        Inserted(Tree(), error) == Inserted(SetChild(old(Tree()), parts[height], below.node), below.error)
      decreases |parts| - height, 0
    {
      var part := parts[height];
      var child := MatchChildForInsert(part);
      error := child.Insert(pattern, parts, height + 1, handler, routeHasParams);
      ghost var kid := Kid(child, child.repr, child.Tree());
      NodesOfUpdate(kids, part, kid);
      GrownFits(this, staticChildren, kids, repr, EdgeOf(part), kid);
      Record(part, kid, staticChildren);
    }

    /** The base case of insert. */
    method StoreHere(pattern: string, handler: Option<Handler>, routeHasParams: bool)
      returns (error: Option<InsertError>)
      requires Valid()
      modifies this`pattern, this`handler, this`hasParams
      ensures Valid()
      ensures Inserted(Tree(), error) == Trie.Insert(old(Tree()), pattern, [], 0, handler, routeHasParams)
    {
      if this.pattern != "" {
        return Some(Duplicate);
      }
      if handler.None? {
        return Some(NilHandler);
      }
      this.pattern := pattern;
      this.handler := handler;
      this.hasParams := routeHasParams;
      error := None;
    }
  }
}

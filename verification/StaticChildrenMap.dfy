/**
 The children of a trie node under literal segments: a short list that turns into a map when it
 outgrows its threshold. Either way it is a finite map from segments to children.
 */
module StaticChildrenMap {
  import opened Base

  const STATIC_CHILD_THRESHOLD: nat := 4

  datatype Entry<V> = Entry(part: string, child: V)

  /** What a list of entries stores. */
  ghost predicate Lists<V>(small: seq<Entry<V>>, contents: map<string, V>) {
    && (forall i, j | 0 <= i < j < |small| :: small[i].part != small[j].part)
    && (forall i | 0 <= i < |small| :: small[i].part in contents && contents[small[i].part] == small[i].child)
    && (forall part <- contents :: Occurs(small, part))
  }

  ghost predicate Occurs<V>(small: seq<Entry<V>>, part: string) {
    exists i :: 0 <= i < |small| && small[i].part == part
  }

  class StaticChildren<V> {
    var small: seq<Entry<V>>
    var m: Option<map<string, V>>
    ghost var contents: map<string, V>

    ghost predicate Valid()
      reads this
    {
      if m.Some? then small == [] && contents == m.value
      else |small| <= STATIC_CHILD_THRESHOLD && Lists(small, contents)
    }

    constructor ()
      ensures Valid() && contents == map[]
    {
      small, m, contents := [], None, map[];
    }

    method Get(part: string) returns (child: Option<V>)
      requires Valid()
      ensures child == if part in contents then Some(contents[part]) else None
    {
      if m.Some? {
        return if part in m.value then Some(m.value[part]) else None;
      }
      var i := |small|;
      while i > 0
        invariant 0 <= i <= |small|
        invariant forall j | i <= j < |small| :: small[j].part != part
      {
        i := i - 1;
        if small[i].part == part {
          return Some(small[i].child);
        }
      }
      return None;
    }

    /** The number of children; a nil receiver of the source has none. */
    method Len() returns (n: nat)
      requires Valid()
      ensures n == |contents|
    {
      if m.Some? {
        return |m.value|;
      }
      ListSize(small, contents);
      return |small|;
    }

    /** The only child, when there is exactly one. */
    method Only() returns (only: Option<Entry<V>>)
      requires Valid()
      ensures only.Some? <==> |contents| == 1
      ensures only.Some? ==> contents == map[only.value.part := only.value.child]
    {
      if m.Some? {
        if |m.value| != 1 {
          return None;
        }
        var part :| part in m.value;
        Singleton(m.value, part);
        return Some(Entry(part, m.value[part]));
      }
      ListSize(small, contents);
      if |small| != 1 {
        return None;
      }
      Singleton(contents, small[0].part);
      return Some(small[0]);
    }

    method Set(part: string, child: V)
      requires Valid()
      modifies this
      ensures Valid() && contents == old(contents)[part := child]
    {
      contents := contents[part := child];
      if m.Some? {
        m := Some(m.value[part := child]);
        return;
      }
      for i := 0 to |small|
        invariant forall j | 0 <= j < i :: small[j].part != part
      {
        if small[i].part == part {
          ReplaceLists(small, old(contents), i, child);
          small := small[i := Entry(part, child)];
          return;
        }
      }
      if |small| < STATIC_CHILD_THRESHOLD {
        AppendLists(small, old(contents), part, child);
        small := small + [Entry(part, child)];
        return;
      }
      var grown := ToMap(small, old(contents));
      small, m := [], Some(grown[part := child]);
    }
  }

  /** The map that replaces a full list. */
  method ToMap<V>(small: seq<Entry<V>>, ghost contents: map<string, V>) returns (grown: map<string, V>)
    requires Lists(small, contents)
    ensures grown == contents
  {
    grown := map[];
    for i := 0 to |small|
      invariant forall k <- grown :: k in contents && grown[k] == contents[k]
      invariant forall j | 0 <= j < i :: small[j].part in grown
    {
      grown := grown[small[i].part := small[i].child];
    }
    assert forall k <- contents :: Occurs(small, k);
  }

  lemma ReplaceLists<V>(small: seq<Entry<V>>, contents: map<string, V>, at: nat, child: V)
    requires Lists(small, contents) && at < |small|
    ensures Lists(small[at := Entry(small[at].part, child)], contents[small[at].part := child])
  {
    var part := small[at].part;
    var s, c := small[at := Entry(part, child)], contents[part := child];
    assert forall i | 0 <= i < |small| :: s[i].part == small[i].part;
    forall k <- c
      ensures Occurs(s, k)
    {
      assert Occurs(small, k);
      var i :| 0 <= i < |small| && small[i].part == k;
      assert s[i].part == k;
    }
  }

  lemma AppendLists<V>(small: seq<Entry<V>>, contents: map<string, V>, part: string, child: V)
    requires Lists(small, contents) && forall j | 0 <= j < |small| :: small[j].part != part
    ensures Lists(small + [Entry(part, child)], contents[part := child])
  {
    var s := small + [Entry(part, child)];
    assert s[|small|].part == part;
    forall k <- contents
      ensures Occurs(s, k)
    {
      assert Occurs(small, k);
      var i :| 0 <= i < |small| && small[i].part == k;
      assert s[i].part == k;
    }
  }

  /** A list without repeated segments has one entry per stored segment. */
  lemma {:induction false} ListSize<V>(small: seq<Entry<V>>, contents: map<string, V>)
    requires Lists(small, contents)
    ensures |small| == |contents|
  {
    assert forall k <- contents :: Occurs(small, k);
    if small != [] {
      var n := |small| - 1;
      var last := small[n].part;
      var rest := contents - {last};
      ShorterLists(small, contents);
      ListSize(small[..n], rest);
      assert contents.Keys == rest.Keys + {last};
      assert |contents.Keys| == |rest.Keys| + 1;
    }
  }

  lemma ShorterLists<V>(small: seq<Entry<V>>, contents: map<string, V>)
    requires Lists(small, contents) && small != []
    ensures Lists(small[..|small| - 1], contents - {small[|small| - 1].part})
  {
    var n := |small| - 1;
    var rest := contents - {small[n].part};
    forall k <- rest
      ensures Occurs(small[..n], k)
    {
      assert Occurs(small, k);
      var i :| 0 <= i < |small| && small[i].part == k;
      assert small[..n][i].part == k;
    }
  }

  lemma Singleton<V>(contents: map<string, V>, part: string)
    requires |contents| == 1 && part in contents
    ensures contents == map[part := contents[part]]
  {
    forall k <- contents
      ensures k == part
    {
      assert |contents.Keys - {part}| == 0;
    }
  }
}

/**
 The Allow header: collecting methods into a bit set and a list, and rendering them so that the
 result depends on the set of methods only.
 */
module Allow {
  const GET := "GET"
  const HEAD := "HEAD"
  const OPTIONS := "OPTIONS"

  /** methodOrder: the seven standard methods, each owning one bit. */
  const METHOD_ORDER: seq<string> := [GET, HEAD, "POST", "PUT", "PATCH", "DELETE", OPTIONS]

  // ---------------------------------------------------------------- byte order on strings

  predicate StrLe(a: string, b: string)
    decreases |a|
  {
    if a == "" then true
    else if b == "" then false
    else if a[0] != b[0] then a[0] < b[0]
    else StrLe(a[1..], b[1..])
  }

  lemma {:induction false} StrTotal(a: string, b: string)
    ensures StrLe(a, b) || StrLe(b, a)
    ensures StrLe(a, b) && StrLe(b, a) ==> a == b
    decreases |a|
  {
    if a != "" && b != "" && a[0] == b[0] {
      StrTotal(a[1..], b[1..]);
      assert a == [a[0]] + a[1..] && b == [b[0]] + b[1..];
    }
  }

  lemma {:induction false} StrTransitive(a: string, b: string, c: string)
    requires StrLe(a, b) && StrLe(b, c)
    ensures StrLe(a, c)
    decreases |a|
  {
    if a != "" && b != "" && c != "" && a[0] == b[0] == c[0] {
      StrTransitive(a[1..], b[1..], c[1..]);
    }
  }

  ghost predicate SortedStrictly(s: seq<string>) {
    forall i, j | 0 <= i < j < |s| :: StrLe(s[i], s[j]) && s[i] != s[j]
  }

  function Elements(s: seq<string>): set<string> {
    set x | x in s
  }

  /** A set has one strictly sorted enumeration. */
  lemma {:induction false} SortedUnique(a: seq<string>, b: seq<string>)
    requires SortedStrictly(a) && SortedStrictly(b) && Elements(a) == Elements(b)
    ensures a == b
    decreases |a|
  {
    if a == [] {
      assert forall i | 0 <= i < |b| :: b[i] in Elements(b);
    } else {
      assert a[0] in Elements(b);
      assert b[0] in b && b[0] in Elements(a);
      var j :| 0 <= j < |b| && b[j] == a[0];
      var i :| 0 <= i < |a| && a[i] == b[0];
      StrTotal(a[0], b[0]);
      SameTails(a, b);
      SortedUnique(a[1..], b[1..]);
      assert a == [a[0]] + a[1..] && b == [b[0]] + b[1..];
    }
  }

  lemma SameTails(a: seq<string>, b: seq<string>)
    requires SortedStrictly(a) && SortedStrictly(b) && Elements(a) == Elements(b) && a != [] && b != [] && a[0] == b[0]
    ensures SortedStrictly(a[1..]) && SortedStrictly(b[1..]) && Elements(a[1..]) == Elements(b[1..])
  {
    TailElements(a);
    TailElements(b);
  }

  lemma TailElements(a: seq<string>)
    requires SortedStrictly(a) && a != []
    ensures Elements(a[1..]) == Elements(a) - {a[0]}
  {
    forall x
      ensures x in Elements(a[1..]) <==> x in Elements(a) - {a[0]}
    {
      if x in Elements(a) - {a[0]} {
        var i :| 0 <= i < |a| && a[i] == x;
        assert a[1..][i - 1] == x;
      }
    }
  }

  /** One element put into its place. */
  function Place(x: string, s: seq<string>): (r: seq<string>)
    ensures |r| == |s| + 1
  {
    if s == [] then [x] else if StrLe(x, s[0]) then [x] + s else [s[0]] + Place(x, s[1..])
  }

  /** sort.Strings */
  function SortStrings(s: seq<string>): seq<string> {
    if s == [] then [] else Place(s[0], SortStrings(s[1..]))
  }

  lemma {:induction false} PlaceSorted(x: string, s: seq<string>)
    requires SortedStrictly(s) && x !in s
    ensures SortedStrictly(Place(x, s)) && Elements(Place(x, s)) == Elements(s) + {x}
    decreases |s|
  {
    if s != [] {
      if StrLe(x, s[0]) {
        forall j | 0 <= j < |s|
          ensures StrLe(x, s[j]) && x != s[j]
        {
          if j > 0 { StrTransitive(x, s[0], s[j]); }
        }
      } else {
        StrTotal(x, s[0]);
        assert SortedStrictly(s[1..]);
        PlaceSorted(x, s[1..]);
        var t := Place(x, s[1..]);
        TailElements(s);
        forall j | 0 <= j < |t|
          ensures StrLe(s[0], t[j]) && s[0] != t[j]
        {
          assert t[j] in Elements(t);
          if t[j] != x {
            assert t[j] in Elements(s[1..]);
            var i :| 0 <= i < |s[1..]| && s[1..][i] == t[j];
            assert s[i + 1] == t[j];
          }
        }
        assert Elements([s[0]] + t) == {s[0]} + Elements(t);
      }
    }
  }

  ghost predicate NoDuplicates(s: seq<string>) {
    forall i, j | 0 <= i < j < |s| :: s[i] != s[j]
  }

  lemma {:induction false} SortStringsSorts(s: seq<string>)
    requires NoDuplicates(s)
    ensures SortedStrictly(SortStrings(s)) && Elements(SortStrings(s)) == Elements(s)
    decreases |s|
  {
    if s != [] {
      SortStringsSorts(s[1..]);
      assert s[0] !in Elements(s[1..]);
      PlaceSorted(s[0], SortStrings(s[1..]));
      assert s == [s[0]] + s[1..];
    }
  }

  // ---------------------------------------------------------------- the header of a set of methods

  function Filter(order: seq<string>, ms: set<string>): seq<string> {
    if order == [] then []
    else (if order[0] in ms then [order[0]] else []) + Filter(order[1..], ms)
  }

  /** Some enumeration of a set. */
  ghost function Enumerate(ms: set<string>): (s: seq<string>)
    ensures NoDuplicates(s) && Elements(s) == ms
  {
    if ms == {} then []
    else
      var m :| m in ms;
      var rest := Enumerate(ms - {m});
      assert forall x <- rest :: x in Elements(rest);
      assert Elements([m] + rest) == {m} + Elements(rest);
      [m] + rest
  }

  /** Standard methods in their fixed order, then the others sorted. */
  ghost function AllowList(ms: set<string>): seq<string> {
    Filter(METHOD_ORDER, ms) + SortStrings(Enumerate(ms - Elements(METHOD_ORDER)))
  }

  function CommaJoin(list: seq<string>): string {
    if list == [] then ""
    else if |list| == 1 then list[0]
    else list[0] + ", " + CommaJoin(list[1..])
  }

  ghost function AllowHeader(ms: set<string>): string {
    CommaJoin(AllowList(ms))
  }

  /** HEAD is served through GET, and OPTIONS is always answered. */
  function Closure(found: set<string>): set<string> {
    found + (if GET in found then {HEAD} else {}) + {OPTIONS}
  }

  lemma {:induction false} CommaJoinSnoc(list: seq<string>, x: string)
    ensures CommaJoin(list + [x]) == if list == [] then x else CommaJoin(list) + (", " + x)
    decreases |list|
  {
    if |list| == 1 {
      assert list + [x] == [list[0], x] && [list[0], x][1..] == [x];
    } else if |list| > 1 {
      CommaJoinSnoc(list[1..], x);
      assert (list + [x])[1..] == list[1..] + [x];
      assert CommaJoin(list) == list[0] + ", " + CommaJoin(list[1..]);
    }
  }

  lemma {:induction false} FilterSnoc(order: seq<string>, m: string, ms: set<string>)
    ensures Filter(order + [m], ms) == Filter(order, ms) + if m in ms then [m] else []
    decreases |order|
  {
    if order != [] {
      FilterSnoc(order[1..], m, ms);
      assert (order + [m])[1..] == order[1..] + [m];
    }
  }

  lemma {:induction false} FilterIgnoresOthers(order: seq<string>, a: set<string>, b: set<string>)
    requires forall m <- order :: m in a <==> m in b
    ensures Filter(order, a) == Filter(order, b)
  {
    if order != [] {
      FilterIgnoresOthers(order[1..], a, b);
    }
  }

  /** The bit mask holds standard methods, the list the others, each once. */
  ghost predicate Collected(bits: set<string>, custom: seq<string>) {
    bits <= Elements(METHOD_ORDER) && NoDuplicates(custom) && Elements(custom) !! Elements(METHOD_ORDER)
  }

  /** Whatever the enumeration, sorting the custom methods gives the list of the set. */
  lemma ListOfParts(bits: set<string>, custom: seq<string>)
    requires Collected(bits, custom)
    ensures AllowList(bits + Elements(custom)) == Filter(METHOD_ORDER, bits) + SortStrings(custom)
  {
    var ms := bits + Elements(custom);
    assert ms - Elements(METHOD_ORDER) == Elements(custom);
    var e := Enumerate(ms - Elements(METHOD_ORDER));
    SortStringsSorts(e);
    SortStringsSorts(custom);
    SortedUnique(SortStrings(e), SortStrings(custom));
    assert forall m <- METHOD_ORDER :: m in Elements(METHOD_ORDER);
    FilterIgnoresOthers(METHOD_ORDER, ms, bits);
  }

  // ---------------------------------------------------------------- the loops of the source

  /** addAllowedMethod and appendCustomMethod; the bit mask is the set of methods whose bit is set. */
  method AddAllowedMethod(m: string, bits: set<string>, custom: seq<string>)
    returns (bits': set<string>, custom': seq<string>)
    requires Collected(bits, custom)
    ensures Collected(bits', custom')
    ensures bits' + Elements(custom') == bits + Elements(custom) + {m}
  {
    if m in METHOD_ORDER {
      return bits + {m}, custom;
    }
    for i := 0 to |custom|
      invariant m !in custom[..i]
    {
      if custom[i] == m {
        return bits, custom;
      }
    }
    assert custom[..|custom|] == custom;
    bits', custom' := bits, custom + [m];
    assert Elements(custom') == Elements(custom) + {m};
  }

  method BuildAllowHeader(bits: set<string>, custom: seq<string>) returns (header: string)
    requires Collected(bits, custom)
    ensures header == AllowHeader(bits + Elements(custom))
  {
    header := "";
    var first := true;
    ghost var written: seq<string> := [];
    for i := 0 to |METHOD_ORDER|
      invariant written == Filter(METHOD_ORDER[..i], bits)
      invariant header == CommaJoin(written) && (first <==> written == [])
    {
      FilterSnoc(METHOD_ORDER[..i], METHOD_ORDER[i], bits);
      assert METHOD_ORDER[..i] + [METHOD_ORDER[i]] == METHOD_ORDER[..i + 1];
      if METHOD_ORDER[i] in bits {
        CommaJoinSnoc(written, METHOD_ORDER[i]);
        header := if first then METHOD_ORDER[i] else header + (", " + METHOD_ORDER[i]);
        first := false;
        written := written + [METHOD_ORDER[i]];
      }
    }
    assert METHOD_ORDER[..|METHOD_ORDER|] == METHOD_ORDER;
    header := AppendCustom(header, first, custom, written);
    ListOfParts(bits, custom);
  }

  method AppendCustom(start: string, wasFirst: bool, custom: seq<string>, ghost before: seq<string>)
    returns (header: string)
    requires start == CommaJoin(before) && (wasFirst <==> before == [])
    ensures header == CommaJoin(before + SortStrings(custom))
  {
    header := start;
    var first := wasFirst;
    var sorted := SortStrings(custom);
    assert before + sorted[..0] == before;
    for i := 0 to |sorted|
      invariant header == CommaJoin(before + sorted[..i]) && (first <==> before + sorted[..i] == [])
    {
      CommaJoinSnoc(before + sorted[..i], sorted[i]);
      assert before + sorted[..i] + [sorted[i]] == before + sorted[..i + 1];
      header := if first then sorted[i] else header + (", " + sorted[i]);
      first := false;
    }
    assert sorted[..|sorted|] == sorted;
  }

  // ---------------------------------------------------------------- reading a header back

  /** Methods are tokens without spaces (isValidMethod). */
  predicate IsToken(m: string) {
    m != "" && ' ' !in m
  }

  lemma {:induction false} CommaJoinInjective(a: seq<string>, b: seq<string>)
    requires (forall m <- a :: IsToken(m)) && (forall m <- b :: IsToken(m)) && CommaJoin(a) == CommaJoin(b)
    ensures a == b
    decreases |a|
  {
    FirstToken(a);
    FirstToken(b);
    if |a| > 1 && |b| > 1 {
      var x, y := CommaJoin(a[1..]), CommaJoin(b[1..]);
      assert CommaJoin(a) == a[0] + ", " + x && CommaJoin(b) == b[0] + ", " + y;
      assert |a[0]| == |b[0]|;
      assert a[0] == CommaJoin(a)[..|a[0]|] == b[0];
      assert x == CommaJoin(a)[|a[0]| + 2..] == y;
      CommaJoinInjective(a[1..], b[1..]);
      assert a == [a[0]] + a[1..] && b == [b[0]] + b[1..];
    }
  }

  /** The first space of a header comes right after the comma that ends its first method. */
  lemma FirstToken(a: seq<string>)
    requires forall m <- a :: IsToken(m)
    ensures a == [] <==> CommaJoin(a) == ""
    ensures |a| == 1 ==> ' ' !in CommaJoin(a)
    ensures |a| > 1 ==> |CommaJoin(a)| > |a[0]| + 1 && CommaJoin(a)[|a[0]| + 1] == ' ' &&
                        forall i | 0 <= i <= |a[0]| :: CommaJoin(a)[i] != ' '
  {
    if |a| > 0 {
      assert a[0] in a;
      if |a| > 1 {
        var h := a[0] + ", " + CommaJoin(a[1..]);
        assert CommaJoin(a) == h && h[|a[0]|] == ',';
        assert forall i | 0 <= i < |a[0]| :: h[i] == a[0][i];
      }
    }
  }

  /** A header names exactly one set of methods. */
  lemma HeaderNamesOneSet(a: set<string>, b: set<string>)
    requires (forall m <- a :: IsToken(m)) && (forall m <- b :: IsToken(m)) && AllowHeader(a) == AllowHeader(b)
    ensures a == b
  {
    ListElements(a);
    ListElements(b);
    assert forall m <- AllowList(a) :: m in Elements(AllowList(a));
    assert forall m <- AllowList(b) :: m in Elements(AllowList(b));
    CommaJoinInjective(AllowList(a), AllowList(b));
  }

  lemma ListElements(ms: set<string>)
    ensures Elements(AllowList(ms)) == ms
  {
    var custom := Enumerate(ms - Elements(METHOD_ORDER));
    SortStringsSorts(custom);
    FilterElements(METHOD_ORDER, ms);
    var f, c := Filter(METHOD_ORDER, ms), SortStrings(custom);
    assert Elements(f + c) == Elements(f) + Elements(c);
  }

  lemma {:induction false} FilterElements(order: seq<string>, ms: set<string>)
    ensures Elements(Filter(order, ms)) == Elements(order) * ms
  {
    if order != [] {
      FilterElements(order[1..], ms);
      var head := if order[0] in ms then [order[0]] else [];
      assert Elements(head + Filter(order[1..], ms)) == Elements(head) + Elements(Filter(order[1..], ms));
      assert order == [order[0]] + order[1..];
      assert Elements(order) == {order[0]} + Elements(order[1..]);
    }
  }
}

/**
 The Allow header of the request specification: the order of its methods is total, so each set of
 methods has one header, and it is the one that the loops of the source render.
 */
module RequestAllow {
  import opened Allow
  import opened RequestSpec

  // ---------------------------------------------------------------- byte order

  lemma ByteOrderTail(a: string, b: string)
    requires a != "" && b != "" && a[0] == b[0]
    ensures ByteOrder(a, b) <==> ByteOrder(a[1..], b[1..])
  {
    if ByteOrder(a, b) {
      var k: nat :| k <= |a| && k <= |b| && a[..k] == b[..k] && k < |b| && (k == |a| || a[k] < b[k]);
      assert k > 0;
      assert a[1..][..k - 1] == a[..k][1..] && b[1..][..k - 1] == b[..k][1..];
      OrderAt(a[1..], b[1..], k - 1);
    }
    if ByteOrder(a[1..], b[1..]) {
      var k: nat :| && k <= |a| - 1 && k <= |b| - 1 && a[1..][..k] == b[1..][..k] && k < |b| - 1
                    && (k == |a| - 1 || a[1..][k] < b[1..][k]);
      assert a[..k + 1] == [a[0]] + a[1..][..k] && b[..k + 1] == [b[0]] + b[1..][..k];
      OrderAt(a, b, k + 1);
    }
  }

  lemma OrderAt(a: string, b: string, k: nat)
    requires k <= |a| && k < |b| && a[..k] == b[..k] && (k == |a| || a[k] < b[k])
    ensures ByteOrder(a, b)
  {
  }

  lemma ByteOrderHead(a: string, b: string)
    requires a == "" || b == "" || a[0] != b[0]
    ensures ByteOrder(a, b) <==> b != "" && (a == "" || a[0] < b[0])
  {
    if b != "" && (a == "" || a[0] < b[0]) {
      assert a[..0] == b[..0];
      OrderAt(a, b, 0);
    }
    if ByteOrder(a, b) {
      OrderOfHeads(a, b);
    }
  }

  lemma OrderOfHeads(a: string, b: string)
    requires ByteOrder(a, b)
    ensures b != "" && (a == "" || a[0] <= b[0])
  {
    var k: nat :| k <= |a| && k <= |b| && a[..k] == b[..k] && k < |b| && (k == |a| || a[k] < b[k]);
    if k > 0 {
      assert a[..k][0] == b[..k][0];
    }
  }

  /** The comparison that sorts is the byte order. */
  lemma {:induction false} ByteOrderExactly(a: string, b: string)
    ensures ByteOrder(a, b) <==> StrLe(a, b) && a != b
    decreases |a|
  {
    if a == "" || b == "" || a[0] != b[0] {
      ByteOrderHead(a, b);
    } else {
      ByteOrderTail(a, b);
      ByteOrderExactly(a[1..], b[1..]);
      assert a == [a[0]] + a[1..] && b == [b[0]] + b[1..];
    }
  }

  // ---------------------------------------------------------------- the order of the header

  lemma StandardOrder()
    ensures STANDARD == METHOD_ORDER
    ensures forall i, j | 0 <= i < j < |STANDARD| :: STANDARD[i] != STANDARD[j]
  {
    assert |STANDARD[0]| == 3 && |STANDARD[1]| == 4 && |STANDARD[2]| == 4 && |STANDARD[3]| == 3;
    assert |STANDARD[4]| == 5 && |STANDARD[5]| == 6 && |STANDARD[6]| == 7;
    assert STANDARD[0][0] == 'G' && STANDARD[3][0] == 'P' && STANDARD[1][0] == 'H' && STANDARD[2][0] == 'P';
  }

  lemma StandardIndex(i: nat, j: nat)
    requires i < |STANDARD| && j < |STANDARD| && STANDARD[i] == STANDARD[j]
    ensures i == j
  {
    StandardOrder();
  }

  lemma PrecedesOneWay(a: string, b: string)
    requires Precedes(a, b)
    ensures !Precedes(b, a)
  {
    if a in STANDARD && b in STANDARD {
      var i, j :| 0 <= i < j < |STANDARD| && STANDARD[i] == a && STANDARD[j] == b;
      if Precedes(b, a) {
        var k, l :| 0 <= k < l < |STANDARD| && STANDARD[k] == b && STANDARD[l] == a;
        StandardIndex(i, l);
        StandardIndex(j, k);
      }
    } else if a !in STANDARD {
      ByteOrderExactly(a, b);
      ByteOrderExactly(b, a);
      StrTotal(a, b);
    }
  }

  lemma OrderedTail(a: seq<string>)
    requires InOrder(a) && a != []
    ensures InOrder(a[1..]) && forall m :: m in a[1..] <==> m in a && m != a[0]
  {
    assert forall i | 0 <= i < |a| - 1 :: a[1..][i] == a[i + 1];
    forall m | m in a[1..]
      ensures m in a && m != a[0]
    {
      var i :| 0 <= i < |a| - 1 && a[1..][i] == m;
      assert Precedes(a[0], a[i + 1]);
      PrecedesOneWay(a[0], a[i + 1]);
    }
    forall m | m in a && m != a[0]
      ensures m in a[1..]
    {
      var i :| 0 <= i < |a| && a[i] == m;
      assert a[1..][i - 1] == m;
    }
  }

  /** There is one list of a set of methods in this order. */
  lemma {:induction false} OrderedUnique(a: seq<string>, b: seq<string>)
    requires InOrder(a) && InOrder(b) && forall m :: m in a <==> m in b
    ensures a == b
    decreases |a|
  {
    if a == [] {
      assert forall i | 0 <= i < |b| :: b[i] in b;
    } else {
      SameFirst(a, b);
      OrderedTail(a);
      OrderedTail(b);
      OrderedUnique(a[1..], b[1..]);
      assert a == [a[0]] + a[1..] && b == [b[0]] + b[1..];
    }
  }

  lemma SameFirst(a: seq<string>, b: seq<string>)
    requires InOrder(a) && InOrder(b) && a != [] && forall m :: m in a <==> m in b
    ensures b != [] && a[0] == b[0]
  {
    assert a[0] in b && b[0] in a;
    var j :| 0 <= j < |b| && b[j] == a[0];
    var i :| 0 <= i < |a| && a[i] == b[0];
    if i > 0 && j > 0 {
      PrecedesOneWay(b[0], b[j]);
    }
  }

  // ---------------------------------------------------------------- the list of the source

  lemma {:induction false} FilterOrigin(n: nat, ms: set<string>, k: nat) returns (i: nat)
    requires n <= |STANDARD| && k < |Filter(STANDARD[n..], ms)|
    ensures n <= i < |STANDARD| && STANDARD[i] == Filter(STANDARD[n..], ms)[k]
    decreases |STANDARD| - n
  {
    var order := STANDARD[n..];
    assert order != [] && order[0] == STANDARD[n] && order[1..] == STANDARD[n + 1..];
    var head := if order[0] in ms then [order[0]] else [];
    if k < |head| {
      i := n;
    } else {
      i := FilterOrigin(n + 1, ms, k - |head|);
    }
  }

  lemma {:induction false} FilterInOrder(n: nat, ms: set<string>)
    requires n <= |STANDARD|
    ensures InOrder(Filter(STANDARD[n..], ms))
    decreases |STANDARD| - n
  {
    var order := STANDARD[n..];
    if n < |STANDARD| {
      assert order[0] == STANDARD[n] && order[1..] == STANDARD[n + 1..];
      FilterInOrder(n + 1, ms);
      var rest := Filter(order[1..], ms);
      forall k | 0 <= k < |rest|
        ensures Precedes(order[0], rest[k])
      {
        var i := FilterOrigin(n + 1, ms, k);
        assert STANDARD[n] == order[0] && STANDARD[i] == rest[k];
      }
    }
  }

  lemma CustomInOrder(custom: seq<string>)
    requires SortedStrictly(custom) && forall m <- custom :: m !in STANDARD
    ensures InOrder(custom)
  {
    forall i, j | 0 <= i < j < |custom|
      ensures Precedes(custom[i], custom[j])
    {
      ByteOrderExactly(custom[i], custom[j]);
    }
  }

  lemma ConcatInOrder(a: seq<string>, b: seq<string>)
    requires InOrder(a) && InOrder(b) && (forall m <- a :: m in STANDARD) && (forall m <- b :: m !in STANDARD)
    ensures InOrder(a + b)
  {
    var c := a + b;
    forall i, j | 0 <= i < j < |c|
      ensures Precedes(c[i], c[j])
    {
      if j < |a| {
        assert c[i] == a[i] && c[j] == a[j];
      } else if i >= |a| {
        assert c[i] == b[i - |a|] && c[j] == b[j - |a|];
      } else {
        assert c[i] == a[i] && a[i] in a && c[j] == b[j - |a|] && b[j - |a|] in b;
      }
    }
  }

  lemma ListInOrder(ms: set<string>)
    ensures InOrder(AllowList(ms)) && forall m :: m in AllowList(ms) <==> m in ms
  {
    StandardOrder();
    var custom := Enumerate(ms - Elements(METHOD_ORDER));
    SortStringsSorts(custom);
    FilterInOrder(0, ms);
    FilterElements(METHOD_ORDER, ms);
    ListElements(ms);
    var a, b := Filter(METHOD_ORDER, ms), SortStrings(custom);
    assert STANDARD[0..] == METHOD_ORDER;
    forall m <- a
      ensures m in STANDARD
    {
      assert m in Elements(a);
    }
    forall m <- b
      ensures m !in STANDARD
    {
      assert m in Elements(b) && m in Elements(custom);
    }
    CustomInOrder(b);
    ConcatInOrder(a, b);
    assert forall m :: m in AllowList(ms) <==> m in Elements(AllowList(ms));
  }

  /** A header lists a set of methods in order exactly when it is the one the source renders. */
  lemma HeaderExactly(ms: set<string>, header: string)
    ensures (exists list :: InOrder(list) && header == CommaJoin(list) && forall m :: m in list <==> m in ms) <==>
            header == AllowHeader(ms)
  {
    ListInOrder(ms);
    if list :| InOrder(list) && header == CommaJoin(list) && forall m :: m in list <==> m in ms {
      OrderedUnique(list, AllowList(ms));
    }
  }

  lemma GetInOrder()
    ensures InOrder(["GET", "HEAD", "OPTIONS"])
  {
    assert STANDARD[0] == "GET" && STANDARD[1] == "HEAD" && STANDARD[6] == "OPTIONS";
  }

  lemma GetJoined()
    ensures CommaJoin(["GET", "HEAD", "OPTIONS"]) == "GET, HEAD, OPTIONS"
  {
    var rest := ["HEAD", "OPTIONS"];
    assert rest[1..] == ["OPTIONS"];
    assert CommaJoin(rest) == "HEAD, OPTIONS";
    assert (["GET"] + rest)[1..] == rest;
  }

  /** What a router with a route for GET alone allows, written out. */
  lemma GetHeader(ms: set<string>)
    requires forall m :: m in ms <==> m in ["GET", "HEAD", "OPTIONS"]
    ensures AllowHeader(ms) == "GET, HEAD, OPTIONS"
  {
    GetInOrder();
    GetJoined();
    HeaderExactly(ms, "GET, HEAD, OPTIONS");
  }
}

/**
 How long a pattern must be to match a path with literal segments on both sides of a given gap, and a
 route whose pattern is exactly that long.
 */
module GapCosts {
  import opened Segments
  import opened Paths
  import opened Trie
  import opened Routes
  import opened Search
  import opened Frozen

  /** Canonical pattern segments that pass validation. */
  ghost predicate ValidPattern(p: seq<string>) {
    ValidParts(p) && DotFree(p)
  }

  // ---------------------------------------------------------------- the cheapest pattern through a gap

  /** The bytes of the cheapest segment that matches: a literal of one byte, or a parameter of two. */
  function Cost(part: string): nat {
    if IsLiteral(part) && |part| == 1 then 1 else 2
  }

  function FrontCost(parts: seq<string>, k: nat): nat
    requires k <= |parts|
  {
    if k == 0 then 0 else FrontCost(parts, k - 1) + 1 + Cost(parts[k - 1])
  }

  /** For what follows the gap: nothing, one segment, or a wildcard with a name of one letter. */
  function TailCost(parts: seq<string>, k: nat): nat
    requires k + 1 < |parts|
  {
    if k + 2 == |parts| then 0 else if k + 3 == |parts| then 1 + Cost(parts[k + 2]) else 3
  }

  /**
   The length of the shortest pattern that has the segments `k` and `k + 1` of the path as literals and
   matches it.
   */
  function Shortest(parts: seq<string>, k: nat): nat
    requires k + 1 < |parts|
  {
    FrontCost(parts, k) + 1 + |parts[k]| + 1 + |parts[k + 1]| + TailCost(parts, k)
  }

  /** A pattern matches segment by segment up to its wildcard. */
  lemma {:induction false} MatchesFits(p: seq<string>, parts: seq<string>, j: nat)
    requires Matches(p, parts) && j <= |p| && forall i | 0 <= i < j :: !IsWild(p[i])
    ensures Fits(p[..j], parts) && Matches(p[j..], parts[j..])
    decreases j
  {
    if j == 0 {
      assert p[0..] == p && parts[0..] == parts;
    } else {
      MatchesFits(p[1..], parts[1..], j - 1);
      assert p[1..][j - 1..] == p[j..] && parts[1..][j - 1..] == parts[j..];
      assert p[..j] == [p[0]] + p[1..][..j - 1];
    }
  }

  lemma PartCost(part: string, seg: string)
    requires ValidPart(part) && part != "." && part != ".." && !IsWild(part) && (IsParam(part) || part == seg)
    requires seg != ""
    ensures |part| >= Cost(seg)
  {
  }

  lemma {:induction false} FrontNeeds(p: seq<string>, parts: seq<string>, k: nat)
    requires ValidPattern(p) && k <= |p| && Fits(p[..k], parts) && forall i | 0 <= i < |parts| :: parts[i] != ""
    ensures k <= |parts| && Length(p[..k]) >= FrontCost(parts, k)
    decreases k
  {
    if k > 0 {
      assert p[..k][..k - 1] == p[..k - 1] && p[..k][k - 1] == p[k - 1];
      assert forall i | 0 <= i < k - 1 :: p[..k - 1][i] == p[..k][i];
      FrontNeeds(p, parts, k - 1);
      PartCost(p[k - 1], parts[k - 1]);
    }
  }

  /** What is left of a pattern after the gap. */
  lemma TailNeeds(p: seq<string>, parts: seq<string>, k: nat)
    requires ValidPattern(p) && k + 2 <= |p| && k + 1 < |parts| && Matches(p[k + 2..], parts[k + 2..])
    requires forall i | 0 <= i < |parts| :: parts[i] != ""
    ensures Length(p[k + 2..]) >= TailCost(parts, k)
  {
    var t, rest := p[k + 2..], parts[k + 2..];
    if rest != [] {
      assert t != [] && t[0] == p[k + 2] && rest[0] == parts[k + 2];
      LengthOne(t[0]);
      LengthConcat([t[0]], t[1..]);
      assert t == [t[0]] + t[1..];
      if !IsWild(t[0]) {
        PartCost(t[0], rest[0]);
        if |rest| > 1 {
          assert Matches(t[1..], rest[1..]) && rest[1..] != [];
          assert t[1..] != [] && t[1..][0] == p[k + 3];
          LengthConcat([t[1]], t[1..][1..]);
          LengthOne(t[1]);
          assert t[1..] == [t[1]] + t[1..][1..];
        }
      }
    }
  }

  /** A pattern is as long as its front, the two segments, and its tail. */
  lemma LengthAround(p: seq<string>, k: nat)
    requires k + 1 < |p|
    ensures Length(p) == Length(p[..k]) + 1 + |p[k]| + 1 + |p[k + 1]| + Length(p[k + 2..])
  {
    var a, b := p[k], p[k + 1];
    LengthOne(a);
    LengthOne(b);
    LengthConcat([a], [b]);
    LengthConcat(p[..k], [a] + [b]);
    LengthConcat(p[..k] + ([a] + [b]), p[k + 2..]);
    assert p == p[..k] + ([a] + [b]) + p[k + 2..];
  }

  /** Every pattern that matches with literals at `k` and `k + 1` is that long. */
  lemma NeedsShortest(p: seq<string>, parts: seq<string>, k: nat)
    requires ValidPattern(p) && Matches(p, parts) && k + 1 < |p| && !IsDynamic(p[k]) && !IsDynamic(p[k + 1])
    requires forall i | 0 <= i < |parts| :: parts[i] != ""
    ensures k + 1 < |parts| && p[k] == parts[k] && p[k + 1] == parts[k + 1]
    ensures Length(p) >= Shortest(parts, k)
  {
    MatchesFits(p, parts, k + 2);
    assert p[..k + 2][k] == p[k] && p[..k + 2][k + 1] == p[k + 1];
    assert forall i | 0 <= i < k :: p[..k][i] == p[..k + 2][i];
    FrontNeeds(p, parts, k);
    TailNeeds(p, parts, k);
    LengthAround(p, k);
  }

  // ---------------------------------------------------------------- a route of that length

  /** Distinct one-letter names. */
  function Letter(i: nat): (c: char)
    requires i < MAX_DEPTH
    ensures c as int == 'A' as int + i && c != '/' && !IsControl(c) && c != 'w'
  {
    ('A' as int + i) as char
  }

  /** The cheapest pattern segment for segment `i` of a path. */
  function Cheapest(part: string, i: nat): (r: string)
    requires i < MAX_DEPTH
    ensures |r| == Cost(part)
  {
    if IsLiteral(part) && |part| == 1 then part else [':', Letter(i)]
  }

  function CheapFront(parts: seq<string>, k: nat): (r: seq<string>)
    requires k <= |parts| <= MAX_DEPTH
    ensures |r| == k && forall i | 0 <= i < k :: r[i] == Cheapest(parts[i], i)
  {
    seq(k, i requires 0 <= i < k => Cheapest(parts[i], i))
  }

  function CheapTail(parts: seq<string>, k: nat): seq<string>
    requires k + 1 < |parts| <= MAX_DEPTH
  {
    if k + 2 == |parts| then []
    else if k + 3 == |parts| then [Cheapest(parts[k + 2], k + 2)]
    else ["*w"]
  }

  function WitnessParts(parts: seq<string>, k: nat): seq<string>
    requires k + 1 < |parts| <= MAX_DEPTH
  {
    CheapFront(parts, k) + [parts[k], parts[k + 1]] + CheapTail(parts, k)
  }

  function Witness(parts: seq<string>, k: nat): Route
    requires k + 1 < |parts| <= MAX_DEPTH
  {
    Route(WitnessParts(parts, k), Built(WitnessParts(parts, k), false), Handler(0))
  }

  /** Segments of a path without control bytes, the ones at `k` and `k + 1` literal. */
  ghost predicate LiteralPair(parts: seq<string>, k: nat) {
    && k + 1 < |parts| <= MAX_DEPTH && IsLiteral(parts[k]) && IsLiteral(parts[k + 1])
    && forall i | 0 <= i < |parts| :: Sanitary(parts[i])
  }

  lemma {:induction false} FrontLength(parts: seq<string>, k: nat)
    requires k <= |parts| <= MAX_DEPTH
    ensures Length(CheapFront(parts, k)) == FrontCost(parts, k)
  {
    if k > 0 {
      FrontLength(parts, k - 1);
      assert CheapFront(parts, k)[..k - 1] == CheapFront(parts, k - 1);
    }
  }

  lemma WitnessLength(parts: seq<string>, k: nat)
    requires k + 1 < |parts| <= MAX_DEPTH
    ensures |Witness(parts, k).pattern| == Shortest(parts, k)
  {
    var front, tail := CheapFront(parts, k), CheapTail(parts, k);
    var a, b := parts[k], parts[k + 1];
    FrontLength(parts, k);
    LengthOne(a);
    LengthOne(b);
    LengthConcat([a], [b]);
    assert [a] + [b] == [a, b];
    if tail != [] {
      LengthOne(tail[0]);
      assert tail == [tail[0]];
    }
    LengthConcat(front, [a, b]);
    LengthConcat(front + [a, b], tail);
    LengthIsBuilt(WitnessParts(parts, k));
  }

  /** The segments of the witness, each with its place in the path. */
  lemma WitnessPart(parts: seq<string>, k: nat, i: nat)
    requires LiteralPair(parts, k) && i < |WitnessParts(parts, k)|
    ensures i < |parts|
    ensures var part := WitnessParts(parts, k)[i];
            || (part == "*w" && i == |WitnessParts(parts, k)| - 1)
            || part == [':', Letter(i)]
            || (part == parts[i] && IsLiteral(part))
  {
    var front, p := CheapFront(parts, k), WitnessParts(parts, k);
    if i < k {
      assert p[i] == front[i];
    } else if i < k + 2 {
      assert p[i] == [parts[k], parts[k + 1]][i - k];
    } else {
      assert p[i] == CheapTail(parts, k)[i - k - 2];
    }
  }

  lemma WitnessValid(parts: seq<string>, k: nat)
    requires LiteralPair(parts, k)
    ensures ValidRoute(Witness(parts, k)) && ValidPattern(WitnessParts(parts, k))
    ensures Straddled(WitnessParts(parts, k), parts, k)
  {
    var p := WitnessParts(parts, k);
    forall i | 0 <= i < |p|
      ensures ValidPart(p[i]) && (IsWild(p[i]) ==> i == |p| - 1) && p[i] != "." && p[i] != ".."
    {
      WitnessPart(parts, k, i);
    }
    forall i, j | 0 <= i < j < |p| && IsDynamic(p[i]) && IsDynamic(p[j])
      ensures p[i][1..] != p[j][1..]
    {
      WitnessPart(parts, k, i);
      WitnessPart(parts, k, j);
      assert p[i][1..] == [Letter(i)] && (p[j][1..] == [Letter(j)] || p[j][1..] == "w");
      assert p[i][1..][0] != p[j][1..][0];
    }
  }

  /** Literal at both places. */
  predicate Straddled(p: seq<string>, parts: seq<string>, k: nat) {
    && k + 1 < |p| && k + 1 < |parts| && p[k] == parts[k] && p[k + 1] == parts[k + 1]
    && !IsDynamic(p[k]) && !IsDynamic(p[k + 1])
  }

  lemma WitnessMatches(parts: seq<string>, k: nat)
    requires LiteralPair(parts, k)
    ensures Matches(WitnessParts(parts, k), parts)
  {
    var tail, p := CheapTail(parts, k), WitnessParts(parts, k);
    var front := CheapFront(parts, k) + [parts[k], parts[k + 1]];
    forall i | 0 <= i < |front|
      ensures !IsWild(front[i]) && (IsParam(front[i]) || front[i] == parts[i])
    {
      WitnessPart(parts, k, i);
      assert front[i] == p[i];
      assert i < k ==> front[i] == Cheapest(parts[i], i);
    }
    FrontMatches(front, tail, parts);
    var rest := parts[k + 2..];
    if |rest| == 1 {
      assert rest[0] == parts[k + 2] && tail[1..] == [] && rest[1..] == [];
    }
  }
}

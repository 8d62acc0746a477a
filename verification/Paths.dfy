/**
 Facts about whole paths: comparing a span of segments as one substring, the canonical form kept by
 `cleanPath`, the trailing-slash toggle of `alternatePath`, and ASCII case folding.
 */
module Paths {
  import opened Base
  import opened Segments

  const MAX_PATH_LENGTH: nat := 4096

  ghost predicate Segmented(segs: PathSegments) {
    IsSegmentation(segs.matched, segs.parts, segs.indices) && |segs.path| == |segs.matched|
  }

  // ---------------------------------------------------------------- spans

  /** End position of segment `k`. */
  function EndAt(segs: PathSegments, k: nat): nat
    requires |segs.indices| == |segs.parts| + 1 && k < |segs.parts|
  {
    segs.indices[k] + |segs.parts[k]|
  }

  /** The text of `n` consecutive segments, with whatever separates them. */
  function SpanText(segs: PathSegments, h: nat, n: nat): string
    requires Segmented(segs) && 0 < n && h + n <= |segs.parts|
  {
    SpanBounds(segs, h, n);
    segs.matched[segs.indices[h]..EndAt(segs, h + n - 1)]
  }

  lemma SpanBounds(segs: PathSegments, h: nat, n: nat)
    requires Segmented(segs) && 0 < n && h + n <= |segs.parts|
    ensures segs.indices[h] < EndAt(segs, h + n - 1) <= |segs.matched|
    ensures n > 1 ==> EndAt(segs, h) < segs.indices[h + 1] < EndAt(segs, h + n - 1)
  {
    assert SegmentAt(segs.matched, segs.parts[h], segs.indices[h]);
    assert SegmentAt(segs.matched, segs.parts[h + n - 1], segs.indices[h + n - 1]);
    if n > 1 {
      RunsApart(segs.matched, segs.parts[h], segs.indices[h], segs.parts[h + 1], segs.indices[h + 1]);
    }
  }

  /** Only slashes lie between two consecutive segments. */
  lemma GapIsSlashes(segs: PathSegments, h: nat, x: nat)
    requires Segmented(segs) && h + 1 < |segs.parts| && EndAt(segs, h) <= x < segs.indices[h + 1]
    ensures x < |segs.matched| && segs.matched[x] == '/'
  {
    SpanBounds(segs, h, 2);
    forall k | 0 <= k < |segs.parts|
      ensures x < segs.indices[k] || segs.indices[k] + |segs.parts[k]| <= x
    {
      if k < h {
        RunsApart(segs.matched, segs.parts[k], segs.indices[k], segs.parts[h], segs.indices[h]);
      }
    }
    assert !Covered(segs.parts, segs.indices, x);
  }

  ghost predicate SpanMatches(segs: PathSegments, h: nat, chain: seq<string>)
    requires Segmented(segs) && h + |chain| <= |segs.parts|
  {
    segs.parts[h..h + |chain|] == chain && forall k | h <= k < h + |chain| - 1 :: GapAt(segs, k)
  }

  /** Two slash-free words followed by a slash (or nothing) are equal when the texts are. */
  lemma FirstWord(p: string, x: string, q: string, y: string)
    requires SlashFree(p) && SlashFree(q) && p + x == q + y
    requires (x == "" || x[0] == '/') && (y == "" || y[0] == '/')
    ensures p == q && x == y
  {
    assert forall i | 0 <= i < |p| :: (p + x)[i] == p[i];
    assert forall i | 0 <= i < |q| :: (q + y)[i] == q[i];
    assert x != "" ==> (p + x)[|p|] == '/';
    assert y != "" ==> (q + y)[|q|] == '/';
    assert |p| == |q|;
    assert p == (p + x)[..|p|] == q;
    assert x == (p + x)[|p|..] == y;
  }

  lemma SpanWords(p: string, gap: string, rest: string, q: string, tail: string)
    requires SlashFree(p) && SlashFree(q)
    requires gap != "" && forall i | 0 <= i < |gap| :: gap[i] == '/'
    requires tail != "" && tail[0] != '/'
    ensures p + (gap + rest) == q + ("/" + tail) <==> p == q && gap == "/" && rest == tail
  {
    assert |gap| > 1 ==> (gap + rest)[1] == gap[1];
    if p + (gap + rest) == q + ("/" + tail) {
      assert (gap + rest)[0] == gap[0];
      FirstWord(p, gap + rest, q, "/" + tail);
      assert ("/" + tail)[1] == tail[0];
      assert |gap| == 1;
      assert gap == (gap + rest)[..1] == "/" && rest == (gap + rest)[1..] == tail;
    }
  }

  lemma SpanUnfolded(segs: PathSegments, h: nat, n: nat) returns (gap: string)
    requires Segmented(segs) && n > 1 && h + n <= |segs.parts|
    ensures SpanText(segs, h, n) == segs.parts[h] + (gap + SpanText(segs, h + 1, n - 1))
    ensures gap != "" && forall i | 0 <= i < |gap| :: gap[i] == '/'
    ensures gap == "/" <==> GapAt(segs, h)
  {
    SpanBounds(segs, h, n);
    var from, to := EndAt(segs, h), segs.indices[h + 1];
    gap := segs.matched[from..to];
    forall i | 0 <= i < |gap|
      ensures gap[i] == '/'
    {
      GapIsSlashes(segs, h, from + i);
    }
    if |gap| == 1 {
      assert gap == "/";
    }
    SpanCut(segs, h, n, from, to);
  }

  lemma SpanCut(segs: PathSegments, h: nat, n: nat, from: nat, to: nat)
    requires Segmented(segs) && n > 1 && h + n <= |segs.parts|
    requires from == EndAt(segs, h) < to == segs.indices[h + 1] <= |segs.matched|
    ensures SpanText(segs, h, n) == segs.parts[h] + (segs.matched[from..to] + SpanText(segs, h + 1, n - 1))
  {
    SpanBounds(segs, h, n);
    SpanBounds(segs, h + 1, n - 1);
    assert SegmentAt(segs.matched, segs.parts[h], segs.indices[h]);
    var m, start, end := segs.matched, segs.indices[h], EndAt(segs, h + n - 1);
    CutTwice(m, start, from, to, end);
  }

  lemma CutTwice<T>(s: seq<T>, a: nat, b: nat, c: nat, d: nat)
    requires a <= b <= c <= d <= |s|
    ensures s[a..d] == s[a..b] + (s[b..c] + s[c..d])
  {
  }

  /**
   Comparing a span as one substring succeeds exactly when the segments are equal one by one and
   exactly one slash separates each from the next.
   */
  lemma {:induction false} SpanComparison(segs: PathSegments, h: nat, chain: seq<string>)
    requires Segmented(segs) && chain != [] && h + |chain| <= |segs.parts| && AllSlashFree(chain)
    ensures SpanText(segs, h, |chain|) == Join(chain) <==> SpanMatches(segs, h, chain)
    decreases |chain|
  {
    var n, p := |chain|, segs.parts[h];
    assert SegmentAt(segs.matched, p, segs.indices[h]);
    assert chain[0] in chain;
    if n == 1 {
      assert segs.parts[h..h + 1] == [p] && chain == [chain[0]];
    } else {
      var gap := SpanUnfolded(segs, h, n);
      JoinTail(chain, "");
      JoinStart(chain[1..]);
      SpanWords(p, gap, SpanText(segs, h + 1, n - 1), chain[0], Join(chain[1..]));
      SpanComparison(segs, h + 1, chain[1..]);
      SpanHead(segs, h, chain);
      assert Join(chain) == Join(chain) + "" && Join(chain[1..]) == Join(chain[1..]) + "";
    }
  }

  lemma JoinStart(parts: seq<string>)
    requires parts != [] && AllSlashFree(parts)
    ensures Join(parts) != "" && Join(parts)[0] != '/'
  {
    assert parts[0] in parts;
  }

  lemma SpanHead(segs: PathSegments, h: nat, chain: seq<string>)
    requires Segmented(segs) && |chain| > 1 && h + |chain| <= |segs.parts|
    ensures SpanMatches(segs, h, chain) <==>
            segs.parts[h] == chain[0] && GapAt(segs, h) && SpanMatches(segs, h + 1, chain[1..])
  {
    assert segs.parts[h..h + |chain|] == [segs.parts[h]] + segs.parts[h + 1..h + |chain|];
    assert chain == [chain[0]] + chain[1..];
  }

  // ---------------------------------------------------------------- gaps

  /** Exactly one slash between all consecutive segments. */
  ghost predicate SingleGaps(segs: PathSegments)
    requires |segs.indices| == |segs.parts| + 1
  {
    forall k | 0 <= k < |segs.parts| - 1 :: GapAt(segs, k)
  }

  predicate IsDynamic(part: string) {
    part != "" && (part[0] == ':' || part[0] == '*')
  }

  /** A segment that a literal segment of a canonical pattern can equal. */
  predicate IsLiteral(part: string) {
    !IsDynamic(part) && part != "." && part != ".."
  }

  /** Exactly one slash wherever two segments that literal segments of a pattern can equal are adjacent. */
  ghost predicate SingleStaticGaps(segs: PathSegments)
    requires |segs.indices| == |segs.parts| + 1
  {
    forall k | 0 <= k < |segs.parts| - 1 ::
      IsLiteral(segs.parts[k]) && IsLiteral(segs.parts[k + 1]) ==> GapAt(segs, k)
  }

  lemma SegmentedPath(matched: string, raw: string)
    requires |raw| == |matched|
    ensures Segmented(Segment(matched, raw))
  {
    SegmentIsExact(matched, raw);
  }

  // ---------------------------------------------------------------- cleanPath

  /** path.Clean on the segments of a rooted path: drop ".", and let ".." cancel what precedes it. */
  function Resolve(parts: seq<string>, kept: seq<string>): seq<string> {
    if parts == [] then kept
    else if parts[0] == "." then Resolve(parts[1..], kept)
    else if parts[0] == ".." then Resolve(parts[1..], if kept == [] then [] else kept[..|kept| - 1])
    else Resolve(parts[1..], kept + [parts[0]])
  }

  /** path.Clean, for rooted paths. */
  function Clean(p: string): string {
    "/" + Join(Resolve(Parts(p, 0), []))
  }

  function Rooted(p: string): (q: string)
    requires p != ""
    ensures q != "" && q[0] == '/' && q[|q| - 1] == p[|p| - 1]
  {
    if p[0] != '/' then "/" + p else p
  }

  function CleanPath(p: string): string {
    if p == "" then "/"
    else
      var q := Rooted(p);
      var cp := Clean(q);
      if |cp| > 1 && q[|q| - 1] == '/' && cp[|cp| - 1] != '/' then cp + "/" else cp
  }

  lemma {:induction false} ResolvedSlashFree(parts: seq<string>, kept: seq<string>)
    requires AllSlashFree(parts) && AllSlashFree(kept)
    ensures AllSlashFree(Resolve(parts, kept))
    decreases |parts|
  {
    if parts != [] {
      assert parts[0] in parts;
      assert AllSlashFree(parts[1..]);
      if parts[0] == "." {
        ResolvedSlashFree(parts[1..], kept);
      } else if parts[0] == ".." {
        ResolvedSlashFree(parts[1..], if kept == [] then [] else kept[..|kept| - 1]);
      } else {
        ResolvedSlashFree(parts[1..], kept + [parts[0]]);
      }
    }
  }

  lemma PartsSlashFree(s: string)
    ensures AllSlashFree(Parts(s, 0))
  {
    SuffixRuns(s, 0);
  }

  /** A rooted path built from parts, with or without a trailing slash. */
  function Built(parts: seq<string>, trailing: bool): string {
    "/" + Join(parts) + if trailing then "/" else ""
  }

  /** Building and splitting are inverse, and the built path has single gaps. */
  lemma BuiltParts(parts: seq<string>, trailing: bool)
    requires AllSlashFree(parts)
    ensures var segs := Segment(Built(parts, trailing), Built(parts, trailing));
            Parts(Built(parts, trailing), 0) == parts && Segmented(segs) && SingleGaps(segs)
  {
    var s := Built(parts, trailing);
    var suffix := if trailing then "/" else "";
    assert s[1..] == Join(parts) + suffix;
    JoinedRuns(s, 1, parts, suffix);
    assert Parts(s, 0) == Parts(s, 1) && Starts(s, 0) == Starts(s, 1);
    SegmentedPath(s, s);
  }

  /** A path that cleanPath keeps is built from its own parts. */
  lemma CleanIsBuilt(p: string)
    requires CleanPath(p) == p
    ensures p == Built(Parts(p, 0), |p| > 1 && p[|p| - 1] == '/')
  {
    PartsSlashFree(p);
    var rs := Resolve(Parts(p, 0), []);
    ResolvedSlashFree(Parts(p, 0), []);
    assert p != "" && p[0] == '/';
    var trailing := p != Clean(p);
    assert p == Built(rs, trailing);
    BuiltParts(rs, trailing);
    BuiltEnd(rs);
  }

  lemma BuiltEnd(parts: seq<string>)
    requires AllSlashFree(parts)
    ensures parts != [] ==> |Built(parts, false)| > 1 && Built(parts, false)[|Built(parts, false)| - 1] != '/'
  {
    if |parts| == 1 {
      assert parts[0] in parts;
    } else if |parts| > 1 {
      assert AllSlashFree(parts[1..]);
      BuiltEnd(parts[1..]);
      var s, t := Join(parts), Join(parts[1..]);
      assert Built(parts[1..], false) == "/" + t && Built(parts, false) == "/" + s;
      assert t != "" && t[|t| - 1] != '/';
      assert s == (parts[0] + "/") + t;
    }
  }

  /** Requests that cleanPath lets through have exactly one slash between all segments. */
  lemma CleanHasSingleGaps(p: string)
    requires CleanPath(p) == p
    ensures Segmented(Segment(p, p)) && SingleGaps(Segment(p, p))
  {
    CleanIsBuilt(p);
    PartsSlashFree(p);
    BuiltParts(Parts(p, 0), |p| > 1 && p[|p| - 1] == '/');
  }

  // ---------------------------------------------------------------- canonical paths have no dot segments

  ghost predicate DotFree(parts: seq<string>) {
    forall i | 0 <= i < |parts| :: parts[i] != "." && parts[i] != ".."
  }

  lemma {:induction false} ResolvedDotFree(parts: seq<string>, kept: seq<string>)
    requires DotFree(kept)
    ensures DotFree(Resolve(parts, kept))
    decreases |parts|
  {
    if parts != [] {
      if parts[0] == "." {
        ResolvedDotFree(parts[1..], kept);
      } else if parts[0] == ".." {
        ResolvedDotFree(parts[1..], if kept == [] then [] else kept[..|kept| - 1]);
      } else {
        ResolvedDotFree(parts[1..], kept + [parts[0]]);
      }
    }
  }

  lemma {:induction false} ResolveKeeps(parts: seq<string>, kept: seq<string>)
    requires DotFree(parts)
    ensures Resolve(parts, kept) == kept + parts
    decreases |parts|
  {
    if parts != [] {
      ResolveKeeps(parts[1..], kept + [parts[0]]);
      assert kept + [parts[0]] + parts[1..] == kept + parts;
    }
  }

  /** Resolving can only drop segments. */
  lemma {:induction false} ResolveDrops(parts: seq<string>, kept: seq<string>)
    ensures |Resolve(parts, kept)| <= |kept| + |parts|
    ensures |Resolve(parts, kept)| == |kept| + |parts| ==> Resolve(parts, kept) == kept + parts
    decreases |parts|
  {
    if parts != [] {
      if parts[0] == "." {
        ResolveDrops(parts[1..], kept);
      } else if parts[0] == ".." {
        ResolveDrops(parts[1..], if kept == [] then [] else kept[..|kept| - 1]);
      } else {
        ResolveDrops(parts[1..], kept + [parts[0]]);
      }
    }
  }

  /** A canonical path resolves to its own segments. */
  lemma CanonicalResolves(p: string)
    requires CleanPath(p) == p
    ensures p[0] == '/' && Resolve(Parts(p, 0), []) == Parts(p, 0)
  {
    CleanedParts(p);
  }

  lemma CleanedParts(p: string)
    requires p != "" && p[0] == '/'
    ensures Parts(CleanPath(p), 0) == Resolve(Parts(p, 0), [])
  {
    var kept := Resolve(Parts(p, 0), []);
    PartsSlashFree(p);
    ResolvedSlashFree(Parts(p, 0), []);
    BuiltParts(kept, false);
    BuiltParts(kept, true);
    assert CleanPath(p) == Built(kept, false) || CleanPath(p) == Built(kept, true);
  }

  lemma CanonicalDotFree(p: string)
    requires CleanPath(p) == p
    ensures DotFree(Parts(p, 0))
  {
    CanonicalResolves(p);
    ResolvedDotFree(Parts(p, 0), []);
  }

  lemma BuiltShape(parts: seq<string>, trailing: bool)
    ensures Built(parts, false) == "/" + Join(parts)
    ensures Built(parts, trailing) == if trailing then Built(parts, false) + "/" else Built(parts, false)
  {
    assert Join(parts) + "" == Join(parts);
  }

  lemma BuiltCleans(parts: seq<string>, trailing: bool)
    requires AllSlashFree(parts) && DotFree(parts)
    ensures Clean(Built(parts, trailing)) == Built(parts, false)
  {
    BuiltShape(parts, trailing);
    BuiltParts(parts, trailing);
    ResolveKeeps(parts, []);
    assert [] + parts == parts;
  }

  /** Joined segments without dots make a canonical path. */
  lemma BuiltIsCanonical(parts: seq<string>, trailing: bool)
    requires AllSlashFree(parts) && DotFree(parts) && (trailing ==> parts != [])
    ensures CleanPath(Built(parts, trailing)) == Built(parts, trailing)
  {
    var p, cp := Built(parts, trailing), Built(parts, false);
    BuiltShape(parts, trailing);
    BuiltCleans(parts, trailing);
    BuiltEnd(parts);
    assert Rooted(p) == p;
  }

  // ---------------------------------------------------------------- lengths of patterns

  /** The bytes of a pattern made of these segments, one slash before each. */
  function Length(p: seq<string>): nat {
    if p == [] then 0 else Length(p[..|p| - 1]) + 1 + |p[|p| - 1]|
  }

  lemma {:induction false} LengthConcat(a: seq<string>, b: seq<string>)
    ensures Length(a + b) == Length(a) + Length(b)
    decreases |b|
  {
    if b == [] {
      assert a + b == a;
    } else {
      var init := b[..|b| - 1];
      assert (a + b)[..|a + b| - 1] == a + init;
      LengthConcat(a, init);
    }
  }

  lemma LengthOne(part: string)
    ensures Length([part]) == 1 + |part|
  {
    assert [part][..0] == [];
  }

  lemma {:induction false} LengthIsBuilt(p: seq<string>)
    ensures |Built(p, false)| == if p == [] then 1 else Length(p)
    ensures p != [] ==> Length(p) == 1 + |Join(p)|
  {
    assert Built(p, false) == "/" + Join(p) + "";
    if |p| == 1 {
      LengthOne(p[0]);
      assert p == [p[0]];
    } else if |p| > 1 {
      LengthIsBuilt(p[1..]);
      LengthOne(p[0]);
      LengthConcat([p[0]], p[1..]);
      assert p == [p[0]] + p[1..];
      assert Join(p) == p[0] + "/" + Join(p[1..]);
    }
  }

  /** A canonical pattern is at least as long as its segments with one slash before each. */
  lemma CanonicalLength(pattern: string)
    requires CleanPath(pattern) == pattern
    ensures Length(Parts(pattern, 0)) <= |pattern|
  {
    var parts := Parts(pattern, 0);
    CleanIsBuilt(pattern);
    LengthIsBuilt(parts);
    BuiltShape(parts, |pattern| > 1 && pattern[|pattern| - 1] == '/');
  }

  // ---------------------------------------------------------------- alternatePath

  /** The path with its trailing slash toggled. */
  function AlternatePath(p: string): (r: Option<string>)
    ensures r.Some? ==> r.value != p && p != "" && p != "/"
  {
    if p == "" || p == "/" then None
    else if p[|p| - 1] == '/' then Some(p[..|p| - 1])
    else Some(p + "/")
  }

  lemma {:induction false} TrailingSlashIgnored(s: string, i: nat)
    requires i <= |s|
    ensures Parts(s + "/", i) == Parts(s, i) && Starts(s + "/", i) == Starts(s, i)
    decreases |s| - i
  {
    var t := s + "/";
    if i == |s| {
      assert t[i] == '/';
      assert Parts(t, i + 1) == [] && Starts(t, i + 1) == [];
    } else if s[i] == '/' {
      TrailingSlashIgnored(s, i + 1);
    } else {
      var e := EndOf(s, i);
      RunEnds(t, i, e);
      assert t[i..e] == s[i..e];
      TrailingSlashIgnored(s, e);
    }
  }

  /** Both forms of a path have the same segments at the same places. */
  lemma AlternateKeepsSegments(p: string, q: string)
    requires AlternatePath(p) == Some(q)
    ensures Parts(p, 0) == Parts(q, 0) && Starts(p, 0) == Starts(q, 0)
  {
    if p[|p| - 1] == '/' {
      assert p == q + "/";
      TrailingSlashIgnored(q, 0);
    } else {
      TrailingSlashIgnored(p, 0);
    }
  }

  /** Toggling twice gives a canonical path back. */
  lemma AlternateTwice(p: string)
    requires CleanPath(p) == p && p != "/"
    ensures AlternatePath(p).Some? && AlternatePath(AlternatePath(p).value) == Some(p)
  {
    CleanIsBuilt(p);
    PartsSlashFree(p);
    var parts := Parts(p, 0);
    BuiltEnd(parts);
    if p[|p| - 1] == '/' {
      assert p[..|p| - 1] == Built(parts, false);
      assert p == p[..|p| - 1] + "/";
    } else {
      assert p == (p + "/")[..|p|];
    }
  }

  // ---------------------------------------------------------------- case folding

  function LowerChar(c: char): (r: char)
    ensures r == '/' <==> c == '/'
    ensures IsControl(r) <==> IsControl(c)
    ensures r == ':' <==> c == ':'
    ensures r == '*' <==> c == '*'
  {
    if 'A' <= c <= 'Z' then c - 'A' + 'a' else c
  }

  function Lower(s: string): (r: string)
    ensures |r| == |s|
    ensures forall i | 0 <= i < |s| :: r[i] == LowerChar(s[i])
  {
    seq(|s|, i requires 0 <= i < |s| => LowerChar(s[i]))
  }

  /** lowerASCII copies only when it meets an upper-case letter. */
  method LowerASCII(s: string) returns (r: string)
    ensures r == Lower(s)
  {
    for i := 0 to |s|
      invariant forall k | 0 <= k < i :: !('A' <= s[k] <= 'Z')
    {
      if 'A' <= s[i] <= 'Z' {
        r := "";
        for j := 0 to |s|
          invariant |r| == j && forall k | 0 <= k < j :: r[k] == LowerChar(s[k])
        {
          r := r + [if 'A' <= s[j] <= 'Z' then s[j] - 'A' + 'a' else s[j]];
        }
        assert r == Lower(s);
        return;
      }
    }
    r := s;
    assert r == Lower(s);
  }

  lemma DotsHaveNoCase(part: string)
    ensures Lower(part) == "." <==> part == "."
    ensures Lower(part) == ".." <==> part == ".."
  {
    assert forall i | 0 <= i < |part| :: Lower(part)[i] == '.' <==> part[i] == '.';
  }

  /** Folding the whole path is folding each segment in place. */
  lemma {:induction false} LowerParts(s: string, i: nat)
    requires i <= |s|
    ensures Starts(Lower(s), i) == Starts(s, i)
    ensures |Parts(Lower(s), i)| == |Parts(s, i)|
    ensures forall k | 0 <= k < |Parts(s, i)| :: Parts(Lower(s), i)[k] == Lower(Parts(s, i)[k])
    decreases |s| - i
  {
    if i < |s| {
      if s[i] == '/' {
        LowerParts(s, i + 1);
      } else {
        var e := EndOf(s, i);
        RunEnds(Lower(s), i, e);
        assert Lower(s)[i..e] == Lower(s[i..e]);
        LowerParts(s, e);
      }
    }
  }
}

/**
 Paths and their segments: splitting (`getPartsWithRaw`), joining, the canonical form that
 `cleanPath` keeps, the trailing-slash toggle and ASCII case folding.
 A path is a sequence of bytes; a `char` stands for one byte.
 */
module Segments {
  // ---------------------------------------------------------------- segmentation

  /** Position of the first slash at or after `i`, or the end of the path. */
  function EndOf(s: string, i: nat): (e: nat)
    requires i <= |s|
    ensures i <= e <= |s|
    ensures forall k | i <= k < e :: s[k] != '/'
    ensures e < |s| ==> s[e] == '/'
    decreases |s| - i
  {
    if i == |s| || s[i] == '/' then i else EndOf(s, i + 1)
  }

  /** Start positions of the slash-free runs of the path from position `i` on. */
  function Starts(s: string, i: nat): (r: seq<nat>)
    requires i <= |s|
    decreases |s| - i
  {
    if i == |s| then []
    else if s[i] == '/' then Starts(s, i + 1)
    else [i] + Starts(s, EndOf(s, i))
  }

  /** The slash-free runs themselves. */
  function Parts(s: string, i: nat): (r: seq<string>)
    requires i <= |s|
    decreases |s| - i
  {
    if i == |s| then []
    else if s[i] == '/' then Parts(s, i + 1)
    else [s[i..EndOf(s, i)]] + Parts(s, EndOf(s, i))
  }

  predicate IsControl(c: char) {
    c == '\0' || c == '\r' || c == '\n'
  }

  predicate HasControl(s: string) {
    exists k :: 0 <= k < |s| && IsControl(s[k])
  }

  /** `matched` is the path the trie compares, `path` the one parameters are cut from. */
  datatype PathSegments = PathSegments(path: string, matched: string, parts: seq<string>, indices: seq<nat>)

  function Segment(matched: string, raw: string): (segs: PathSegments)
    ensures |segs.indices| == |segs.parts| + 1
  {
    SuffixRuns(matched, 0);
    PathSegments(raw, matched, Parts(matched, 0), Starts(matched, 0) + [|matched|])
  }

  /** `p` is a maximal non-empty slash-free run of `s`, starting at `i`. */
  predicate SegmentAt(s: string, p: string, i: nat) {
    && p != [] && '/' !in p
    && i + |p| <= |s| && s[i..i + |p|] == p
    && (i == 0 || s[i - 1] == '/')
    && (i + |p| == |s| || s[i + |p|] == '/')
  }

  /** The parts and indices are all the maximal runs, in order, and the length sentinel. */
  ghost predicate IsSegmentation(s: string, parts: seq<string>, indices: seq<nat>) {
    && |indices| == |parts| + 1 && indices[|parts|] == |s|
    && (forall k | 0 <= k < |parts| :: SegmentAt(s, parts[k], indices[k]))
    && (forall j, k | 0 <= j < k < |parts| :: indices[j] < indices[k])
    && (forall i | 0 <= i < |s| && s[i] != '/' :: Covered(parts, indices, i))
  }

  ghost predicate Covered(parts: seq<string>, indices: seq<nat>, i: nat)
    requires |parts| <= |indices|
  {
    exists k :: 0 <= k < |parts| && indices[k] <= i < indices[k] + |parts[k]|
  }

  /** A position where a run may start. */
  predicate Boundary(s: string, i: nat)
    requires i <= |s|
  {
    i == 0 || i == |s| || s[i - 1] == '/' || s[i] == '/'
  }

  lemma {:induction false} SuffixRuns(s: string, i: nat)
    requires i <= |s| && Boundary(s, i)
    ensures |Starts(s, i)| == |Parts(s, i)|
    ensures forall k | 0 <= k < |Parts(s, i)| :: i <= Starts(s, i)[k] && SegmentAt(s, Parts(s, i)[k], Starts(s, i)[k])
    ensures forall j, k | 0 <= j < k < |Starts(s, i)| :: Starts(s, i)[j] < Starts(s, i)[k]
    decreases |s| - i
  {
    if i < |s| {
      if s[i] == '/' {
        SuffixRuns(s, i + 1);
      } else {
        var e := EndOf(s, i);
        SuffixRuns(s, e);
        FirstRun(s, i);
        assert Starts(s, i) == [i] + Starts(s, e) && Parts(s, i) == [s[i..e]] + Parts(s, e);
        forall k | 0 <= k < |Parts(s, i)|
          ensures i <= Starts(s, i)[k] && SegmentAt(s, Parts(s, i)[k], Starts(s, i)[k])
        {
          if k > 0 {
            assert Parts(s, i)[k] == Parts(s, e)[k - 1] && Starts(s, i)[k] == Starts(s, e)[k - 1];
          }
        }
      }
    }
  }

  lemma FirstRun(s: string, i: nat)
    requires i < |s| && s[i] != '/' && Boundary(s, i)
    ensures i < EndOf(s, i) && SegmentAt(s, s[i..EndOf(s, i)], i) && Boundary(s, EndOf(s, i))
  {
    var e := EndOf(s, i);
    assert EndOf(s, i) == EndOf(s, i + 1);
    assert forall k | 0 <= k < e - i :: s[i..e][k] == s[i + k];
  }

  lemma {:induction false} SuffixCovered(s: string, i: nat, x: nat)
    requires i <= x < |s| && s[x] != '/' && Boundary(s, i)
    ensures |Starts(s, i)| == |Parts(s, i)| && Covered(Parts(s, i), Starts(s, i), x)
    decreases |s| - i
  {
    SuffixRuns(s, i);
    if s[i] == '/' {
      SuffixCovered(s, i + 1, x);
    } else {
      var e := EndOf(s, i);
      if x < e {
        assert Starts(s, i)[0] <= x < Starts(s, i)[0] + |Parts(s, i)[0]|;
      } else {
        SuffixCovered(s, e, x);
        var k :| 0 <= k < |Parts(s, e)| && Starts(s, e)[k] <= x < Starts(s, e)[k] + |Parts(s, e)[k]|;
        assert Starts(s, i)[k + 1] == Starts(s, e)[k] && Parts(s, i)[k + 1] == Parts(s, e)[k];
      }
    }
  }

  /** The computed segmentation is the one the definition describes. */
  lemma SegmentIsExact(matched: string, raw: string)
    ensures IsSegmentation(matched, Segment(matched, raw).parts, Segment(matched, raw).indices)
  {
    SuffixRuns(matched, 0);
    var parts, indices := Segment(matched, raw).parts, Segment(matched, raw).indices;
    forall i | 0 <= i < |matched| && matched[i] != '/'
      ensures Covered(parts, indices, i)
    {
      SuffixCovered(matched, 0, i);
      var k :| 0 <= k < |parts| && Starts(matched, 0)[k] <= i < Starts(matched, 0)[k] + |parts[k]|;
      assert indices[k] == Starts(matched, 0)[k];
    }
  }

  /** Two different runs of one path are separated by a slash. */
  lemma RunsApart(s: string, p: string, i: nat, q: string, j: nat)
    requires SegmentAt(s, p, i) && SegmentAt(s, q, j) && i < j
    ensures i + |p| < j
  {
    RunBytes(s, p, i);
    RunBytes(s, q, j);
  }

  lemma RunBytes(s: string, p: string, i: nat)
    requires SegmentAt(s, p, i)
    ensures forall x | i <= x < i + |p| :: s[x] == p[x - i] && s[x] != '/'
  {
    assert forall x | 0 <= x < |p| :: p[x] == s[i..i + |p|][x];
  }

  /** A covered start is itself listed. */
  lemma StartListed(s: string, parts: seq<string>, indices: seq<nat>, p: string, i: nat) returns (k: nat)
    requires IsSegmentation(s, parts, indices) && SegmentAt(s, p, i)
    ensures k < |parts| && indices[k] == i && parts[k] == p
  {
    RunBytes(s, p, i);
    assert Covered(parts, indices, i);
    k :| 0 <= k < |parts| && indices[k] <= i < indices[k] + |parts[k]|;
    RunBytes(s, parts[k], indices[k]);
  }

  /** There is only one segmentation of a path. */
  lemma SegmentationUnique(s: string, parts: seq<string>, indices: seq<nat>, parts': seq<string>, indices': seq<nat>)
    requires IsSegmentation(s, parts, indices) && IsSegmentation(s, parts', indices')
    ensures parts == parts' && indices == indices'
  {
    SegmentationPrefix(s, parts, indices, parts', indices', |parts|);
    SegmentationPrefix(s, parts', indices', parts, indices, |parts'|);
  }

  lemma {:induction false} SegmentationPrefix(s: string, parts: seq<string>, indices: seq<nat>,
                                              parts': seq<string>, indices': seq<nat>, n: nat)
    requires IsSegmentation(s, parts, indices) && IsSegmentation(s, parts', indices') && n <= |parts|
    ensures n <= |parts'| && forall k | 0 <= k < n :: parts[k] == parts'[k] && indices[k] == indices'[k]
  {
    if n > 0 {
      SegmentationPrefix(s, parts, indices, parts', indices', n - 1);
      var m := StartListed(s, parts', indices', parts[n - 1], indices[n - 1]);
      assert m >= n - 1;
      var m' := StartListed(s, parts, indices, parts'[n - 1], indices'[n - 1]);
    }
  }

  /** getPartsWithRaw: fails exactly on a control character, otherwise returns the segmentation. */
  method GetPartsWithRaw(path: string, raw: string) returns (segs: PathSegments, ok: bool)
    ensures ok <==> !HasControl(path)
    ensures ok ==> segs == Segment(path, raw)
  {
    var parts: seq<string>, indices: seq<nat> := [], [];
    var start := 0;
    var n := |path|;
    segs := PathSegments(raw, path, [], []);
    for i := 0 to n
      invariant 0 <= start <= i <= n
      invariant forall k | 0 <= k < i :: !IsControl(path[k])
      invariant forall k | start <= k < i :: path[k] != '/'
      invariant parts + Parts(path, start) == Parts(path, 0)
      invariant indices + Starts(path, start) == Starts(path, 0)
    {
      if IsControl(path[i]) {
        return segs, false;
      }
      if path[i] == '/' {
        RunAppended(path, start, i, parts, indices);
        if start < i {
          parts := parts + [path[start..i]];
          indices := indices + [start];
        }
        start := i + 1;
      }
    }
    RunAppended(path, start, n, parts, indices);
    if start < n {
      assert path[start..] == path[start..n];
      parts := parts + [path[start..]];
      indices := indices + [start];
    }
    indices := indices + [n];
    segs := PathSegments(raw, path, parts, indices);
    ok := true;
  }

  lemma {:induction false} RunEnds(s: string, i: nat, e: nat)
    requires i <= e <= |s| && (forall k | i <= k < e :: s[k] != '/') && (e < |s| ==> s[e] == '/')
    ensures EndOf(s, i) == e
    decreases e - i
  {
    if i < e {
      RunEnds(s, i + 1, e);
    }
  }

  /** The run that a slash, or the end of the path, closes. */
  lemma RunClosed(s: string, start: nat, i: nat)
    requires start <= i <= |s| && (forall k | start <= k < i :: s[k] != '/') && (i < |s| ==> s[i] == '/')
    ensures var next := if i < |s| then i + 1 else i;
            && Parts(s, start) == (if start < i then [s[start..i]] else []) + Parts(s, next)
            && Starts(s, start) == (if start < i then [start] else []) + Starts(s, next)
  {
    RunEnds(s, start, i);
    assert i < |s| ==> Parts(s, i) == Parts(s, i + 1) && Starts(s, i) == Starts(s, i + 1);
  }

  lemma RunAppended(s: string, start: nat, i: nat, parts: seq<string>, indices: seq<nat>)
    requires start <= i <= |s| && (forall k | start <= k < i :: s[k] != '/') && (i < |s| ==> s[i] == '/')
    ensures var next := if i < |s| then i + 1 else i;
            && (parts + if start < i then [s[start..i]] else []) + Parts(s, next) == parts + Parts(s, start)
            && (indices + if start < i then [start] else []) + Starts(s, next) == indices + Starts(s, start)
  {
    RunClosed(s, start, i);
  }

  // ---------------------------------------------------------------- joining and gaps

  function Join(parts: seq<string>): string {
    if |parts| == 0 then ""
    else if |parts| == 1 then parts[0]
    else parts[0] + "/" + Join(parts[1..])
  }

  predicate SlashFree(p: string) {
    p != [] && '/' !in p
  }

  ghost predicate AllSlashFree(parts: seq<string>) {
    forall p <- parts :: SlashFree(p)
  }

  /** Exactly one slash between segment `k` and the next one. */
  predicate GapAt(segs: PathSegments, k: nat)
    requires |segs.indices| == |segs.parts| + 1 && k + 1 < |segs.parts|
  {
    segs.indices[k] + |segs.parts[k]| + 1 == segs.indices[k + 1]
  }

  /** A path whose tail from `i` on is `parts` joined by single slashes has exactly these parts. */
  lemma {:induction false} JoinedRuns(s: string, i: nat, parts: seq<string>, suffix: string)
    requires i <= |s| && s[i..] == Join(parts) + suffix && AllSlashFree(parts)
    requires suffix == "" || suffix == "/"
    ensures Parts(s, i) == parts && Starts(s, i) == JoinedStarts(parts, i)
    decreases |parts|
  {
    if |parts| == 0 {
      NoRun(s, i, suffix);
    } else if |parts| == 1 {
      LastRun(s, i, parts[0], suffix);
    } else {
      JoinedHead(s, i, parts, suffix);
      JoinedRuns(s, i + |parts[0]| + 1, parts[1..], suffix);
      assert parts == [parts[0]] + parts[1..];
    }
  }

  /** Peels the first of several joined parts. */
  lemma JoinedHead(s: string, i: nat, parts: seq<string>, suffix: string)
    requires i <= |s| && s[i..] == Join(parts) + suffix && AllSlashFree(parts) && |parts| > 1
    ensures AllSlashFree(parts[1..])
    ensures var j := i + |parts[0]| + 1;
            && j <= |s| && s[j..] == Join(parts[1..]) + suffix
            && Parts(s, i) == [parts[0]] + Parts(s, j) && Starts(s, i) == [i] + Starts(s, j)
  {
    JoinTail(parts, suffix);
    var p, tail := parts[0], Join(parts[1..]) + suffix;
    assert p in parts;
    HeadRun(s, i, p, "/" + tail);
    assert ("/" + tail)[1..] == tail;
  }

  /** Where the runs of joined parts start when the first one starts at `i`. */
  function JoinedStarts(parts: seq<string>, i: nat): (r: seq<nat>)
    ensures |r| == |parts|
    ensures |parts| > 0 ==> r[0] == i
    ensures forall k | 0 <= k < |parts| - 1 :: r[k] + |parts[k]| + 1 == r[k + 1]
  {
    if parts == [] then [] else [i] + JoinedStarts(parts[1..], i + |parts[0]| + 1)
  }

  lemma JoinTail(parts: seq<string>, suffix: string)
    requires |parts| > 1
    ensures Join(parts) + suffix == parts[0] + ("/" + (Join(parts[1..]) + suffix))
  {
  }

  lemma NoRun(s: string, i: nat, suffix: string)
    requires i <= |s| && s[i..] == suffix && (suffix == "" || suffix == "/")
    ensures Parts(s, i) == [] && Starts(s, i) == []
  {
    if i < |s| {
      assert s[i] == s[i..][0] && |s| == i + 1;
    }
  }

  lemma LastRun(s: string, i: nat, p: string, suffix: string)
    requires i <= |s| && s[i..] == p + suffix && SlashFree(p) && (suffix == "" || suffix == "/")
    ensures Parts(s, i) == [p] && Starts(s, i) == [i]
  {
    HeadRun(s, i, p, suffix);
    assert |s| == i + |p| + |suffix|;
  }

  /** Peels the first run off a path tail. */
  lemma HeadRun(s: string, i: nat, p: string, rest: string)
    requires i <= |s| && s[i..] == p + rest && SlashFree(p) && (rest == "" || rest[0] == '/')
    ensures i < |s| && s[i] != '/' && EndOf(s, i) == i + |p| && s[i..i + |p|] == p && s[i + |p|..] == rest
    ensures rest != "" ==> s[i + |p|] == '/' && s[i + |p| + 1..] == rest[1..]
    ensures rest != "" ==> Parts(s, i) == [p] + Parts(s, i + |p| + 1) && Starts(s, i) == [i] + Starts(s, i + |p| + 1)
    ensures rest == "" ==> Parts(s, i) == [p] && Starts(s, i) == [i]
  {
    var e := i + |p|;
    assert |s| == e + |rest|;
    assert forall k | i <= k < |s| :: s[k] == s[i..][k - i];
    assert forall k | i <= k < e :: s[k] == p[k - i];
    assert rest != "" ==> s[e] == rest[0];
    RunEnds(s, i, e);
  }
}

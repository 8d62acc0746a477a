/**
 The text notions of the request specification and the functions of the source that compute them:
 folding, cleaning, toggling, and the argument checks of registration.
 */
module RequestText {
  import opened Base
  import opened Segments
  import opened Paths
  import opened Routes
  import opened Dispatch
  import opened Registration
  import opened RequestSpec

  // ---------------------------------------------------------------- bytes

  /** lowerASCII identifies exactly the two cases of each ASCII letter. */
  lemma SameByteByLower(c: char, d: char)
    ensures SameByte(c, d) <==> LowerChar(c) == LowerChar(d)
  {
  }

  /** The folded forms agree exactly when the texts are equal up to case. */
  lemma SameTextByKey(p: string, q: string, fold: bool)
    ensures SameText(p, q, fold) <==> Key(p, fold) == Key(q, fold)
  {
    if fold {
      if SameText(p, q, fold) {
        forall i | 0 <= i < |p|
          ensures Lower(p)[i] == Lower(q)[i]
        {
          SameByteByLower(p[i], q[i]);
        }
      } else if |p| == |q| {
        var i :| 0 <= i < |p| && !SameByte(p[i], q[i]);
        SameByteByLower(p[i], q[i]);
        assert Lower(p)[i] != Lower(q)[i];
      } else {
        assert |Lower(p)| != |Lower(q)|;
      }
    }
  }

  lemma OneLineExactly(p: string)
    ensures OneLine(p) <==> !HasControl(p)
  {
  }

  lemma KeyHasControl(p: string, fold: bool)
    ensures HasControl(Key(p, fold)) <==> HasControl(p)
  {
    if HasControl(p) {
      var i :| 0 <= i < |p| && IsControl(p[i]);
      assert IsControl(Key(p, fold)[i]);
    }
    if HasControl(Key(p, fold)) {
      var i :| 0 <= i < |p| && IsControl(Key(p, fold)[i]);
      assert IsControl(p[i]);
    }
  }

  lemma TwinIsAlternate(p: string)
    ensures AlternatePath(p) == if HasTwin(p) then Some(Twin(p)) else None
  {
  }

  // ---------------------------------------------------------------- canonical paths

  ghost predicate NoEmptySegment(p: string) {
    forall i | 0 <= i < |p| - 1 :: !(p[i] == '/' && p[i + 1] == '/')
  }

  lemma JoinCons(word: string, rest: seq<string>)
    requires rest != []
    ensures Join([word] + rest) == word + "/" + Join(rest)
  {
    assert ([word] + rest)[1..] == rest;
  }

  lemma CutAtSlash(p: string, i: nat, e: nat)
    requires i <= e < |p| && p[e] == '/'
    ensures p[i..] == p[i..e] + "/" + p[e + 1..]
  {
  }

  /** A segment with its end: the last one, the last one with a final slash, or one with another behind its slash. */
  lemma SegmentCases(p: string, i: nat)
    requires NoEmptySegment(p) && i < |p| && p[i] != '/'
    ensures var e := EndOf(p, i);
            && i < e <= |p|
            && (e < |p| ==> p[e] == '/' && p[i..] == p[i..e] + "/" + p[e + 1..])
            && (e == |p| ==> !EndsInSlash(p) && Parts(p, i) == [p[i..]])
            && (e + 1 == |p| ==> EndsInSlash(p) && Parts(p, i) == [p[i..e]])
            && (e + 1 < |p| ==> p[e + 1] != '/' && Parts(p, i) == [p[i..e]] + Parts(p, e + 1))
  {
    var e := EndOf(p, i);
    if e < |p| {
      CutAtSlash(p, i, e);
      assert Parts(p, e) == Parts(p, e + 1);
      assert e + 1 == |p| ==> Parts(p, e + 1) == [];
    } else {
      assert p[|p| - 1] != '/' && p[i..e] == p[i..];
      assert Parts(p, |p|) == [];
    }
  }

  function FinalSlash(p: string): string {
    if EndsInSlash(p) then "/" else ""
  }

  /** From here on the path is its segments joined, and a final slash if it has one. */
  ghost predicate JoinedAt(p: string, i: nat) {
    i <= |p| && Parts(p, i) != [] && p[i..] == Join(Parts(p, i)) + FinalSlash(p)
  }

  lemma JoinedOn(word: string, rest: seq<string>, tail: string, here: string, next: string)
    requires rest != [] && next == Join(rest) + tail && here == word + "/" + next
    ensures here == Join([word] + rest) + tail
  {
    JoinCons(word, rest);
  }

  lemma JoinedNextRun(p: string, i: nat)
    requires NoEmptySegment(p) && i < |p| && p[i] != '/'
    requires EndOf(p, i) + 1 < |p| && JoinedAt(p, EndOf(p, i) + 1)
    ensures JoinedAt(p, i)
  {
    var e := EndOf(p, i);
    SegmentCases(p, i);
    JoinedOn(p[i..e], Parts(p, e + 1), FinalSlash(p), p[i..], p[e + 1..]);
  }

  lemma JoinedLastRun(p: string, i: nat)
    requires NoEmptySegment(p) && i < |p| && p[i] != '/' && EndOf(p, i) + 1 >= |p|
    ensures JoinedAt(p, i)
  {
    var e := EndOf(p, i);
    SegmentCases(p, i);
    if e + 1 == |p| {
      assert p[e + 1..] == "" && p[i..] == p[i..e] + "/";
      assert Join([p[i..e]]) == p[i..e];
    } else {
      assert Join([p[i..]]) + "" == p[i..];
    }
  }

  lemma NextStart(p: string, i: nat, e: nat)
    requires NoEmptySegment(p) && i < |p| && p[i] != '/' && e == EndOf(p, i) && e + 1 < |p|
    ensures i < e && p[e + 1] != '/'
  {
    assert p[e] == '/';
  }

  lemma {:induction false} JoinedFrom(p: string, i: nat)
    requires NoEmptySegment(p) && i < |p| && p[i] != '/'
    ensures JoinedAt(p, i)
    decreases |p| - i
  {
    var e := EndOf(p, i);
    if e + 1 < |p| {
      NextStart(p, i, e);
      JoinedFrom(p, e + 1);
      JoinedNextRun(p, i);
    } else {
      JoinedLastRun(p, i);
    }
  }

  lemma RootSkipped(p: string)
    requires NoEmptySegment(p) && p != "" && p[0] == '/'
    ensures Parts(p, 0) == Parts(p, 1) && (|p| > 1 ==> p[1] != '/') && (|p| == 1 ==> Parts(p, 1) == [])
  {
  }

  lemma RootedBuilt(p: string, parts: seq<string>, trailing: bool)
    requires p != "" && p[0] == '/' && p[1..] == Join(parts) + if trailing then "/" else ""
    ensures p == Built(parts, trailing)
  {
    assert p == "/" + p[1..];
    BuiltShape(parts, trailing);
  }

  /** A rooted path without empty segments is built from its segments. */
  lemma IsBuilt(p: string)
    requires NoEmptySegment(p) && p != "" && p[0] == '/'
    ensures p == Built(Parts(p, 0), |p| > 1 && EndsInSlash(p))
    ensures |p| > 1 && EndsInSlash(p) ==> Parts(p, 0) != []
  {
    RootSkipped(p);
    if |p| > 1 {
      JoinedFrom(p, 1);
      RootedBuilt(p, Parts(p, 1), EndsInSlash(p));
    } else {
      assert p == "/" && Built([], false) == "/";
    }
  }

  /** Canonical paths are exactly those that cleanPath keeps. */
  lemma CanonicalExactly(p: string)
    ensures Canonical(p) <==> CleanPath(p) == p
  {
    if Canonical(p) {
      IsBuilt(p);
      PartsSlashFree(p);
      BuiltIsCanonical(Parts(p, 0), |p| > 1 && EndsInSlash(p));
    } else if CleanPath(p) == p {
      CleanIsCanonical(p);
    }
  }

  lemma WordThen(word: string, rest: string)
    requires SlashFree(word) && NoEmptySegment(rest) && (rest != "" ==> rest[0] != '/')
    ensures NoEmptySegment(word + "/" + rest) && (word + "/" + rest)[0] != '/'
  {
    var t := word + "/" + rest;
    assert forall i | 0 <= i < |word| :: t[i] == word[i] && word[i] in word;
    assert t[|word|] == '/';
    assert forall i | 0 <= i < |rest| :: t[|word| + 1 + i] == rest[i];
    forall i | 0 <= i < |t| - 1
      ensures !(t[i] == '/' && t[i + 1] == '/')
    {
      if i > |word| {
        assert t[i] == rest[i - |word| - 1] && t[i + 1] == rest[i - |word|];
      }
    }
  }

  lemma {:induction false} JoinedHasNoGap(parts: seq<string>, trailing: bool)
    requires AllSlashFree(parts) && parts != []
    ensures var t := Join(parts) + if trailing then "/" else "";
            NoEmptySegment(t) && t != "" && t[0] != '/'
    decreases |parts|
  {
    var tail := if trailing then "/" else "";
    assert parts[0] in parts;
    if |parts| == 1 {
      WordThen(parts[0], "");
      assert parts[0] + "/" + "" == parts[0] + "/";
      assert parts[0] + "" == parts[0];
    } else {
      assert AllSlashFree(parts[1..]);
      JoinedHasNoGap(parts[1..], trailing);
      WordThen(parts[0], Join(parts[1..]) + tail);
      assert Join(parts) + tail == parts[0] + "/" + (Join(parts[1..]) + tail);
    }
  }

  lemma RootedHasNoGap(t: string)
    requires NoEmptySegment(t) && (t != "" ==> t[0] != '/')
    ensures NoEmptySegment("/" + t)
  {
    var p := "/" + t;
    assert forall i | 0 <= i < |t| :: p[i + 1] == t[i];
    forall i | 0 <= i < |p| - 1
      ensures !(p[i] == '/' && p[i + 1] == '/')
    {
      if i > 0 {
        assert p[i] == t[i - 1] && p[i + 1] == t[i];
      }
    }
  }

  lemma CleanIsCanonical(p: string)
    requires CleanPath(p) == p
    ensures Canonical(p)
  {
    CanonicalResolves(p);
    CanonicalDotFree(p);
    CleanIsBuilt(p);
    PartsSlashFree(p);
    var parts, trailing := Parts(p, 0), |p| > 1 && p[|p| - 1] == '/';
    BuiltShape(parts, trailing);
    if parts == [] {
      assert p == "/";
    } else {
      JoinedHasNoGap(parts, trailing);
      RootedHasNoGap(Join(parts) + if trailing then "/" else "");
      assert p == "/" + (Join(parts) + if trailing then "/" else "");
    }
  }

  // ---------------------------------------------------------------- the canonical form

  lemma {:induction false} ResolveConcat(a: seq<string>, b: seq<string>, kept: seq<string>)
    ensures Resolve(a + b, kept) == Resolve(b, Resolve(a, kept))
    decreases |a|
  {
    if a == [] {
      assert a + b == b;
    } else {
      assert (a + b)[1..] == a[1..] + b;
      var next := if a[0] == "." then kept
                  else if a[0] == ".." then if kept == [] then [] else kept[..|kept| - 1]
                  else kept + [a[0]];
      ResolveConcat(a[1..], b, next);
    }
  }

  predicate Ordinary(part: string) {
    part != "." && part != ".."
  }

  /** Resolving is the rewriting that path.Clean documents for rooted paths; the four rules determine it. */
  lemma ResolveFollowsRules(a: seq<string>, b: seq<string>, x: string)
    ensures DotFree(b) ==> Resolve(b, []) == b
    ensures Resolve(a + ["."] + b, []) == Resolve(a + b, [])
    ensures Ordinary(x) ==> Resolve(a + [x, ".."] + b, []) == Resolve(a + b, [])
    ensures Resolve([".."] + b, []) == Resolve(b, [])
  {
    if DotFree(b) {
      ResolveKeeps(b, []);
      assert [] + b == b;
    }
    var kept := Resolve(a, []);
    ResolveConcat(a, b, []);
    ResolveConcat(a + ["."], b, []);
    ResolveConcat(a, ["."], []);
    ResolveConcat(a + [x, ".."], b, []);
    ResolveConcat(a, [x, ".."], []);
    ResolveConcat([".."], b, []);
    assert ["."][1..] == [] && [".."][1..] == [] && [x, ".."][1..] == [".."];
    assert (kept + [x])[..|kept|] == kept;
  }

  lemma SuffixAt(s: string, i: nat, t: string, j: nat, n: nat)
    requires i + n <= |s| && j + n <= |t| && s[i..] == t[j..]
    ensures |s| - i == |t| - j && s[i + n..] == t[j + n..] && s[i..i + n] == t[j..j + n]
    ensures i + n < |s| ==> s[i + n] == t[j + n]
  {
    assert s[i + n..] == s[i..][n..] && t[j + n..] == t[j..][n..];
    assert s[i..i + n] == s[i..][..n] && t[j..j + n] == t[j..][..n];
    assert i + n < |s| ==> s[i + n] == s[i..][n];
  }

  /** The first word of equal rests. */
  lemma SuffixWord(s: string, i: nat, t: string, j: nat, n: nat)
    requires i < |s| && j < |t| && s[i..] == t[j..] && s[i] != '/' && n == EndOf(s, i) - i
    ensures n > 0 && i + n <= |s| && j + n <= |t| && t[j] != '/' && EndOf(t, j) == j + n
    ensures s[i..i + n] == t[j..j + n] && s[i + n..] == t[j + n..]
  {
    SuffixAt(s, i, t, j, 0);
    forall k | j <= k < j + n
      ensures t[k] != '/'
    {
      SuffixAt(s, i, t, j, k - j);
    }
    SuffixAt(s, i, t, j, n);
    RunEnds(t, j, j + n);
  }

  /** The segments depend on the rest of the path only. */
  lemma {:induction false} SuffixParts(s: string, i: nat, t: string, j: nat)
    requires i <= |s| && j <= |t| && s[i..] == t[j..]
    ensures Parts(s, i) == Parts(t, j)
    decreases |s| - i
  {
    SuffixAt(s, i, t, j, 0);
    if i < |s| {
      if s[i] == '/' {
        SuffixAt(s, i, t, j, 1);
        SuffixParts(s, i + 1, t, j + 1);
      } else {
        var n := EndOf(s, i) - i;
        SuffixWord(s, i, t, j, n);
        SuffixParts(s, i + n, t, j + n);
      }
    }
  }

  lemma RootedParts(p: string)
    requires p != ""
    ensures Parts(Rooted(p), 0) == Parts(p, 0)
  {
    if p[0] != '/' {
      var q := "/" + p;
      SuffixParts(q, 1, p, 0);
      assert Parts(q, 0) == Parts(q, 1);
    }
  }

  /** What cleanPath returns, built from the resolved segments. */
  lemma CleanPathBuilt(p: string)
    ensures var kept := Resolve(Parts(p, 0), []);
            && AllSlashFree(kept) && DotFree(kept)
            && CleanPath(p) == Built(kept, EndsInSlash(p) && kept != [])
  {
    var kept := Resolve(Parts(p, 0), []);
    PartsSlashFree(p);
    ResolvedSlashFree(Parts(p, 0), []);
    ResolvedDotFree(Parts(p, 0), []);
    BuiltEnd(kept);
    if p != "" {
      RootedParts(p);
      BuiltShape(kept, true);
      assert Clean(Rooted(p)) == Built(kept, false);
    }
  }

  lemma BuiltSlash(parts: seq<string>, trailing: bool)
    requires AllSlashFree(parts) && (trailing ==> parts != [])
    ensures parts != [] ==> (EndsInSlash(Built(parts, trailing)) <==> trailing)
  {
    BuiltEnd(parts);
    BuiltShape(parts, trailing);
  }

  /** cleanPath returns the canonical form, and there is only one. */
  lemma CanonicalFormExactly(target: string, p: string)
    ensures CanonicalFormOf(target, p) <==> target == CleanPath(p)
  {
    var kept := Resolve(Parts(p, 0), []);
    var trailing := EndsInSlash(p) && kept != [];
    CleanPathBuilt(p);
    BuiltParts(kept, trailing);
    BuiltIsCanonical(kept, trailing);
    BuiltSlash(kept, trailing);
    CanonicalExactly(CleanPath(p));
    if CanonicalFormOf(target, p) {
      IsBuilt(target);
      if kept != [] {
        LongerThanRoot(target);
      }
    }
  }

  lemma LongerThanRoot(p: string)
    requires p != "" && Parts(p, 0) != [] && p[0] == '/'
    ensures |p| > 1
  {
  }

  // ---------------------------------------------------------------- the arguments of Handle

  /** Handle refuses the arguments exactly when the call is not a good one. */
  lemma GoodCallExactly(a: Attempt)
    ensures GoodCall(a) <==> ArgumentError(a.method_, a.pattern, a.handler).None?
  {
    CanonicalExactly(a.pattern);
    OneLineExactly(a.pattern);
    MethodName(a.method_);
  }

  lemma MethodName(m: string)
    ensures IsValidMethod(m) <==> m != "" && forall i | 0 <= i < |m| :: m[i] as int > 32 && m[i] as int != 127
  {
    if IsValidMethod(m) {
      assert forall i | 0 <= i < |m| :: m[i] in m;
    }
  }

  /** The faults of a call, in the order in which Handle looks for them. */
  ghost predicate HasFault(a: Attempt, fault: HandleError) {
    match fault
    case NilHandler => a.handler.None?
    case UnsupportedMethod =>
      a.method_ == "" || exists i | 0 <= i < |a.method_| :: a.method_[i] as int <= 32 || a.method_[i] as int == 127
    case NonCanonical => !Canonical(a.pattern)
    case PatternTooLong => |a.pattern| > 4096
    case InvalidPattern => !OneLine(a.pattern)
    case RouteTooDeep => |Parts(a.pattern, 0)| > 50
    case BadParamNames => !ValidNames(Parts(a.pattern, 0))
    case Rejected(_) => false
  }

  const FAULTS: seq<HandleError> := [
    HandleError.NilHandler, UnsupportedMethod, NonCanonical, PatternTooLong, InvalidPattern, RouteTooDeep, BadParamNames
  ]

  /** The error for bad arguments names the first fault. */
  lemma ErrorNamesFirstFault(a: Attempt)
    ensures match ArgumentError(a.method_, a.pattern, a.handler)
            case None => forall fault <- FAULTS :: !HasFault(a, fault)
            case Some(error) =>
              exists k ::
                && 0 <= k < |FAULTS| && FAULTS[k] == error && HasFault(a, error)
                && forall j | 0 <= j < k :: !HasFault(a, FAULTS[j])
  {
    CanonicalExactly(a.pattern);
    OneLineExactly(a.pattern);
    MethodName(a.method_);
    var error := ArgumentError(a.method_, a.pattern, a.handler);
    if error.Some? {
      var k := FaultPlace(error.value);
      assert FAULTS[k] == error.value;
    }
  }

  function FaultPlace(error: HandleError): (k: nat)
    ensures !error.Rejected? ==> k < |FAULTS| && FAULTS[k] == error
  {
    match error
    case NilHandler => 0
    case UnsupportedMethod => 1
    case NonCanonical => 2
    case PatternTooLong => 3
    case InvalidPattern => 4
    case RouteTooDeep => 5
    case BadParamNames => 6
    case Rejected(_) => 7
  }
}

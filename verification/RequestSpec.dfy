/**
 What a router must answer, told from the calls of Handle and from the request alone: original patterns
 and paths, no tables, tries, caches or folded forms, and none of the steps of the dispatch.
 */
module RequestSpec {
  import opened Base
  import opened Segments
  import opened Paths
  import opened Trie
  import opened Routes
  import opened Search
  import opened Allow
  import opened Serve
  import opened Dispatch
  import opened Registration

  // ---------------------------------------------------------------- text

  /** The same byte, or the two cases of one ASCII letter, which are 32 apart. */
  predicate SameByte(c: char, d: char) {
    || c == d
    || (65 <= c as int <= 90 && d as int == c as int + 32)
    || (65 <= d as int <= 90 && c as int == d as int + 32)
  }

  /** Equal, or equal up to ASCII case. */
  predicate SameText(p: string, q: string, fold: bool) {
    if fold then |p| == |q| && forall i | 0 <= i < |p| :: SameByte(p[i], q[i]) else p == q
  }

  predicate EndsInSlash(p: string) {
    p != "" && p[|p| - 1] == '/'
  }

  /** No NUL, line feed or carriage return. */
  predicate OneLine(p: string) {
    forall i | 0 <= i < |p| :: p[i] as int != 0 && p[i] as int != 10 && p[i] as int != 13
  }

  /** Rooted, no two slashes in a row, no "." or ".." segment. */
  ghost predicate Canonical(p: string) {
    && p != "" && p[0] == '/'
    && (forall i | 0 <= i < |p| - 1 :: !(p[i] == '/' && p[i + 1] == '/'))
    && forall i | 0 <= i < |Parts(p, 0)| :: Parts(p, 0)[i] != "." && Parts(p, 0)[i] != ".."
  }

  /** The canonical form: the resolved segments, and the trailing slash if any segment is left. */
  ghost predicate CanonicalFormOf(target: string, p: string) {
    && Canonical(target) && Parts(target, 0) == Resolve(Parts(p, 0), [])
    && (Parts(target, 0) != [] ==> (EndsInSlash(target) <==> EndsInSlash(p)))
  }

  /** The other slash form of a path. */
  predicate HasTwin(p: string) {
    p != "" && p != "/"
  }

  function Twin(p: string): (q: string)
    requires HasTwin(p)
  {
    if EndsInSlash(p) then p[..|p| - 1] else p + "/"
  }

  // ---------------------------------------------------------------- calls of Handle

  /** The arguments that Handle takes. */
  ghost predicate GoodCall(a: Attempt) {
    && a.handler.Some?
    && a.method_ != "" && (forall i | 0 <= i < |a.method_| :: a.method_[i] as int > 32 && a.method_[i] as int != 127)
    && Canonical(a.pattern) && |a.pattern| <= 4096 && OneLine(a.pattern)
    && |Parts(a.pattern, 0)| <= 50 && ValidNames(Parts(a.pattern, 0))
  }

  /**
   Two patterns conflict when they are the same text, or agree up to a segment where both are dynamic
   but differ.
   */
  predicate Clashes(p: seq<string>, q: seq<string>, fold: bool)
    decreases |p|
  {
    if p == [] || q == [] then p == q
    else if IsDynamic(p[0]) && IsDynamic(q[0]) then p[0] != q[0] || Clashes(p[1..], q[1..], fold)
    else !IsDynamic(p[0]) && !IsDynamic(q[0]) && SameText(p[0], q[0], fold) && Clashes(p[1..], q[1..], fold)
  }

  ghost predicate ClashesWith(calls: seq<Attempt>, a: Attempt, fold: bool) {
    exists b :: b in calls && Clashes(Parts(a.pattern, 0), Parts(b.pattern, 0), fold)
  }

  /** The calls for one host and method that are accepted: good arguments, no clash with an accepted one before. */
  ghost function Taken(attempts: seq<Attempt>, host: string, m: string, fold: bool): seq<Attempt> {
    if attempts == [] then []
    else
      var before, a := Taken(attempts[..|attempts| - 1], host, m, fold), attempts[|attempts| - 1];
      if a.host == host && a.method_ == m && GoodCall(a) && !ClashesWith(before, a, fold) then before + [a] else before
  }

  // ---------------------------------------------------------------- one method

  predicate HasDynamic(a: Attempt) {
    exists i | 0 <= i < |Parts(a.pattern, 0)| :: IsDynamic(Parts(a.pattern, 0)[i])
  }

  /** A literal pattern that is the path. */
  predicate IsLiteralFor(a: Attempt, path: string, fold: bool) {
    !HasDynamic(a) && SameText(a.pattern, path, fold)
  }

  /** Literal segments are the same text, a parameter takes one segment, a wildcard all that is left. */
  predicate Covers(p: seq<string>, parts: seq<string>, fold: bool)
    decreases |p|
  {
    if p == [] then parts == []
    else if IsWild(p[0]) then |p| == 1
    else if parts == [] then false
    else (IsParam(p[0]) || SameText(p[0], parts[0], fold)) && Covers(p[1..], parts[1..], fold)
  }

  ghost predicate IsCovering(calls: seq<Attempt>, a: Attempt, path: string, fold: bool) {
    a in calls && Covers(Parts(a.pattern, 0), Parts(path, 0), fold)
  }

  /** The pattern to prefer: literal before parameter before wildcard, at the first place where two differ. */
  ghost predicate IsPreferred(calls: seq<Attempt>, a: Attempt, path: string, fold: bool) {
    && IsCovering(calls, a, path, fold)
    && forall b | IsCovering(calls, b, path, fold) :: Better(Parts(a.pattern, 0), Parts(b.pattern, 0))
  }

  /** Where segment `i` of a path starts; its end for the place after the last one. */
  function StartOf(path: string, i: nat): nat {
    if i < |Starts(path, 0)| then Starts(path, 0)[i] else |path|
  }

  /** What a pattern captures from its segment `i` on: the text of the path, whatever its case. */
  function Captured(p: seq<string>, path: string, i: nat): seq<Binding>
    decreases |p| - i
  {
    if i >= |p| then []
    else if IsWild(p[i]) && StartOf(path, i) <= |path| then [Binding(p[i][1..], path[StartOf(path, i)..])]
    else if IsParam(p[i]) && i < |Parts(path, 0)| then
      [Binding(p[i][1..], Parts(path, 0)[i])] + Captured(p, path, i + 1)
    else Captured(p, path, i + 1)
  }

  /** Patterns with parameters are tried only if there are any, and only on a path that can be split. */
  ghost predicate CanCover(calls: seq<Attempt>, path: string) {
    OneLine(path) && |Parts(path, 0)| <= 50 && exists a :: a in calls && HasDynamic(a)
  }

  ghost predicate SomeLiteral(calls: seq<Attempt>, path: string, fold: bool) {
    exists a :: a in calls && IsLiteralFor(a, path, fold)
  }

  ghost predicate SomeCovering(calls: seq<Attempt>, path: string, fold: bool) {
    exists a :: IsCovering(calls, a, path, fold)
  }

  /** The handler of a literal call, without parameters. */
  ghost predicate LiteralAnswers(calls: seq<Attempt>, path: string, fold: bool, answer: Option<Answer>) {
    exists a ::
      a in calls && IsLiteralFor(a, path, fold) && a.handler.Some? && answer == Some(Answer(a.handler.value, []))
  }

  /** The handler of a preferred call, with what its pattern captures. */
  ghost predicate PreferredAnswers(calls: seq<Attempt>, path: string, fold: bool, answer: Option<Answer>) {
    exists a ::
      && IsPreferred(calls, a, path, fold) && a.handler.Some?
      && answer == Some(Answer(a.handler.value, Captured(Parts(a.pattern, 0), path, 0)))
  }

  /** The answer to a path from the accepted calls for one method. */
  ghost predicate AnswersFrom(calls: seq<Attempt>, path: string, fold: bool, answer: Option<Answer>) {
    if SomeLiteral(calls, path, fold) then LiteralAnswers(calls, path, fold, answer)
    else if CanCover(calls, path) && SomeCovering(calls, path, fold) then PreferredAnswers(calls, path, fold, answer)
    else answer == None
  }

  // ---------------------------------------------------------------- one host

  /** The accepted calls of one host, and how text is compared. */
  datatype Site = Site(attempts: seq<Attempt>, host: string, fold: bool)

  ghost function Calls(site: Site, m: string): seq<Attempt> {
    Taken(site.attempts, site.host, m, site.fold)
  }

  /** HEAD is answered by its own routes if they have an answer, else by those of GET. */
  ghost predicate Responds(site: Site, m: string, path: string, answer: Option<Answer>) {
    if m == "HEAD" && AnswersFrom(Calls(site, "HEAD"), path, site.fold, None)
      then AnswersFrom(Calls(site, "GET"), path, site.fold, answer)
      else AnswersFrom(Calls(site, m), path, site.fold, answer)
  }

  ghost predicate Responding(site: Site, m: string, path: string) {
    !Responds(site, m, path, None)
  }

  ghost predicate SomeResponding(site: Site, path: string) {
    exists m :: Responding(site, m, path)
  }

  /** What is allowed at a path: every method that is answered there, and OPTIONS if any is. */
  ghost predicate Allows(site: Site, path: string, m: string) {
    if m == "OPTIONS" then SomeResponding(site, path) else Responding(site, m, path)
  }

  const STANDARD: seq<string> := ["GET", "HEAD", "POST", "PUT", "PATCH", "DELETE", "OPTIONS"]

  /** Byte order: at the first difference, or by being a prefix. */
  ghost predicate ByteOrder(a: string, b: string) {
    exists k: nat :: k <= |a| && k <= |b| && a[..k] == b[..k] && k < |b| && (k == |a| || a[k] < b[k])
  }

  /** The standard methods first, in their order, then the others in byte order. */
  ghost predicate Precedes(a: string, b: string) {
    if a in STANDARD
      then b !in STANDARD || exists i, j :: 0 <= i < j < |STANDARD| && STANDARD[i] == a && STANDARD[j] == b
    else b !in STANDARD && ByteOrder(a, b)
  }

  ghost predicate InOrder(list: seq<string>) {
    forall i, j | 0 <= i < j < |list| :: Precedes(list[i], list[j])
  }

  /** The header that lists exactly the allowed methods. */
  ghost predicate IsAllowOf(site: Site, path: string, header: string) {
    exists list :: InOrder(list) && header == CommaJoin(list) && forall m :: m in list <==> Allows(site, path, m)
  }

  /**
   The other slash form is considered unless the path, of two bytes or more, has no final slash and no
   accepted pattern has one either.
   */
  ghost predicate TwinTried(site: Site, path: string) {
    && HasTwin(path)
    && (|path| == 1 || EndsInSlash(path) ||
        exists m, a :: a in Calls(site, m) && |a.pattern| > 1 && EndsInSlash(a.pattern))
  }

  function RedirectCode(m: string): nat {
    if m == "GET" || m == "HEAD" then 301 else 308
  }

  ghost predicate IsServed(site: Site, m: string, path: string, o: Option<Outcome>) {
    exists answer :: Responds(site, m, path, Some(answer)) && o == Some(Served(answer))
  }

  /** OPTIONS gets the header with status 200, any other method with status 405. */
  ghost predicate IsRefused(site: Site, m: string, path: string, o: Option<Outcome>) {
    exists header ::
      && IsAllowOf(site, path, header)
      && o == Some(if m == "OPTIONS" then OptionsAnswered(header) else MethodNotAllowed(header))
  }

  /** The answer of one host; None if it has nothing at the path. */
  ghost predicate SiteAnswers(site: Site, strict: bool, raw: bool, m: string, path: string, o: Option<Outcome>) {
    if Responding(site, m, path) then IsServed(site, m, path, o)
    else if TwinTried(site, path) && strict && SomeResponding(site, Twin(path)) then
      o == Some(Redirect(Twin(path), raw, RedirectCode(m)))
    else if TwinTried(site, path) && !strict && Responding(site, m, Twin(path)) then IsServed(site, m, Twin(path), o)
    else if SomeResponding(site, path) then IsRefused(site, m, path, o)
    else if TwinTried(site, path) && !strict && SomeResponding(site, Twin(path)) then IsRefused(site, m, Twin(path), o)
    else o == None
  }

  // ---------------------------------------------------------------- the request

  /** The options of the router. */
  datatype Options = Options(ignoreCase: bool, strictSlash: bool, useRawPath: bool)

  ghost predicate ByRawPath(options: Options, req: Request) {
    options.useRawPath && req.rawPath != "" && req.rawPath == req.escapedPath
  }

  /** The host's own routes answer if they can, then the default ones. */
  ghost predicate HostsAnswer(options: Options, attempts: seq<Attempt>, req: Request, path: string, raw: bool,
                              o: Outcome) {
    var own, shared := Site(attempts, req.host, options.ignoreCase), Site(attempts, "", options.ignoreCase);
    if req.host != "" && !SiteAnswers(own, options.strictSlash, raw, req.method_, path, None)
      then SiteAnswers(own, options.strictSlash, raw, req.method_, path, Some(o))
    else if !SiteAnswers(shared, options.strictSlash, raw, req.method_, path, None)
      then SiteAnswers(shared, options.strictSlash, raw, req.method_, path, Some(o))
    else o == NotFound
  }

  /** The answer to a request. */
  ghost predicate IsAnswerTo(options: Options, attempts: seq<Attempt>, req: Request, o: Outcome) {
    if |req.path| > 4096 then o == TooLong
    else if ByRawPath(options, req) then
      if |req.rawPath| > 4096 then o == TooLong else HostsAnswer(options, attempts, req, req.rawPath, true, o)
    else if Canonical(req.path) then HostsAnswer(options, attempts, req, req.path, false, o)
    else
      exists target ::
        && CanonicalFormOf(target, req.path)
        && o == if |target| > 4096 then TooLong else Redirect(target, false, RedirectCode(req.method_))
  }
}

/**
 The router and its tables as the objects of the source: registration updates the fields of one
 table in place, and what it does to the whole router is the function `Handle` on values.
 */
module RouterObject {
  import opened Base
  import opened Segments
  import opened Paths
  import opened Trie
  import opened Routes
  import opened Table
  import opened Dispatch
  import opened Registration

  class LiveTable {
    var roots: map<string, Node>
    var statics: map<string, map<string, Handler>>
    var staticAllow: map<string, string>
    var hasParams: map<string, bool>
    var anyParams: bool
    var hasTrailing: bool

    ghost function View(): RouteTable
      reads this
    {
      RouteTable(roots, statics, staticAllow, hasParams, anyParams, hasTrailing)
    }

    constructor ()
      ensures View() == NEW_TABLE
    {
      roots, statics, staticAllow, hasParams, anyParams, hasTrailing := map[], map[], map[], map[], false, false;
    }

    /** The part of handle that works on the table. */
    method Add(m: string, pattern: string, parts: seq<string>, handler: Handler, dynamic: bool)
      returns (error: Option<InsertError>)
      requires dynamic == AnyDynamic(parts)
      modifies this
      ensures TableUpdate(View(), error) == TableInsert(old(View()), m, Route(parts, pattern, handler))
    {
      error := InsertRoute(m, pattern, parts, handler, dynamic);
      if error.None? {
        if |pattern| > 1 && pattern[|pattern| - 1] == '/' {
          hasTrailing := true;
        }
        if dynamic {
          hasParams := hasParams[m := true];
          anyParams := true;
        } else {
          Index(m, pattern, handler);
        }
      }
    }

    /** The trie of the method, created when it is missing, takes the route. */
    method InsertRoute(m: string, pattern: string, parts: seq<string>, handler: Handler, dynamic: bool)
      returns (error: Option<InsertError>)
      requires dynamic == AnyDynamic(parts)
      modifies this`roots
      ensures var inserted := Register(RootOf(old(View()), m), Route(parts, pattern, handler));
              roots == old(roots)[m := inserted.node] && error == inserted.error
    {
      if m !in roots {
        roots := roots[m := EMPTY_ROOT];
      }
      var inserted := Insert(roots[m], pattern, parts, 0, Some(handler), dynamic);
      roots := roots[m := inserted.node];
      error := inserted.error;
    }

    /** A static route enters the index, and the Allow header of its path is computed again. */
    method Index(m: string, pattern: string, handler: Handler)
      modifies this`statics, this`staticAllow
      ensures statics == old(statics)[m := StaticsOf(old(View()), m)[pattern := handler]]
      ensures var allow := StaticAllow(statics, pattern);
              staticAllow == if allow.Some? then old(staticAllow)[pattern := allow.value] else old(staticAllow)
    {
      if m !in statics {
        statics := statics[m := map[]];
      }
      statics := statics[m := statics[m][pattern := handler]];
      var allow, ok := BuildStaticAllowHeader(statics, pattern);
      if ok {
        staticAllow := staticAllow[pattern := allow];
      }
    }
  }

  class LiveRouter {
    const table: LiveTable
    var hosts: map<string, LiveTable>
    var routesCount: nat
    var ignoreCaseSet: bool
    var ignoreCaseEnabled: bool
    var ignoreCase: bool
    var strictSlash: bool
    var useRawPath: bool

    /** No two hosts share a table. */
    ghost predicate Valid()
      reads this
    {
      && (forall h <- hosts :: hosts[h] != table)
      && (forall g <- hosts, h <- hosts | g != h :: hosts[g] != hosts[h])
    }

    ghost function View(): Router
      reads this, table, hosts.Values
    {
      Router(table.View(), map h | h in hosts :: hosts[h].View(),
             routesCount, ignoreCaseSet, ignoreCaseEnabled, ignoreCase, strictSlash, useRawPath)
    }

    constructor (ignoreCase: bool, strictSlash: bool, useRawPath: bool)
      ensures Valid() && View() == NewRouter(ignoreCase, strictSlash, useRawPath)
    {
      table := new LiveTable();
      hosts, routesCount, ignoreCaseSet, ignoreCaseEnabled := map[], 0, false, false;
      this.ignoreCase, this.strictSlash, this.useRawPath := ignoreCase, strictSlash, useRawPath;
    }

    method LockIgnoreCase() returns (fold: bool)
      requires Valid()
      modifies this`ignoreCaseSet, this`ignoreCaseEnabled
      ensures Valid() && View() == Registration.LockIgnoreCase(old(View()))
      ensures fold == Registration.LockIgnoreCase(old(View())).ignoreCaseEnabled
      ensures ignoreCaseSet && fold == IgnoreCaseActive(View()) == IgnoreCaseActive(old(View()))
    {
      if !ignoreCaseSet {
        ignoreCaseEnabled := ignoreCase;
        ignoreCaseSet := true;
      }
      fold := ignoreCaseEnabled;
    }

    /** tableForHostLocked: the table of a host, created when it is missing. */
    method TableForHost(host: string) returns (t: LiveTable)
      requires Valid()
      modifies this`hosts
      ensures Valid() && t.View() == TableAt(old(View()), host)
      ensures View() == WithTable(old(View()), host, t.View())
      ensures if host == "" then t == table else host in hosts && t == hosts[host]
      ensures t in old(hosts).Values || t == table || fresh(t)
    {
      if host == "" {
        return table;
      }
      if host in hosts {
        return hosts[host];
      }
      t := new LiveTable();
      hosts := hosts[host := t];
    }

    /** Work on one table leaves the other hosts as they were. */
    method AddTo(t: LiveTable, host: string, m: string, pattern: string, parts: seq<string>, handler: Handler,
                 dynamic: bool)
      returns (rejected: Option<InsertError>)
      requires Valid() && dynamic == AnyDynamic(parts)
      requires if host == "" then t == table else host in hosts && t == hosts[host]
      modifies t
      ensures TableUpdate(t.View(), rejected) == TableInsert(old(t.View()), m, Route(parts, pattern, handler))
      ensures View() == WithTable(old(View()), host, t.View())
    {
      rejected := t.Add(m, pattern, parts, handler, dynamic);
      ghost var views := map h | h in hosts :: hosts[h].View();
      assert views == if host == "" then old(View()).hosts else old(View()).hosts[host := t.View()];
    }

    /** The table update of handle. */
    method AddToHost(host: string, m: string, pattern: string, parts: seq<string>, handler: Handler, dynamic: bool)
      returns (rejected: Option<InsertError>)
      requires Valid() && dynamic == AnyDynamic(parts)
      modifies this`hosts, table, hosts.Values
      ensures Valid()
      ensures AddedToHost(old(View()), View(), host, m, Route(parts, pattern, handler), rejected)
    {
      ghost var before := View();
      var t := TableForHost(host);
      ghost var t0 := t.View();
      rejected := AddTo(t, host, m, pattern, parts, handler, dynamic);
      TwiceWithTable(before, host, t0, t.View());
    }

    /** The part of handle under the lock. */
    method Store(host: string, m: string, pattern: string, parts: seq<string>, handler: Handler, dynamic: bool)
      returns (error: Option<HandleError>)
      requires Valid() && dynamic == AnyDynamic(parts)
      modifies this`hosts, this`routesCount, table, hosts.Values
      ensures Valid()
      ensures Handled(View(), error) == Registration.Store(old(View()), host, m, Route(parts, pattern, handler))
    {
      ghost var before := View();
      var rejected := AddToHost(host, m, pattern, parts, handler, dynamic);
      StoreOfAdded(before, View(), host, m, Route(parts, pattern, handler), rejected);
      if rejected.Some? {
        return Some(Rejected(rejected.value));
      }
      CountRoute();
      error := None;
    }

    method CountRoute()
      requires Valid()
      modifies this`routesCount
      ensures Valid() && View() == old(View()).(routesCount := old(View()).routesCount + 1)
    {
      routesCount := routesCount + 1;
    }

    /** Router.handle: the error, and the router afterwards, are those of the function on values. */
    method Handle(host: string, m: string, pattern: string, handler: Option<Handler>)
      returns (error: Option<HandleError>)
      requires Valid()
      modifies this, table, hosts.Values
      ensures Valid()
      ensures Handled(View(), error) == Registration.Handle(old(View()), host, m, pattern, handler)
    {
      var parts;
      error, parts := CheckArguments(m, pattern, handler);
      if error.Some? {
        return;
      }
      error := HandleValid(host, m, pattern, parts, handler.value);
    }

    /** The part of handle behind the argument checks. */
    method HandleValid(host: string, m: string, pattern: string, parts: seq<string>, handler: Handler)
      returns (error: Option<HandleError>)
      requires Valid() && CleanPath(pattern) == pattern && parts == Parts(pattern, 0)
      modifies this, table, hosts.Values
      ensures Valid()
      ensures var locked := Registration.LockIgnoreCase(old(View()));
              Handled(View(), error) ==
                Registration.Store(locked, host, m, RouteFor(pattern, handler, locked.ignoreCaseEnabled))
    {
      var fold := LockIgnoreCase();
      var matchPattern, matchParts := MatchForm(pattern, parts, handler, fold);
      var dynamic := HasDynamic(matchParts);
      error := Store(host, m, matchPattern, matchParts, handler, dynamic);
    }
  }

  /** The pattern and the segments that are stored, folded when case is ignored. */
  method MatchForm(pattern: string, parts: seq<string>, ghost handler: Handler, fold: bool)
    returns (matchPattern: string, matchParts: seq<string>)
    requires CleanPath(pattern) == pattern && parts == Parts(pattern, 0)
    ensures Route(matchParts, matchPattern, handler) == RouteFor(pattern, handler, fold)
    ensures |matchParts| == |parts|
    ensures forall i | 0 <= i < |parts| ::
              matchParts[i] == if fold && !IsDynamic(parts[i]) then Lower(parts[i]) else parts[i]
  {
    matchPattern, matchParts := pattern, parts;
    if fold {
      matchParts := FoldAll(parts);
      if |matchParts| == 0 {
        CanonicalEnd(pattern);
        matchPattern := "/";
      } else {
        matchPattern := "/" + Join(matchParts);
        if |pattern| > 1 && pattern[|pattern| - 1] == '/' {
          matchPattern := matchPattern + "/";
        }
      }
    }
  }

  /** What AddToHost does to the router. */
  ghost predicate AddedToHost(r: Router, r': Router, host: string, m: string, route: Route,
                              rejected: Option<InsertError>) {
    var update := TableInsert(TableAt(r, host), m, route);
    r' == WithTable(r, host, update.table) && rejected == update.error
  }

  lemma StoreOfAdded(r: Router, r': Router, host: string, m: string, route: Route, rejected: Option<InsertError>)
    requires AddedToHost(r, r', host, m, route, rejected)
    ensures Registration.Store(r, host, m, route) ==
      if rejected.Some? then Handled(r', Some(Rejected(rejected.value)))
      else Handled(r'.(routesCount := r'.routesCount + 1), None)
  {
  }

  lemma TwiceWithTable(r: Router, host: string, t: RouteTable, u: RouteTable)
    ensures WithTable(WithTable(r, host, t), host, u) == WithTable(r, host, u)
  {
    assert r.hosts[host := t][host := u] == r.hosts[host := u];
  }

  /** The checks at the head of handle, and the segments of a pattern that passes. */
  method CheckArguments(m: string, pattern: string, handler: Option<Handler>)
    returns (error: Option<HandleError>, parts: seq<string>)
    ensures error == ArgumentError(m, pattern, handler)
    ensures error.None? ==> parts == Parts(pattern, 0)
  {
    parts := [];
    if handler.None? {
      error := Some(HandleError.NilHandler);
    } else if !IsValidMethod(m) {
      error := Some(UnsupportedMethod);
    } else if CleanPath(pattern) != pattern {
      error := Some(NonCanonical);
    } else if |pattern| > MAX_PATH_LENGTH {
      error := Some(PatternTooLong);
    } else {
      var segs, ok := GetPartsWithRaw(pattern, pattern);
      if !ok {
        error := Some(InvalidPattern);
      } else if |segs.parts| > MAX_DEPTH {
        error := Some(RouteTooDeep);
      } else {
        var named := ValidateParamNames(segs.parts);
        parts := segs.parts;
        error := if named then None else Some(BadParamNames);
      }
    }
  }

  /** The case folding of the literal segments. */
  method FoldAll(parts: seq<string>) returns (matchParts: seq<string>)
    ensures matchParts == FoldParts(parts)
  {
    matchParts := [];
    for i := 0 to |parts|
      invariant matchParts == FoldParts(parts)[..i]
    {
      if |parts[i]| > 0 && (parts[i][0] == ':' || parts[i][0] == '*') {
        matchParts := matchParts + [parts[i]];
      } else {
        var low := LowerASCII(parts[i]);
        matchParts := matchParts + [low];
      }
    }
  }

  method HasDynamic(parts: seq<string>) returns (dynamic: bool)
    ensures dynamic <==> AnyDynamic(parts)
  {
    for i := 0 to |parts|
      invariant forall k | 0 <= k < i :: !IsDynamic(parts[k])
    {
      if |parts[i]| > 0 && (parts[i][0] == ':' || parts[i][0] == '*') {
        return true;
      }
    }
    return false;
  }
}

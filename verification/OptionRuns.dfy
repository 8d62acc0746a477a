/**
 Runs in which the program also writes the options of the router between registrations: what the
 latch on case sensitivity protects, and why only the final values of the other options matter.
 */
module OptionRuns {
  import opened Base
  import opened Routes
  import opened Allow
  import opened Table
  import opened Dispatch
  import opened Registration
  import opened RouterRuns

  datatype Op =
    | Register(attempt: Attempt)
    | SetIgnoreCase(on: bool)
    | SetStrictSlash(on: bool)
    | SetUseRawPath(on: bool)

  ghost function Apply(r: Router, op: Op): Router {
    match op
    case Register(a) => Perform(r, a).router
    case SetIgnoreCase(on) => r.(ignoreCase := on)
    case SetStrictSlash(on) => r.(strictSlash := on)
    case SetUseRawPath(on) => r.(useRawPath := on)
  }

  ghost function ApplyAll(r: Router, ops: seq<Op>): Router {
    if ops == [] then r else Apply(ApplyAll(r, ops[..|ops| - 1]), ops[|ops| - 1])
  }

  function Registrations(ops: seq<Op>): seq<Attempt> {
    if ops == [] then []
    else
      var last := ops[|ops| - 1];
      Registrations(ops[..|ops| - 1]) + if last.Register? then [last.attempt] else []
  }

  /** The last values written. */
  function IgnoreCaseAfter(initial: bool, ops: seq<Op>): bool {
    if ops == [] then initial
    else
      var last := ops[|ops| - 1];
      if last.SetIgnoreCase? then last.on else IgnoreCaseAfter(initial, ops[..|ops| - 1])
  }

  function StrictSlashAfter(initial: bool, ops: seq<Op>): bool {
    if ops == [] then initial
    else
      var last := ops[|ops| - 1];
      if last.SetStrictSlash? then last.on else StrictSlashAfter(initial, ops[..|ops| - 1])
  }

  function UseRawPathAfter(initial: bool, ops: seq<Op>): bool {
    if ops == [] then initial
    else
      var last := ops[|ops| - 1];
      if last.SetUseRawPath? then last.on else UseRawPathAfter(initial, ops[..|ops| - 1])
  }

  /** The case sensitivity in force at the first registration whose arguments pass; it is never changed again. */
  ghost function Latched(initial: bool, ops: seq<Op>): Option<bool> {
    if ops == [] then None
    else
      var before, last := ops[..|ops| - 1], ops[|ops| - 1];
      if Latched(initial, before).Some? then Latched(initial, before)
      else if last.Register?
           && ArgumentError(last.attempt.method_, last.attempt.pattern, last.attempt.handler).None? then
        Some(IgnoreCaseAfter(initial, before))
      else None
  }

  /** The case sensitivity that requests are dispatched with. */
  ghost function Folding(initial: bool, ops: seq<Op>): bool {
    if Latched(initial, ops).Some? then Latched(initial, ops).value else IgnoreCaseAfter(initial, ops)
  }

  // ---------------------------------------------------------------- the options of a run

  lemma PerformLatches(r: Router, a: Attempt)
    ensures var r' := Perform(r, a).router;
            && r'.ignoreCase == r.ignoreCase && r'.strictSlash == r.strictSlash && r'.useRawPath == r.useRawPath
            && IgnoreCaseActive(r') == IgnoreCaseActive(r)
            && (r'.ignoreCaseSet <==> r.ignoreCaseSet || ArgumentError(a.method_, a.pattern, a.handler).None?)
  {
    if ArgumentError(a.method_, a.pattern, a.handler).None? {
      var locked := LockIgnoreCase(r);
      StoreKeepsOptions(locked, a.host, a.method_, RouteFor(a.pattern, a.handler.value, locked.ignoreCaseEnabled));
    }
  }

  /** The router has the options that these operations leave. */
  ghost predicate HasOptions(r: Router, ignoreCase: bool, strictSlash: bool, useRawPath: bool, ops: seq<Op>) {
    && r.ignoreCase == IgnoreCaseAfter(ignoreCase, ops) && r.strictSlash == StrictSlashAfter(strictSlash, ops)
    && r.useRawPath == UseRawPathAfter(useRawPath, ops)
    && (r.ignoreCaseSet <==> Latched(ignoreCase, ops).Some?) && IgnoreCaseActive(r) == Folding(ignoreCase, ops)
  }

  lemma OptionsStep(r: Router, ignoreCase: bool, strictSlash: bool, useRawPath: bool, before: seq<Op>, last: Op)
    requires HasOptions(r, ignoreCase, strictSlash, useRawPath, before)
    ensures HasOptions(Apply(r, last), ignoreCase, strictSlash, useRawPath, before + [last])
  {
    assert (before + [last])[..|before|] == before;
    if last.Register? {
      PerformLatches(r, last.attempt);
    }
  }

  lemma ApplyKeepsRouter(r: Router, op: Op)
    requires RouterOk(r)
    ensures RouterOk(Apply(r, op))
  {
    if op.Register? {
      HandleKeepsRouter(r, op.attempt.host, op.attempt.method_, op.attempt.pattern, op.attempt.handler);
    }
  }

  lemma {:induction false} OptionsAfter(ignoreCase: bool, strictSlash: bool, useRawPath: bool, ops: seq<Op>)
    ensures HasOptions(ApplyAll(NewRouter(ignoreCase, strictSlash, useRawPath), ops),
                       ignoreCase, strictSlash, useRawPath, ops)
    ensures RouterOk(ApplyAll(NewRouter(ignoreCase, strictSlash, useRawPath), ops))
    decreases |ops|
  {
    if ops == [] {
      NewTableOk();
    } else {
      var before, last := ops[..|ops| - 1], ops[|ops| - 1];
      var r := ApplyAll(NewRouter(ignoreCase, strictSlash, useRawPath), before);
      OptionsAfter(ignoreCase, strictSlash, useRawPath, before);
      OptionsStep(r, ignoreCase, strictSlash, useRawPath, before, last);
      ApplyKeepsRouter(r, last);
      assert ops == before + [last];
    }
  }

  lemma LatchedStep(initial: bool, before: seq<Op>, last: Op)
    requires Latched(initial, before).Some?
    ensures Latched(initial, before + [last]) == Latched(initial, before)
  {
    assert (before + [last])[..|before|] == before;
  }

  /** Once set, the latch holds whatever is written afterwards. */
  lemma {:induction false} LatchHolds(initial: bool, ops: seq<Op>, more: seq<Op>)
    requires Latched(initial, ops).Some?
    ensures Latched(initial, ops + more) == Latched(initial, ops)
    decreases |more|
  {
    if more == [] {
      assert ops + more == ops;
    } else {
      var init, last := more[..|more| - 1], more[|more| - 1];
      assert ops + more == (ops + init) + [last];
      LatchHolds(initial, ops, init);
      LatchedStep(initial, ops + init, last);
    }
  }

  /** So no later write to any option changes the case sensitivity of a router that has taken a registration. */
  lemma CaseFixedForever(ignoreCase: bool, strictSlash: bool, useRawPath: bool, ops: seq<Op>, more: seq<Op>)
    ensures var r0 := NewRouter(ignoreCase, strictSlash, useRawPath);
            ApplyAll(r0, ops).ignoreCaseSet ==>
              && ApplyAll(r0, ops + more).ignoreCaseSet
              && IgnoreCaseActive(ApplyAll(r0, ops + more)) == IgnoreCaseActive(ApplyAll(r0, ops))
  {
    OptionsAfter(ignoreCase, strictSlash, useRawPath, ops);
    OptionsAfter(ignoreCase, strictSlash, useRawPath, ops + more);
    if Latched(ignoreCase, ops).Some? {
      LatchHolds(ignoreCase, ops, more);
    }
  }

  // ---------------------------------------------------------------- the tries of a run

  lemma {:induction false} NothingBeforeLatch(initial: bool, ops: seq<Op>, host: string, m: string, fold: bool)
    requires Latched(initial, ops).None?
    ensures RoutesFor(Registrations(ops), host, m, fold) == []
    decreases |ops|
  {
    if ops != [] {
      var before, last := ops[..|ops| - 1], ops[|ops| - 1];
      NothingBeforeLatch(initial, before, host, m, fold);
      if last.Register? {
        RoutesForSnoc(Registrations(before), last.attempt, host, m, fold);
      } else {
        assert Registrations(ops) == Registrations(before);
      }
    }
  }

  /** An operation that changes the folding comes before any route. */
  lemma SameFoldedRoutes(initial: bool, before: seq<Op>, last: Op, host: string, m: string)
    ensures var ops := before + [last];
            RoutesFor(Registrations(ops), host, m, Folding(initial, ops)) ==
            RoutesFor(Registrations(ops), host, m, Folding(initial, before))
  {
    var ops := before + [last];
    assert ops[..|ops| - 1] == before;
    if Latched(initial, before).None? && last.SetIgnoreCase? {
      NothingBeforeLatch(initial, ops, host, m, Folding(initial, ops));
      NothingBeforeLatch(initial, ops, host, m, Folding(initial, before));
    }
  }

  lemma RegistrationsSnoc(before: seq<Op>, last: Op)
    ensures Registrations(before + [last]) == Registrations(before) + if last.Register? then [last.attempt] else []
  {
    assert (before + [last])[..|before|] == before;
  }

  /** One operation, for a fixed case sensitivity. */
  lemma RootStep(r: Router, before: seq<Attempt>, last: Op, fold: bool, host: string, m: string)
    requires IgnoreCaseActive(r) == fold && RootOf(TableAt(r, host), m) == Build(RoutesFor(before, host, m, fold))
    ensures RootOf(TableAt(Apply(r, last), host), m) ==
            Build(RoutesFor(before + if last.Register? then [last.attempt] else [], host, m, fold))
  {
    if last.Register? {
      var a, routes := last.attempt, RoutesFor(before, host, m, fold);
      PerformRoots(r, a, host, m, fold);
      RoutesForSnoc(before, a, host, m, fold);
      if PassesTo(a, host, m) {
        BuildSnoc(routes, RouteFor(a.pattern, a.handler.value, fold));
      } else {
        assert routes + [] == routes;
      }
    } else {
      assert before + [] == before;
    }
  }

  /** Every trie is the one its routes build, all of them folded as the latch says. */
  lemma {:induction false} OpsBuild(ignoreCase: bool, strictSlash: bool, useRawPath: bool, ops: seq<Op>, host: string,
                                    m: string)
    ensures RootOf(TableAt(ApplyAll(NewRouter(ignoreCase, strictSlash, useRawPath), ops), host), m) ==
            Build(RoutesFor(Registrations(ops), host, m, Folding(ignoreCase, ops)))
    decreases |ops|
  {
    if ops != [] {
      var before, last := ops[..|ops| - 1], ops[|ops| - 1];
      var r := ApplyAll(NewRouter(ignoreCase, strictSlash, useRawPath), before);
      OpsBuild(ignoreCase, strictSlash, useRawPath, before, host, m);
      OptionsAfter(ignoreCase, strictSlash, useRawPath, before);
      assert ops == before + [last];
      RootStep(r, Registrations(before), last, Folding(ignoreCase, before), host, m);
      RegistrationsSnoc(before, last);
      SameFoldedRoutes(ignoreCase, before, last, host, m);
    }
  }

  /**
   However a program interleaves registrations with writes to the options, it ends with a router that
   answers every request like one created with the case sensitivity the latch caught and the final
   values of the other options. What holds after runs of registrations therefore holds after these runs.
   */
  lemma OptionsAsIfFirst(ignoreCase: bool, strictSlash: bool, useRawPath: bool, ops: seq<Op>, req: Request)
    ensures var created :=
              NewRouter(Folding(ignoreCase, ops), StrictSlashAfter(strictSlash, ops), UseRawPathAfter(useRawPath, ops));
            ServeHTTP(ApplyAll(NewRouter(ignoreCase, strictSlash, useRawPath), ops), req) ==
            ServeHTTP(HandleAll(created, Registrations(ops)), req)
  {
    var fold, strict := Folding(ignoreCase, ops), StrictSlashAfter(strictSlash, ops);
    var raw := UseRawPathAfter(useRawPath, ops);
    var r := ApplyAll(NewRouter(ignoreCase, strictSlash, useRawPath), ops);
    var q := HandleAll(NewRouter(fold, strict, raw), Registrations(ops));
    OptionsAfter(ignoreCase, strictSlash, useRawPath, ops);
    RunBuilds(fold, strict, raw, Registrations(ops), "", GET);
    ReachableRouterOk(fold, strict, raw, Registrations(ops));
    forall host, m
      ensures RootOf(TableAt(r, host), m) == RootOf(TableAt(q, host), m)
    {
      OpsBuild(ignoreCase, strictSlash, useRawPath, ops, host, m);
      RunBuilds(fold, strict, raw, Registrations(ops), host, m);
    }
    SameTriesSameDispatch(r, q, req);
  }
}

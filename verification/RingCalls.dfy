/**
 What one TryWrite returns, over every interleaving: true exactly when it has reserved its event, once
 and in that call; false only for a closed ring or a failed capacity test.
 */
module RingCalls {
  import opened Base
  import opened RingIndex
  import opened Ring
  import opened RingInvariant
  import opened RingRuns

  /** `p` is in a call for `e`, or has returned from it; `before` are its events reserved earlier. */
  ghost predicate InCall(s: State, p: nat, e: LogEvent, before: seq<LogEvent>) {
    && p in s.producers
    && match s.producers[p]
       case Idle(result) => result.Some? && Sent(s.accepted, p) == before + if result.value then [e] else []
       case Enter(x) => x == e && Sent(s.accepted, p) == before
       case LoadHead(x) => x == e && Sent(s.accepted, p) == before
       case LoadTail(x, _) => x == e && Sent(s.accepted, p) == before
       case Swap(x, _, _) => x == e && Sent(s.accepted, p) == before
       case Await(x, _) => x == e && Sent(s.accepted, p) == before + [e]
       case Mark(x, _) => x == e && Sent(s.accepted, p) == before + [e]
       case Fill(x, _) => x == e && Sent(s.accepted, p) == before + [e]
       case Publish(x, _) => x == e && Sent(s.accepted, p) == before + [e]
  }

  lemma SentSnoc(accepted: seq<(nat, LogEvent)>, q: nat, e: LogEvent, p: nat)
    ensures Sent(accepted + [(q, e)], p) == Sent(accepted, p) + if q == p then [e] else []
  {
    assert (accepted + [(q, e)])[..|accepted|] == accepted;
  }

  lemma ReserveInCall(s: State, p: nat, e: LogEvent, before: seq<LogEvent>)
    requires Shaped(s) && InCall(s, p, e, before) && !s.producers[p].InFlight()
    ensures InCall(Reserve(s, p), p, e, before)
  {
    if s.producers[p].Swap? {
      SentSnoc(s.accepted, p, e, p);
    }
  }

  lemma FulfilInCall(s: State, p: nat, e: LogEvent, before: seq<LogEvent>)
    requires Shaped(s) && InCall(s, p, e, before) && s.producers[p].InFlight()
    ensures InCall(Fulfil(s, p), p, e, before)
  {
  }

  /** The steps of the others change neither. */
  lemma OtherInCall(s: State, q: nat, p: nat, e: LogEvent, before: seq<LogEvent>)
    requires Shaped(s) && InCall(s, p, e, before) && q != p
    ensures InCall(Produce(s, q), p, e, before)
  {
    var s' := Produce(s, q);
    OtherReserves(s, q, p);
    assert s'.producers[p] == s.producers[p];
  }

  lemma OtherReserves(s: State, q: nat, p: nat)
    requires Shaped(s) && q != p && p in s.producers
    ensures p in Produce(s, q).producers && Produce(s, q).producers[p] == s.producers[p]
    ensures Sent(Produce(s, q).accepted, p) == Sent(s.accepted, p)
  {
    if q in s.producers {
      if s.producers[q].InFlight() {
        assert Fulfil(s, q).accepted == s.accepted && Fulfil(s, q).producers[p] == s.producers[p];
      } else {
        OtherLoads(s, q, p);
      }
    }
  }

  lemma OtherLoads(s: State, q: nat, p: nat)
    requires Shaped(s) && q != p && p in s.producers && q in s.producers && !s.producers[q].InFlight()
    ensures p in Reserve(s, q).producers && Reserve(s, q).producers[p] == s.producers[p]
    ensures Sent(Reserve(s, q).accepted, p) == Sent(s.accepted, p)
  {
    if s.producers[q].Swap? {
      SentSnoc(s.accepted, q, s.producers[q].event, p);
    }
  }

  ghost predicate OwnCall(a: Action, p: nat) {
    a.Call? && a.p == p
  }

  lemma InCallStep(s: State, a: Action, p: nat, e: LogEvent, before: seq<LogEvent>)
    requires Shaped(s) && InCall(s, p, e, before) && !OwnCall(a, p)
    ensures InCall(Step(s, a), p, e, before)
  {
    match a
    case Call(_, _) =>
    case Act(q) =>
      if q != p {
        OtherInCall(s, q, p, e, before);
      } else if s.producers[p].InFlight() {
        FulfilInCall(s, p, e, before);
      } else {
        ReserveInCall(s, p, e, before);
      }
    case Advance => assert Consume(s).producers == s.producers && Consume(s).accepted == s.accepted;
    case Close =>
  }

  lemma {:induction false} InCallRun(s: State, actions: seq<Action>, p: nat, e: LogEvent, before: seq<LogEvent>)
    requires Shaped(s) && InCall(s, p, e, before) && forall a <- actions :: !OwnCall(a, p)
    ensures InCall(Run(s, actions), p, e, before)
    decreases |actions|
  {
    if actions != [] {
      InCallStep(s, actions[0], p, e, before);
      InCallRun(Step(s, actions[0]), actions[1..], p, e, before);
    }
  }

  /**
   From any state, whatever the others do: when the call of an idle producer has returned, it has
   reserved its event exactly once if the result is true, and nothing if it is false.
   */
  lemma CallReserves(s: State, p: nat, e: LogEvent, during: seq<Action>)
    requires Shaped(s) && p in s.producers && s.producers[p].Idle?
    requires forall a <- during :: !OwnCall(a, p)
    ensures var s' := Run(Step(s, Call(p, e)), during);
            && p in s'.producers
            && (s'.producers[p].Idle? ==>
                  && s'.producers[p].result.Some?
                  && Sent(s'.accepted, p) == Sent(s.accepted, p) + if s'.producers[p].result.value then [e] else [])
  {
    InCallRun(Step(s, Call(p, e)), during, p, e, Sent(s.accepted, p));
  }

  // ---------------------------------------------------------------- when the result is false

  /** A call on a closed ring: not begun, or refused. */
  ghost predicate Hopeless(s: State, p: nat, e: LogEvent) {
    s.closed && p in s.producers && (s.producers[p] == Enter(e) || s.producers[p] == Idle(Some(false)))
  }

  lemma HopelessStep(s: State, a: Action, p: nat, e: LogEvent)
    requires Shaped(s) && Hopeless(s, p, e) && !OwnCall(a, p)
    ensures Hopeless(Step(s, a), p, e) && (a == Act(p) ==> Step(s, a).producers[p] == Idle(Some(false)))
    ensures s.producers[p].Idle? ==> Step(s, a).producers[p] == Idle(Some(false))
  {
    match a
    case Call(_, _) =>
    case Act(q) =>
      if q != p {
        OtherReserves(s, q, p);
        StaysClosed(s, q);
      }
    case Advance => assert Consume(s).producers == s.producers && Consume(s).closed == s.closed;
    case Close =>
  }

  lemma StaysClosed(s: State, q: nat)
    requires Shaped(s)
    ensures Produce(s, q).closed == s.closed
  {
  }

  lemma {:induction false} HopelessRun(s: State, actions: seq<Action>, p: nat, e: LogEvent)
    requires Shaped(s) && Hopeless(s, p, e) && forall a <- actions :: !OwnCall(a, p)
    ensures Hopeless(Run(s, actions), p, e)
    ensures Act(p) in actions || s.producers[p].Idle? ==> Run(s, actions).producers[p] == Idle(Some(false))
    decreases |actions|
  {
    if actions != [] {
      HopelessStep(s, actions[0], p, e);
      HopelessRun(Step(s, actions[0]), actions[1..], p, e);
    }
  }

  /** A call that starts after Close returns false, with its first step, and reserves nothing. */
  lemma CallAfterClose(s: State, p: nat, e: LogEvent, during: seq<Action>)
    requires Shaped(s) && s.closed && p in s.producers && s.producers[p].Idle?
    requires forall a <- during :: !OwnCall(a, p)
    ensures var s' := Run(Step(s, Call(p, e)), during);
            && p in s'.producers && Sent(s'.accepted, p) == Sent(s.accepted, p)
            && (Act(p) in during ==> s'.producers[p] == Idle(Some(false)))
            && (Act(p) !in during ==> s'.producers[p] != Idle(Some(true)))
  {
    HopelessRun(Step(s, Call(p, e)), during, p, e);
    InCallRun(Step(s, Call(p, e)), during, p, e, Sent(s.accepted, p));
  }

  /**
   The steps that return false, exactly: the check of the closed flag on a closed ring, and a capacity
   test that finds the ring full or its loaded head behind the tail.
   */
  lemma FalseExactly(s: State, a: Action, p: nat)
    requires Inv(s) && p in s.producers
    ensures ReturnsNow(s, a, p, false) <==>
            && a == Act(p)
            && ((s.producers[p].Enter? && s.closed) ||
                (s.producers[p].LoadTail? &&
                 var h := s.producers[p].head;
                 (h == s.head == s.tail + s.cap) || 0 < s.tail - h <= TWO64 - s.cap))
  {
    if a == Act(p) && s.producers[p].LoadTail? {
      RefusalExplained(s, p);
    } else {
      OtherSteps(s, a, p);
    }
  }

  lemma OtherSteps(s: State, a: Action, p: nat)
    requires Shaped(s) && p in s.producers && !(a == Act(p) && s.producers[p].LoadTail?)
    ensures ReturnsNow(s, a, p, false) <==> a == Act(p) && s.producers[p].Enter? && s.closed
  {
    match a
    case Call(_, _) =>
    case Act(q) =>
      if q != p {
        OtherReserves(s, q, p);
      }
    case Advance => assert Consume(s).producers == s.producers;
    case Close =>
  }
}

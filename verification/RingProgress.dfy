/**
 Progress on a ring in use: a published event at the read position is delivered within a bounded number
 of the consumer's own steps, open or closed, whatever the producers do meanwhile.
 */
module RingProgress {
  import opened RingIndex
  import opened Ring
  import opened RingInvariant
  import opened RingRuns

  /** The index at the read position is reserved and no producer holds it any more. */
  ghost predicate Published(s: State) {
    s.tail < s.head && s.tail !in s.owner
  }

  /** How many steps the consumer needs at most to release it. */
  function Wait(s: State): nat
    requires s.cap > 0 && Indices(s)
  {
    match s.consumer
    case Returned => 0
    case Commit(n, i) => n - i + 1
    case Second(_) => s.cap + 2
    case First(_) => s.cap + 3
    case Peek(n) => 2 * s.cap + 4 - n
    case Test => 2 * s.cap + 5
    case ExitHead(_) => 2 * s.cap + 6
    case ExitTail => 2 * s.cap + 7
    case Top => 2 * s.cap + 8
    case Start => 2 * s.cap + 9
    case Recheck => 2 * s.cap + 9
  }

  lemma PublishedReady(s: State)
    requires Inv(s) && Published(s) && Emptied(s.consumer) == 0
    ensures s.slots[MaskedSlot(s.curr, s.cap)] == Ready
  {
    assert SlotOk(s, s.tail);
  }

  /** What a step of the consumer, or of anyone else, leaves: the event released, or still waited for, by less. */
  ghost predicate Nearer(s: State, s': State, steps: nat)
    requires s.cap > 0 && s'.cap > 0 && Indices(s) && Indices(s')
  {
    s'.tail > s.tail ||
    (s'.tail == s.tail && Published(s') && !s'.consumer.Returned? && Wait(s') + steps <= Wait(s))
  }

  lemma ConsumeControl(s: State)
    requires Shaped(s) && Indices(s) && Closing(s) && Published(s) && !s.consumer.Returned? && Indices(Consume(s))
    requires Claimed(s.consumer) == 0 && !s.consumer.Peek? && s.slots[MaskedSlot(s.curr, s.cap)] == Ready
    ensures Nearer(s, Consume(s), 1)
  {
  }

  lemma ConsumeBatch(s: State)
    requires Shaped(s) && Indices(s) && Published(s) && Indices(Consume(s))
    requires Claimed(s.consumer) > 0 || s.consumer.Peek?
    requires s.consumer == Peek(0) ==> s.slots[MaskedSlot(s.curr, s.cap)] == Ready
    ensures Nearer(s, Consume(s), 1)
  {
    if s.consumer.Commit? {
      CommitReleases(s);
    } else if s.consumer == Peek(0) {
      assert Consume(s).consumer == Peek(1);
    }
  }

  lemma CommitReleases(s: State)
    requires Shaped(s) && Indices(s) && Published(s) && s.consumer.Commit? && Indices(Consume(s))
    ensures Nearer(s, Consume(s), 1)
  {
    var n, i := s.consumer.available, s.consumer.done;
    if i == n {
      assert s.curr + n < TWO64;
      assert Consume(s).tail == s.tail + n;
    }
  }

  lemma ConsumeNearer(s: State)
    requires Inv(s) && Published(s) && !s.consumer.Returned?
    ensures Inv(Consume(s)) && Nearer(s, Consume(s), 1)
  {
    ConsumeKeeps(s);
    if Emptied(s.consumer) == 0 {
      PublishedReady(s);
    }
    if Claimed(s.consumer) > 0 || s.consumer.Peek? {
      ConsumeBatch(s);
    } else {
      ConsumeControl(s);
    }
  }

  /** Producers reserve at the head and give up their own indices; they do not touch the read position. */
  lemma ProduceNearer(s: State, p: nat)
    requires Shaped(s) && Indices(s) && Published(s) && !s.consumer.Returned? && Indices(Produce(s, p))
    ensures Nearer(s, Produce(s, p), 0)
  {
    var s' := Produce(s, p);
    ProduceReads(s, p);
    assert Published(s');
  }

  lemma ProduceReads(s: State, p: nat)
    requires Shaped(s)
    ensures var s' := Produce(s, p);
            && s'.tail == s.tail && s'.curr == s.curr && s'.consumer == s.consumer && s'.cap == s.cap
            && forall j | j in s'.owner :: j in s.owner || j == s.head
  {
    if p in s.producers {
      if s.producers[p].InFlight() {
        assert Fulfil(s, p).owner.Keys <= s.owner.Keys;
      }
    }
  }

  lemma StepNearer(s: State, a: Action)
    requires Inv(s) && Published(s) && !s.consumer.Returned? && |Step(s, a).accepted| < TWO64
    ensures Inv(Step(s, a)) && Nearer(s, Step(s, a), if a == Advance then 1 else 0)
  {
    StepKeeps(s, a);
    if a == Advance {
      ConsumeNearer(s);
    } else {
      OthersNearer(s, a);
    }
  }

  lemma OthersNearer(s: State, a: Action)
    requires Inv(s) && Inv(Step(s, a)) && Published(s) && !s.consumer.Returned? && a != Advance
    ensures Nearer(s, Step(s, a), 0)
  {
    match a
    case Call(p, e) => UnmovedNearer(s, Begin(s, p, e));
    case Act(p) => HeadStays(s, p); ProduceNearer(s, p);
    case Close => UnmovedNearer(s, s.(closed := true));
  }

  lemma UnmovedNearer(s: State, s': State)
    requires s.cap > 0 && s'.cap == s.cap && Indices(s) && Indices(s') && Published(s) && !s.consumer.Returned?
    requires s'.head == s.head && s'.tail == s.tail && s'.owner == s.owner && s'.consumer == s.consumer
    ensures Nearer(s, s', 0)
  {
  }

  lemma HeadStays(s: State, p: nat)
    requires Inv(s) && Inv(Produce(s, p))
    ensures s.head <= Produce(s, p).head
  {
    ProduceGrows(s, p);
  }

  lemma TailStep(s: State, a: Action)
    requires Inv(s) && Inv(Step(s, a))
    ensures s.tail <= Step(s, a).tail
  {
    match a
    case Call(_, _) =>
    case Act(p) => ProduceReads(s, p);
    case Advance => ConsumeTail(s);
    case Close =>
  }

  lemma ConsumeTail(s: State)
    requires Shaped(s) && Indices(s)
    ensures s.tail <= Consume(s).tail
  {
    if s.consumer.Commit? && s.consumer.done == s.consumer.available {
      assert s.curr + s.consumer.available < TWO64;
    }
  }

  lemma {:induction false} TailGrows(s: State, actions: seq<Action>)
    requires Inv(s) && |Run(s, actions).accepted| < TWO64
    ensures s.tail <= Run(s, actions).tail
    decreases |actions|
  {
    if actions != [] {
      RunGrows(Step(s, actions[0]), actions[1..]);
      StepKeeps(s, actions[0]);
      TailStep(s, actions[0]);
      TailGrows(Step(s, actions[0]), actions[1..]);
    }
  }

  /** Whatever the interleaving, the read position has moved once the consumer has made that many steps. */
  lemma {:induction false} ReleasedWithin(s: State, actions: seq<Action>)
    requires Inv(s) && Published(s) && !s.consumer.Returned? && |Run(s, actions).accepted| < TWO64
    requires Advances(actions) >= Wait(s)
    ensures Run(s, actions).tail > s.tail
    decreases |actions|
  {
    assert actions != [];
    var s' := Step(s, actions[0]);
    RunGrows(s', actions[1..]);
    AdvancesSplit(actions);
    StepNearer(s, actions[0]);
    if s'.tail > s.tail {
      TailGrows(s', actions[1..]);
    } else {
      ReleasedWithin(s', actions[1..]);
    }
  }

  /**
   In every run: an event published at the read position, while Consume has not returned, is delivered
   by the time the consumer has made 2 * cap + 9 more steps, whatever the producers and Close do.
   */
  lemma PublishedIsDelivered(cap: nat, producers: set<nat>, before: seq<Action>, after: seq<Action>)
    requires CapacityAccepted(cap) && |Run(Run(NewRing(cap, producers), before), after).accepted| < TWO64
    requires var s := Run(NewRing(cap, producers), before); Published(s) && !s.consumer.Returned?
    requires Advances(after) >= 2 * cap + 9
    ensures var s := Run(NewRing(cap, producers), before);
            var s' := Run(s, after);
            && s.tail < |s'.delivered| && s.tail < |s.accepted|
            && s'.delivered[s.tail] == s.accepted[s.tail].1
  {
    var s0 := NewRing(cap, producers);
    var s := Run(s0, before);
    InitialInv(cap, producers);
    RunGrows(s, after);
    RunKeeps(s0, before);
    RunKeeps(s, after);
    CapFixed(s0, before);
    WaitBounded(s);
    ReleasedWithin(s, after);
    ReleasedIsDelivered(s, Run(s, after));
  }

  lemma WaitBounded(s: State)
    requires s.cap > 0 && Indices(s)
    ensures Wait(s) <= 2 * s.cap + 9
  {
  }

  lemma ReleasedIsDelivered(s: State, s': State)
    requires Inv(s) && Inv(s') && s.tail < s.head && s.tail < s'.tail && s.accepted <= s'.accepted
    ensures s.tail < |s'.delivered| && s.tail < |s.accepted| && s'.delivered[s.tail] == s.accepted[s.tail].1
  {
  }
}

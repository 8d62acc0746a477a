/**
 What holds over whole runs of the ring: order and exactly-once delivery, slot ownership,
 what a refused write means, and the drain after Close.
 */
module RingRuns {
  import opened Base
  import opened RingIndex
  import opened Ring
  import opened RingInvariant

  function Events(accepted: seq<(nat, LogEvent)>): (r: seq<LogEvent>)
    ensures |r| == |accepted|
    ensures forall k | 0 <= k < |r| :: r[k] == accepted[k].1
  {
    seq(|accepted|, k requires 0 <= k < |accepted| => accepted[k].1)
  }

  lemma StepKeeps(s: State, a: Action)
    requires Inv(s) && |Step(s, a).accepted| < TWO64
    ensures Inv(Step(s, a))
  {
    match a
    case Call(p, e) => BeginKeeps(s, p, e);
    case Act(p) =>
      if p in s.producers {
        if s.producers[p].InFlight() { FulfilKeeps(s, p); } else { ReserveKeeps(s, p); }
      }
    case Advance => ConsumeKeeps(s);
    case Close => CloseKeeps(s);
  }

  lemma CloseKeeps(s: State)
    requires Inv(s)
    ensures Inv(s.(closed := true))
  {
    var s' := s.(closed := true);
    forall q <- s'.producers
      ensures LocalOk(s', q)
    {
      assert LocalOk(s, q);
    }
    forall j <- s'.owner
      ensures OwnerOk(s', j)
    {
      assert OwnerOk(s, j);
    }
    forall j | s.tail + Emptied(s.consumer) <= j < s.tail + Emptied(s.consumer) + s.cap
      ensures SlotOk(s', j)
    {
      assert SlotOk(s, j);
    }
  }

  lemma AcceptedGrows(s: State, a: Action)
    requires Shaped(s)
    ensures s.accepted <= Step(s, a).accepted
  {
    match a
    case Call(_, _) =>
    case Act(p) => ProduceGrows(s, p);
    case Advance => assert Consume(s).accepted == s.accepted;
    case Close =>
  }

  lemma ProduceGrows(s: State, p: nat)
    requires Shaped(s)
    ensures s.accepted <= Produce(s, p).accepted
  {
    if p in s.producers && s.producers[p].InFlight() {
      assert Fulfil(s, p).accepted == s.accepted;
    }
  }

  lemma {:induction false} RunGrows(s: State, actions: seq<Action>)
    requires Shaped(s)
    ensures s.accepted <= Run(s, actions).accepted
    decreases |actions|
  {
    if actions != [] {
      AcceptedGrows(s, actions[0]);
      RunGrows(Step(s, actions[0]), actions[1..]);
    }
  }

  lemma {:induction false} RunKeeps(s: State, actions: seq<Action>)
    requires Inv(s) && |Run(s, actions).accepted| < TWO64
    ensures Inv(Run(s, actions))
    decreases |actions|
  {
    if actions != [] {
      RunGrows(Step(s, actions[0]), actions[1..]);
      StepKeeps(s, actions[0]);
      RunKeeps(Step(s, actions[0]), actions[1..]);
    }
  }

  // ---------------------------------------------------------------- order and exactly-once

  /**
   Whatever the interleaving, the handler has received exactly the first events of the
   reservation order, each once and unaltered.
   */
  lemma DeliveredInOrder(cap: nat, producers: set<nat>, actions: seq<Action>)
    requires CapacityAccepted(cap)
    requires |Run(NewRing(cap, producers), actions).accepted| < TWO64
    ensures var s := Run(NewRing(cap, producers), actions);
            |s.delivered| <= |s.accepted| && s.delivered == Events(s.accepted[..|s.delivered|])
  {
    InitialInv(cap, producers);
    RunKeeps(NewRing(cap, producers), actions);
  }

  /** With this step a TryWrite of `p` returns. */
  predicate ReturnsNow(s: State, a: Action, p: nat, result: bool)
    requires Shaped(s)
  {
    p in s.producers && !s.producers[p].Idle? && Step(s, a).producers[p] == Idle(Some(result))
  }

  /** The events of the calls of `p` that return true in a run, in order. */
  function Confirmed(s: State, actions: seq<Action>, p: nat): seq<LogEvent>
    requires Shaped(s)
    decreases |actions|
  {
    if actions == [] then []
    else
      (if ReturnsNow(s, actions[0], p, true) then [s.producers[p].event] else [])
      + Confirmed(Step(s, actions[0]), actions[1..], p)
  }

  lemma ConfirmedStep(s: State, a: Action, p: nat)
    requires Shaped(s) && p in s.producers
    ensures p in Step(s, a).producers
    ensures Step(s, a).wrote[p] == s.wrote[p] + if ReturnsNow(s, a, p, true) then [s.producers[p].event] else []
  {
    match a
    case Call(_, _) =>
    case Act(q) => if q in s.producers { ConfirmedProduce(s, q, p); }
    case Advance => assert Consume(s).producers == s.producers && Consume(s).wrote == s.wrote;
    case Close =>
  }

  lemma ConfirmedProduce(s: State, q: nat, p: nat)
    requires Shaped(s) && p in s.producers && q in s.producers
    ensures p in Produce(s, q).producers
    ensures Produce(s, q).wrote[p] == s.wrote[p] + if ReturnsNow(s, Act(q), p, true) then [s.producers[p].event] else []
  {
    if s.producers[q].InFlight() {
      ConfirmedFulfil(s, q, p);
    } else {
      ConfirmedReserve(s, q, p);
    }
  }

  lemma ConfirmedFulfil(s: State, q: nat, p: nat)
    requires Shaped(s) && p in s.producers && q in s.producers && s.producers[q].InFlight()
    ensures p in Fulfil(s, q).producers
    ensures var s' := Fulfil(s, q);
            s'.wrote[p] == s.wrote[p] +
              if !s.producers[p].Idle? && s'.producers[p] == Idle(Some(true)) then [s.producers[p].event] else []
  {
  }

  lemma ConfirmedReserve(s: State, q: nat, p: nat)
    requires Shaped(s) && p in s.producers && q in s.producers && !s.producers[q].InFlight()
    ensures p in Reserve(s, q).producers && Reserve(s, q).wrote == s.wrote
    ensures Reserve(s, q).producers[p] == Idle(Some(true)) ==> s.producers[p].Idle?
  {
  }

  /** The history of a producer is what its calls have confirmed. */
  lemma {:induction false} WroteIsConfirmed(s: State, actions: seq<Action>, p: nat)
    requires Shaped(s) && p in s.producers
    ensures p in Run(s, actions).producers && Run(s, actions).wrote[p] == s.wrote[p] + Confirmed(s, actions, p)
    decreases |actions|
  {
    if actions != [] {
      ConfirmedStep(s, actions[0], p);
      WroteIsConfirmed(Step(s, actions[0]), actions[1..], p);
    }
  }

  /**
   Per producer, the reservation order is the program order of its TryWrite calls: those that have
   returned true, and the one that holds a slot now, if any.
   */
  lemma ProgramOrderKept(cap: nat, producers: set<nat>, actions: seq<Action>, p: nat)
    requires CapacityAccepted(cap) && p in producers
    requires |Run(NewRing(cap, producers), actions).accepted| < TWO64
    ensures var s := Run(NewRing(cap, producers), actions);
            && p in s.producers && p in s.wrote && |s.delivered| <= |s.accepted|
            && s.wrote[p] == Confirmed(NewRing(cap, producers), actions, p)
            && Sent(s.accepted, p) == s.wrote[p] + Pending(s.producers[p])
            && Sent(s.accepted[..|s.delivered|], p) <= s.wrote[p] + Pending(s.producers[p])
  {
    InitialInv(cap, producers);
    RunKeeps(NewRing(cap, producers), actions);
    ProducersFixed(NewRing(cap, producers), actions);
    WroteIsConfirmed(NewRing(cap, producers), actions, p);
    var s := Run(NewRing(cap, producers), actions);
    SentPrefix(s.accepted, |s.delivered|, p);
  }

  lemma {:induction false} ProducersFixed(s: State, actions: seq<Action>)
    requires Shaped(s)
    ensures Run(s, actions).producers.Keys == s.producers.Keys
    decreases |actions|
  {
    if actions != [] {
      assert Step(s, actions[0]).producers.Keys == s.producers.Keys;
      ProducersFixed(Step(s, actions[0]), actions[1..]);
    }
  }

  lemma {:induction false} SentPrefix(accepted: seq<(nat, LogEvent)>, k: nat, p: nat)
    requires k <= |accepted|
    ensures Sent(accepted[..k], p) <= Sent(accepted, p)
  {
    if k < |accepted| {
      var init := accepted[..|accepted| - 1];
      assert init[..k] == accepted[..k];
      SentPrefix(init, k, p);
    } else {
      assert accepted[..k] == accepted;
    }
  }

  // ---------------------------------------------------------------- ownership

  /**
   The slot that `p` has reserved is not that of another producer in flight `q`, nor slot `i` of the
   batch the consumer reads, and it is empty when `p` comes to wait for it.
   */
  ghost predicate Exclusive(s: State, p: nat, q: nat, i: nat)
    requires Shaped(s) && p in s.producers && s.producers[p].InFlight()
  {
    && (q in s.producers && s.producers[q].InFlight() && p != q ==>
          MaskedSlot(s.producers[p].head, s.cap) != MaskedSlot(s.producers[q].head, s.cap))
    && (i < Claimed(s.consumer) ==> MaskedSlot(s.producers[p].head, s.cap) != MaskedSlot(s.curr + i, s.cap))
    && (s.producers[p].Await? ==> Produce(s, p).producers[p].Mark?)
  }

  /**
   In every reachable state: the ring never holds more than its capacity, producers in flight own
   distinct slots, none of them is in the batch the consumer reads, and a reserved slot is empty,
   so the wait for it never iterates.
   */
  lemma SlotsExclusive(cap: nat, producers: set<nat>, actions: seq<Action>, p: nat, q: nat, i: nat)
    requires CapacityAccepted(cap)
    requires |Run(NewRing(cap, producers), actions).accepted| < TWO64
    ensures var s := Run(NewRing(cap, producers), actions);
            && s.tail <= s.head <= s.tail + cap
            && s.cap == cap
            && (p in s.producers && s.producers[p].InFlight() ==> Exclusive(s, p, q, i))
  {
    InitialInv(cap, producers);
    RunKeeps(NewRing(cap, producers), actions);
    CapFixed(NewRing(cap, producers), actions);
    var s := Run(NewRing(cap, producers), actions);
    if p in s.producers && s.producers[p].InFlight() {
      ExclusiveSlot(s, p, q, i);
    }
  }

  lemma ExclusiveSlot(s: State, p: nat, q: nat, i: nat)
    requires Inv(s) && p in s.producers && s.producers[p].InFlight()
    ensures Exclusive(s, p, q, i)
  {
    OwnSlot(s, p, i);
    if q in s.producers && s.producers[q].InFlight() && p != q {
      TwoOwners(s, p, q);
    }
  }

  /** The slot of a producer in flight is empty until it is marked, and not in the batch. */
  lemma OwnSlot(s: State, p: nat, i: nat)
    requires Inv(s) && p in s.producers && s.producers[p].InFlight()
    ensures i < Claimed(s.consumer) ==> MaskedSlot(s.producers[p].head, s.cap) != MaskedSlot(s.curr + i, s.cap)
    ensures s.producers[p].Await? ==> Produce(s, p).producers[p].Mark?
  {
    ReservedSlotIsEmpty(s, p);
    if i < Claimed(s.consumer) {
      DistinctSlots(s.curr + i, s.producers[p].head, s.cap);
    }
  }

  lemma TwoOwners(s: State, p: nat, q: nat)
    requires Inv(s) && p in s.producers && q in s.producers && p != q
    requires s.producers[p].InFlight() && s.producers[q].InFlight()
    ensures Slot(s.producers[p].head, s.cap) != Slot(s.producers[q].head, s.cap)
  {
    ReservedSlotIsEmpty(s, p);
    ReservedSlotIsEmpty(s, q);
    var j, k := s.producers[p].head, s.producers[q].head;
    if j < k { DistinctSlots(j, k, s.cap); } else { DistinctSlots(k, j, s.cap); }
  }

  lemma {:induction false} CapFixed(s: State, actions: seq<Action>)
    requires Shaped(s)
    ensures Run(s, actions).cap == s.cap
    decreases |actions|
  {
    if actions != [] {
      CapFixed(Step(s, actions[0]), actions[1..]);
    }
  }

  // ---------------------------------------------------------------- refused writes

  /** A failed compare-and-swap means some producer has reserved a slot since the load. */
  lemma FailedSwapMeansProgress(s: State, p: nat)
    requires Inv(s) && p in s.producers && s.producers[p].Swap?
    ensures Produce(s, p).producers[p].LoadHead? <==> s.producers[p].head < s.head
  {
    assert LocalOk(s, p);
  }

  /**
   The verdict of the capacity test: it refuses exactly when the ring is full at the load of tail,
   or when the head loaded earlier lies behind that tail by at most 2^64 - cap (the difference wraps).
   */
  lemma RefusalExplained(s: State, p: nat)
    requires Inv(s) && p in s.producers && s.producers[p].LoadTail?
    ensures var h := s.producers[p].head;
            Produce(s, p).producers[p] == Idle(Some(false)) <==>
            (h == s.head == s.tail + s.cap) || 0 < s.tail - h <= TWO64 - s.cap
  {
    assert LocalOk(s, p);
  }

  /** Only one producer: nothing it has loaded from head is ever stale. */
  ghost predicate Lone(s: State, p: nat) {
    s.producers.Keys == {p} &&
    match s.producers[p]
    case LoadTail(_, h) => h == s.head
    case Swap(_, h, _) => h == s.head
    case _ => true
  }

  lemma LoneStep(s: State, a: Action, p: nat)
    requires Shaped(s) && Lone(s, p)
    ensures Lone(Step(s, a), p)
  {
    match a
    case Call(_, _) =>
    case Act(_) => LoneProduce(s, p);
    case Advance => assert Consume(s).producers == s.producers && Consume(s).head == s.head;
    case Close =>
  }

  lemma LoneProduce(s: State, p: nat)
    requires Shaped(s) && Lone(s, p)
    ensures Lone(Produce(s, p), p)
  {
  }

  lemma {:induction false} LoneRun(s: State, actions: seq<Action>, p: nat)
    requires Shaped(s) && Lone(s, p)
    ensures Lone(Run(s, actions), p)
    decreases |actions|
  {
    if actions != [] {
      LoneStep(s, actions[0], p);
      LoneRun(Step(s, actions[0]), actions[1..], p);
    }
  }

  /** For a lone producer a write on an open ring is refused exactly when the ring is full. */
  lemma LoneRefusalMeansFull(cap: nat, p: nat, actions: seq<Action>)
    requires CapacityAccepted(cap)
    requires |Run(NewRing(cap, {p}), actions).accepted| < TWO64
    ensures var s := Run(NewRing(cap, {p}), actions);
            && s.cap == cap && p in s.producers
            && (s.producers[p].LoadTail? ==>
                (Produce(s, p).producers[p] == Idle(Some(false)) <==> s.head == s.tail + cap))
            && (s.producers[p].Swap? ==> Produce(s, p).producers[p].Await?)
  {
    var s0 := NewRing(cap, {p});
    InitialInv(cap, {p});
    RunKeeps(s0, actions);
    LoneRun(s0, actions, p);
    CapFixed(s0, actions);
    var s := Run(s0, actions);
    if s.producers[p].LoadTail? {
      RefusalExplained(s, p);
    }
  }

  // ---------------------------------------------------------------- batches

  predicate IsReady(s: State, i: nat)
    requires Shaped(s)
  {
    s.slots[MaskedSlot(s.curr + i, s.cap)] == Ready
  }

  /** The length of the ready run at the read position that a batch may have: at most 128, at most the ring. */
  ghost predicate ReadyRun(s: State, n: nat)
    requires Shaped(s)
  {
    && n <= 128 && n <= s.cap
    && (forall i: nat | i < n :: IsReady(s, i))
    && (n == 128 || n == s.cap || !IsReady(s, n))
  }

  function Steps(n: nat): seq<Action> {
    seq(n, _ => Advance)
  }

  lemma PeekOn(s: State, done: nat)
    requires Shaped(s) && s.consumer == Peek(done) && IsReady(s, done) && done < 128 && done < s.cap
    ensures Step(s, Advance) == s.(consumer := Peek(done + 1))
    ensures forall i: nat :: IsReady(Step(s, Advance), i) <==> IsReady(s, i)
  {
  }

  /** Peeking, undisturbed, takes the whole ready run into the batch. */
  lemma {:induction false} PeekTakesReadyRun(s: State, n: nat, done: nat)
    requires Shaped(s) && ReadyRun(s, n) && s.consumer == Peek(done) && done <= n && n > 0
    ensures Run(s, Steps(n - done + 1)) == s.(consumer := First(n))
    decreases n - done
  {
    var steps := Steps(n - done + 1);
    assert steps[0] == Advance && steps[1..] == Steps(n - done);
    if done < n {
      assert IsReady(s, done);
      PeekOn(s, done);
      PeekTakesReadyRun(Step(s, Advance), n, done + 1);
    } else {
      PeekStops(s, n);
      assert steps[1..] == [];
    }
  }

  lemma PeekStops(s: State, n: nat)
    requires Shaped(s) && ReadyRun(s, n) && s.consumer == Peek(n) && n > 0
    ensures Step(s, Advance) == s.(consumer := First(n)) && Run(Step(s, Advance), []) == Step(s, Advance)
  {
  }

  // ---------------------------------------------------------------- shutdown

  /** Closed, and no producer is past its check of the closed flag. */
  ghost predicate Quiet(s: State) {
    s.closed && forall p <- s.producers :: s.producers[p].Idle? || s.producers[p].Enter?
  }

  lemma QuietStep(s: State, a: Action)
    requires Shaped(s) && Quiet(s)
    ensures Quiet(Step(s, a)) && Step(s, a).accepted == s.accepted && Step(s, a).head == s.head
  {
    match a
    case Call(_, _) =>
    case Act(p) => QuietProduce(s, p);
    case Advance => assert Consume(s).producers == s.producers && Consume(s).head == s.head;
    case Close =>
  }

  lemma QuietProduce(s: State, p: nat)
    requires Shaped(s) && Quiet(s)
    ensures Quiet(Produce(s, p)) && Produce(s, p).accepted == s.accepted && Produce(s, p).head == s.head
  {
  }

  lemma QuietHasNoOwner(s: State)
    requires Inv(s) && Quiet(s)
    ensures s.owner == map[]
  {
    assert forall j :: j !in s.owner;
  }

  /** Progress of the consumer within one batch, for a closed and quiet ring. */
  function Phase(s: State): nat
    requires Claimed(s.consumer) <= s.cap && Emptied(s.consumer) <= Claimed(s.consumer)
  {
    if s.head == s.tail then
      match s.consumer
      case Returned => 0
      case ExitHead(_) => 1
      case ExitTail => 2
      case Top => 3
      case Start => 4
      case Recheck => 4
      case Test => 5
      case _ => 6
    else
      match s.consumer
      case Returned => 0
      case Commit(n, i) => n - i
      case Second(_) => s.cap + 1
      case First(_) => s.cap + 2
      case Peek(n) => 2 * s.cap + 3 - n
      case Test => 2 * s.cap + 4
      case ExitHead(_) => 2 * s.cap + 5
      case ExitTail => 2 * s.cap + 6
      case Top => 2 * s.cap + 7
      case Start => 2 * s.cap + 8
      case Recheck => 2 * s.cap + 8
  }

  /** In a quiet ring the unread indices, and no others, are ready. */
  lemma QuietSlotReady(s: State, n: nat)
    requires Inv(s) && Quiet(s) && Emptied(s.consumer) == 0 && n < s.cap
    ensures s.slots[MaskedSlot(s.curr + n, s.cap)] == Ready <==> s.tail + n < s.head
  {
    QuietHasNoOwner(s);
    assert SlotOk(s, s.tail + n);
  }

  /** The backlog, then the phase: what a consumer step on a closed ring makes smaller. */
  ghost predicate Closer(s: State, s': State)
    requires s.cap > 0 && s'.cap > 0 && Indices(s) && Indices(s')
  {
    s'.head - s'.tail < s.head - s.tail || (s'.head - s'.tail == s.head - s.tail && Phase(s') < Phase(s))
  }

  lemma DrainControl(s: State)
    requires Shaped(s) && Indices(s) && Closing(s) && s.closed && !s.consumer.Returned?
    requires Claimed(s.consumer) == 0 && !s.consumer.Peek? && !s.consumer.Commit? && Indices(Consume(s))
    requires s.head > s.tail <==> s.slots[MaskedSlot(s.curr, s.cap)] == Ready
    ensures Closer(s, Consume(s))
  {
  }

  lemma DrainBatch(s: State)
    requires Shaped(s) && Indices(s) && (Claimed(s.consumer) > 0 || s.consumer.Peek?) && Indices(Consume(s))
    requires s.head > s.tail && s.consumer == Peek(0) ==> s.slots[MaskedSlot(s.curr, s.cap)] == Ready
    ensures Closer(s, Consume(s))
  {
    if s.consumer == Peek(0) && s.head > s.tail {
      assert Consume(s).consumer == Peek(1);
    }
  }

  /** Each consumer step on a closed and quiet ring shortens the backlog or advances the batch. */
  lemma DrainStep(s: State)
    requires Inv(s) && Quiet(s) && !s.consumer.Returned?
    ensures var s' := Consume(s);
            && Inv(s') && Quiet(s') && s'.accepted == s.accepted && Closer(s, s')
            && (s'.consumer.Returned? ==> s'.head == s'.tail)
  {
    ConsumeKeeps(s);
    QuietStep(s, Advance);
    if Emptied(s.consumer) == 0 {
      QuietSlotReady(s, 0);
    }
    if Claimed(s.consumer) > 0 || s.consumer.Peek? { DrainBatch(s); } else { DrainControl(s); }
  }

  /** Consume alone drains a closed and quiet ring and returns with every accepted event delivered. */
  lemma {:induction false} DrainTerminates(s: State) returns (steps: seq<Action>)
    requires Inv(s) && Quiet(s) && !s.consumer.Returned?
    ensures forall a <- steps :: a == Advance
    ensures var s' := Run(s, steps);
            s'.consumer.Returned? && s'.accepted == s.accepted && s'.delivered == Events(s.accepted)
    decreases s.head - s.tail, Phase(s)
  {
    DrainStep(s);
    var s' := Consume(s);
    if s'.consumer.Returned? {
      steps := [Advance];
      assert Run(s', []) == s';
    } else {
      var rest := DrainTerminates(s');
      steps := [Advance] + rest;
    }
  }

  lemma QuietInvariantStep(s: State, a: Action)
    requires Inv(s) && Quiet(s) && (s.consumer.Returned? ==> s.head == s.tail)
    ensures var s' := Step(s, a);
            && Inv(s') && Quiet(s') && s'.accepted == s.accepted
            && (s'.consumer.Returned? ==> s'.head == s'.tail)
  {
    QuietStep(s, a);
    StepKeeps(s, a);
    if a == Advance && !s.consumer.Returned? {
      DrainStep(s);
    }
  }

  /** The step with which Consume returns finds every reserved event delivered, whoever may still be writing. */
  lemma ReturnStep(s: State)
    requires Shaped(s) && Indices(s) && Delivered(s) && Closing(s)
    requires !s.consumer.Returned? && Consume(s).consumer.Returned?
    ensures s.closed && s.head == s.tail && s.delivered == Events(s.accepted) && Consume(s).delivered == s.delivered
  {
  }

  lemma {:induction false} ReturnedForever(s: State, actions: seq<Action>)
    requires Shaped(s) && s.consumer.Returned?
    ensures Run(s, actions).consumer.Returned? && Run(s, actions).delivered == s.delivered
    decreases |actions|
  {
    if actions != [] {
      assert Step(s, actions[0]).consumer.Returned? && Step(s, actions[0]).delivered == s.delivered;
      ReturnedForever(Step(s, actions[0]), actions[1..]);
    }
  }

  lemma {:induction false} RunSplit(s: State, before: seq<Action>, after: seq<Action>)
    requires Shaped(s)
    ensures Run(s, before + after) == Run(Run(s, before), after)
    decreases |before|
  {
    if before == [] {
      assert before + after == after;
    } else {
      assert (before + after)[1..] == before[1..] + after;
      RunSplit(Step(s, before[0]), before[1..], after);
    }
  }

  /** The first step after which the consumer has returned. */
  lemma {:induction false} ReturnPoint(s: State, actions: seq<Action>) returns (k: nat)
    requires Shaped(s) && !s.consumer.Returned? && Run(s, actions).consumer.Returned?
    ensures k < |actions| && !Run(s, actions[..k]).consumer.Returned? && Run(s, actions[..k + 1]).consumer.Returned?
    decreases |actions|
  {
    assert actions != [];
    var next := Step(s, actions[0]);
    if next.consumer.Returned? {
      k := 0;
      assert actions[..1] == [actions[0]] && [actions[0]][1..] == [] && actions[..0] == [];
      assert Run(next, []) == next;
    } else {
      var j := ReturnPoint(next, actions[1..]);
      k := j + 1;
      assert actions[..k][1..] == actions[1..][..j] && actions[..k + 1][1..] == actions[1..][..j + 1];
    }
  }

  lemma OnlyConsumeReturns(s: State, a: Action)
    requires Shaped(s) && !s.consumer.Returned? && Step(s, a).consumer.Returned?
    ensures a == Advance
  {
  }

  /**
   In any run in which Consume returns, whatever the producers do: exactly the events reserved before
   the return are delivered, the lost ones are those whose swap comes later, and nothing is lost
   exactly when there is no such swap.
   */
  lemma LostIsReservedAfterReturn(cap: nat, producers: set<nat>, actions: seq<Action>) returns (k: nat)
    requires CapacityAccepted(cap) && |Run(NewRing(cap, producers), actions).accepted| < TWO64
    requires Run(NewRing(cap, producers), actions).consumer.Returned?
    ensures k < |actions| && actions[k] == Advance
    ensures var s, s' := Run(NewRing(cap, producers), actions[..k]), Run(NewRing(cap, producers), actions);
            && !s.consumer.Returned? && Consume(s).consumer.Returned?
            && s.accepted <= s'.accepted && s'.delivered == Events(s.accepted)
            && (s'.delivered == Events(s'.accepted) <==> s'.accepted == s.accepted)
  {
    var s0 := NewRing(cap, producers);
    k := ReturnPoint(s0, actions);
    var s := Run(s0, actions[..k]);
    assert actions == actions[..k] + actions[k..] && actions[..k + 1] == actions[..k] + [actions[k]];
    RunSplit(s0, actions[..k], actions[k..]);
    RunGrows(s, actions[k..]);
    InitialInv(cap, producers);
    RunKeeps(s0, actions[..k]);
    RunSnoc(s0, actions[..k], actions[k]);
    OnlyConsumeReturns(s, actions[k]);
    ReturnStep(s);
    assert actions[k..][0] == Advance;
    ReturnedForever(Consume(s), actions[k..][1..]);
    PrefixEvents(s.accepted, Run(s0, actions).accepted);
  }

  lemma PrefixEvents(a: seq<(nat, LogEvent)>, b: seq<(nat, LogEvent)>)
    requires a <= b
    ensures Events(a) == Events(b) <==> a == b
  {
    assert |Events(a)| == |a| && |Events(b)| == |b|;
  }

  /**
   Producers stop, then Close: however the rest of the run interleaves, when Consume has returned
   every event ever accepted has been delivered.
   */
  lemma {:induction false} ShutdownLosesNothing(s: State, actions: seq<Action>)
    requires Inv(s) && Quiet(s) && (s.consumer.Returned? ==> s.head == s.tail)
    ensures var s' := Run(s, actions);
            && Inv(s') && s'.accepted == s.accepted
            && (s'.consumer.Returned? ==> s'.delivered == Events(s.accepted))
    decreases |actions|
  {
    if actions != [] {
      var s1 := Step(s, actions[0]);
      QuietInvariantStep(s, actions[0]);
      ShutdownLosesNothing(s1, actions[1..]);
    }
  }

  /** The steps the consumer makes in a run. */
  function Advances(actions: seq<Action>): nat {
    if actions == [] then 0 else (if actions[0] == Advance then 1 else 0) + Advances(actions[1..])
  }

  /** More than the longest round of the consumer, for each of `n` events. */
  function Rounds(cap: nat, n: nat): nat {
    if n == 0 then 0 else Rounds(cap, n - 1) + 2 * cap + 10
  }

  lemma {:induction false} RoundsFall(cap: nat, m: nat, n: nat)
    requires m < n
    ensures Rounds(cap, m) + 2 * cap + 10 <= Rounds(cap, n)
    decreases n
  {
    if m < n - 1 {
      RoundsFall(cap, m, n - 1);
    }
  }

  lemma {:induction false} RoundsProduct(cap: nat, n: nat)
    ensures Rounds(cap, n) == (2 * cap + 10) * n
  {
    if n > 0 {
      RoundsProduct(cap, n - 1);
    }
  }

  /**
   How many more steps it may need on a closed and quiet ring: a round for each event of the backlog,
   and the way out.
   */
  function Left(s: State): nat
    requires s.cap > 0 && Indices(s)
  {
    if s.consumer.Returned? then 0 else Phase(s) + Rounds(s.cap, s.head - s.tail) + 1
  }

  lemma PhaseBounded(s: State)
    requires s.cap > 0 && Indices(s)
    ensures Phase(s) <= 2 * s.cap + 8
  {
  }

  /** One round for each event, and one for the way out. */
  lemma LeftBounded(s: State, n: nat)
    requires s.cap > 0 && Indices(s) && n == s.head - s.tail
    ensures Left(s) <= Rounds(s.cap, n + 1)
  {
    PhaseBounded(s);
  }

  lemma LessLeft(cap: nat, phase: nat, n: nat, phase': nat, n': nat)
    requires phase' <= 2 * cap + 8 && (n' < n || (n' == n && phase' < phase))
    ensures phase' + Rounds(cap, n') < phase + Rounds(cap, n)
  {
    if n' < n {
      RoundsFall(cap, n', n);
    }
  }

  lemma CloserLeft(s: State, s': State)
    requires s.cap > 0 && s'.cap == s.cap && Indices(s) && Indices(s') && Closer(s, s') && !s.consumer.Returned?
    ensures Left(s') < Left(s)
  {
    PhaseBounded(s');
    LessLeft(s.cap, Phase(s), s.head - s.tail, Phase(s'), s'.head - s'.tail);
  }

  lemma StepLeft(s: State, a: Action)
    requires Inv(s) && Quiet(s)
    ensures Indices(Step(s, a))
    ensures Left(Step(s, a)) <= if a == Advance && !s.consumer.Returned? then Left(s) - 1 else Left(s)
  {
    if a == Advance && !s.consumer.Returned? {
      DrainStep(s);
      CloserLeft(s, Consume(s));
    } else {
      OthersLeft(s, a);
    }
  }

  /** The other steps leave the consumer where it is. */
  lemma OthersLeft(s: State, a: Action)
    requires Shaped(s) && Indices(s) && Quiet(s) && (a == Advance ==> s.consumer.Returned?)
    ensures Indices(Step(s, a)) && Left(Step(s, a)) == Left(s)
  {
    QuietStep(s, a);
    var s' := Step(s, a);
    assert s'.consumer == s.consumer && s'.tail == s.tail && s'.cap == s.cap && s'.curr == s.curr;
  }

  lemma AdvancesSplit(actions: seq<Action>)
    requires actions != []
    ensures Advances(actions) == (if actions[0] == Advance then 1 else 0) + Advances(actions[1..])
  {
  }

  /** No interleaving keeps the consumer from its return: only its own steps count. */
  lemma {:induction false} ReturnsWithin(s: State, actions: seq<Action>)
    requires Inv(s) && Quiet(s) && (s.consumer.Returned? ==> s.head == s.tail) && Advances(actions) >= Left(s)
    ensures Run(s, actions).consumer.Returned?
    decreases |actions|
  {
    if s.consumer.Returned? {
      ReturnedForever(s, actions);
    } else {
      assert actions != [];
      AdvancesSplit(actions);
      QuietInvariantStep(s, actions[0]);
      StepLeft(s, actions[0]);
      ReturnsWithin(Step(s, actions[0]), actions[1..]);
    }
  }

  lemma ReturnsInTime(s: State, actions: seq<Action>, n: nat)
    requires Inv(s) && Quiet(s) && !s.consumer.Returned? && n == s.head - s.tail
    ensures Advances(actions) >= (2 * s.cap + 10) * (n + 1) ==> Run(s, actions).consumer.Returned?
  {
    LeftBounded(s, n);
    RoundsProduct(s.cap, n + 1);
    if Advances(actions) >= Rounds(s.cap, n + 1) {
      ReturnsWithin(s, actions);
    }
  }

  /**
   The shutdown the source asks for: from the start, any run in which the producers have stopped, then
   Close, then any interleaving. A returned Consume has delivered every event, and Consume has returned
   by the time it has made a number of steps that the capacity and the backlog at Close determine.
   */
  lemma CloseAfterProducersStop(cap: nat, producers: set<nat>, before: seq<Action>, after: seq<Action>)
    requires CapacityAccepted(cap) && |Run(NewRing(cap, producers), before).accepted| < TWO64
    requires var s := Run(NewRing(cap, producers), before);
             !s.closed && forall p <- s.producers :: s.producers[p].Idle?
    ensures var s := Run(NewRing(cap, producers), before);
            var s' := Run(Step(s, Close), after);
            && s'.accepted == s.accepted
            && (s'.consumer.Returned? ==> s'.delivered == Events(s.accepted))
            && s.tail <= s.head && (Advances(after) >= (2 * cap + 10) * (s.head - s.tail + 1) ==> s'.consumer.Returned?)
  {
    InitialInv(cap, producers);
    RunKeeps(NewRing(cap, producers), before);
    var s := Run(NewRing(cap, producers), before);
    StepKeeps(s, Close);
    var closed := Step(s, Close);
    assert Quiet(closed) && !closed.consumer.Returned?;
    ShutdownLosesNothing(closed, after);
    CapFixed(NewRing(cap, producers), before);
    ReturnsInTime(closed, after, s.head - s.tail);
  }

  // ---------------------------------------------------------------- limits of the protocol

  ghost predicate Reaches(s: State, s': State)
    requires Shaped(s)
  {
    exists actions :: Run(s, actions) == s'
  }

  lemma {:induction false} RunSnoc(s: State, actions: seq<Action>, a: Action)
    requires Shaped(s)
    ensures Run(s, actions + [a]) == Step(Run(s, actions), a)
    decreases |actions|
  {
    if actions == [] {
      assert Run(s, [a]) == Run(Step(s, a), []);
    } else {
      assert (actions + [a])[1..] == actions[1..] + [a];
      RunSnoc(Step(s, actions[0]), actions[1..], a);
    }
  }

  lemma Onward(s: State, s': State, a: Action)
    requires Shaped(s) && Shaped(s') && Reaches(s, s')
    ensures Reaches(s, Step(s', a))
  {
    var actions :| Run(s, actions) == s';
    RunSnoc(s, actions, a);
  }

  /** All eight steps of an uncontended TryWrite on an empty one-slot ring. */
  lemma UncontendedWrite(s0: State, s: State, p: nat, e: LogEvent) returns (s': State)
    requires Shaped(s0) && Shaped(s) && Reaches(s0, s)
    requires s.cap == 1 && s.slots == [Empty] && s.head == s.tail == 0 && !s.closed
    requires p in s.producers && s.producers[p].Idle?
    ensures Shaped(s') && Reaches(s0, s')
    ensures s'.cap == 1 && s'.slots == [Ready] && s'.head == 1 && s'.tail == 0
    ensures s'.consumer == s.consumer && s'.curr == s.curr && s'.closed == s.closed
    ensures s'.producers == s.producers[p := Idle(Some(true))]
  {
    Onward(s0, s, Call(p, e));
    var s1 := Step(s, Call(p, e));
    Onward(s0, s1, Act(p));
    var s2 := Step(s1, Act(p));
    Onward(s0, s2, Act(p));
    var s3 := Step(s2, Act(p));
    var s5 := UncontendedReserve(s0, s3, p);
    s' := UncontendedFill(s0, s5, p);
  }

  lemma UncontendedReserve(s0: State, s: State, p: nat) returns (s': State)
    requires Shaped(s0) && Shaped(s) && Reaches(s0, s)
    requires s.cap == 1 && s.head == s.tail == 0 && p in s.producers
    requires s.producers[p].LoadTail? && s.producers[p].head == 0
    ensures Shaped(s') && Reaches(s0, s')
    ensures s' == s.(head := 1, producers := s.producers[p := Await(s.producers[p].event, 0)],
                    accepted := s.accepted + [(p, s.producers[p].event)], owner := s'.owner)
  {
    Onward(s0, s, Act(p));
    var s1 := Step(s, Act(p));
    assert s1.producers[p].Swap?;
    Onward(s0, s1, Act(p));
    s' := Step(s1, Act(p));
  }

  lemma UncontendedFill(s0: State, s: State, p: nat) returns (s': State)
    requires Shaped(s0) && Shaped(s) && Reaches(s0, s)
    requires s.cap == 1 && s.slots == [Empty] && p in s.producers && s.producers[p].Await?
    ensures Shaped(s') && Reaches(s0, s')
    ensures s' == s.(slots := [Ready], producers := s.producers[p := Idle(Some(true))],
                    data := s'.data, wrote := s'.wrote, owner := s'.owner)
  {
    Onward(s0, s, Act(p));
    var s1 := Step(s, Act(p));
    Onward(s0, s1, Act(p));
    var s2 := Step(s1, Act(p));
    Onward(s0, s2, Act(p));
    var s3 := Step(s2, Act(p));
    Onward(s0, s3, Act(p));
    s' := Step(s3, Act(p));
  }

  /** One full round of the consumer on a one-slot ring that holds one event. */
  lemma ConsumeOne(s0: State, s: State) returns (s': State)
    requires Shaped(s0) && Shaped(s) && Reaches(s0, s)
    requires s.cap == 1 && s.slots == [Ready] && s.tail == 0 && s.consumer == Start && !s.closed
    ensures Shaped(s') && Reaches(s0, s')
    ensures s'.cap == 1 && s'.slots == [Empty] && s'.tail == 1 && s'.head == s.head
    ensures s'.producers == s.producers && s'.closed == s.closed
  {
    Onward(s0, s, Advance);
    var s1 := Step(s, Advance);
    Onward(s0, s1, Advance);
    var s2 := Step(s1, Advance);
    var s3 := PeekOne(s0, s2);
    var s4 := HandOverOne(s0, s3);
    s' := CommitOne(s0, s4);
  }

  lemma CommitOne(s0: State, s: State) returns (s': State)
    requires Shaped(s0) && Shaped(s) && Reaches(s0, s)
    requires s.cap == 1 && s.slots == [Ready] && s.curr == 0 && s.consumer == Commit(1, 0)
    ensures Shaped(s') && Reaches(s0, s')
    ensures s' == s.(slots := [Empty], curr := 1, tail := 1, consumer := Top)
  {
    Onward(s0, s, Advance);
    var s1 := Step(s, Advance);
    Onward(s0, s1, Advance);
    s' := Step(s1, Advance);
  }

  lemma PeekOne(s0: State, s: State) returns (s': State)
    requires Shaped(s0) && Shaped(s) && Reaches(s0, s)
    requires s.cap == 1 && s.slots == [Ready] && s.consumer == Test
    ensures Shaped(s') && Reaches(s0, s') && s' == s.(consumer := Peek(1))
  {
    Onward(s0, s, Advance);
    var s1 := Step(s, Advance);
    Onward(s0, s1, Advance);
    s' := Step(s1, Advance);
  }

  lemma HandOverOne(s0: State, s: State) returns (s': State)
    requires Shaped(s0) && Shaped(s) && Reaches(s0, s)
    requires s.cap == 1 && s.consumer == Peek(1)
    ensures Shaped(s') && Reaches(s0, s')
    ensures s' == s.(consumer := Commit(1, 0), delivered := s'.delivered)
  {
    Onward(s0, s, Advance);
    var s1 := Step(s, Advance);
    Onward(s0, s1, Advance);
    s' := Step(s1, Advance);
  }

  lemma StaleLoad(s: State, e: LogEvent) returns (s': State)
    requires Shaped(s) && s == NewRing(1, {0, 1})
    ensures Shaped(s') && Reaches(s, s')
    ensures s' == s.(producers := s.producers[0 := LoadTail(e, 0)])
  {
    assert Run(s, []) == s;
    Onward(s, s, Call(0, e));
    var s1 := Step(s, Call(0, e));
    Onward(s, s1, Act(0));
    var s2 := Step(s1, Act(0));
    Onward(s, s2, Act(0));
    s' := Step(s2, Act(0));
  }

  /**
   A refused write does not mean a full ring: with a stale head the wrapped difference is huge.
   In this run the ring is open and empty when TryWrite returns false.
   */
  lemma RefusedWhileEmpty(e: LogEvent) returns (s: State)
    ensures Shaped(NewRing(1, {0, 1})) && Reaches(NewRing(1, {0, 1}), s)
    ensures 0 in s.producers && s.producers[0] == Idle(Some(false))
    ensures s.head == s.tail && s.slots == [Empty] && !s.closed
  {
    var s0 := NewRing(1, {0, 1});
    var s3 := StaleLoad(s0, e);
    var s4 := UncontendedWrite(s0, s3, 1, e);
    var s5 := ConsumeOne(s0, s4);
    Onward(s0, s5, Act(0));
    s := Step(s5, Act(0));
    WrappedRefusal(s5, e);
  }

  /** A stale head behind the tail by one is refused. */
  lemma WrappedRefusal(s: State, e: LogEvent)
    requires Shaped(s) && s.cap == 1 && s.tail == 1 && 0 in s.producers && s.producers[0] == LoadTail(e, 0)
    ensures Step(s, Act(0)) == Goto(s, 0, Idle(Some(false)))
  {
  }

  /** TryWrite passes its check of the closed flag; Close; Consume finds nothing and returns. */
  lemma ReturnedPastCheck(s: State, e: LogEvent) returns (s': State)
    requires Shaped(s) && s == NewRing(1, {0})
    ensures Shaped(s') && Reaches(s, s')
    ensures s' == s.(producers := s.producers[0 := LoadHead(e)], closed := true, consumer := Returned)
  {
    assert Run(s, []) == s;
    Onward(s, s, Call(0, e));
    var s1 := Step(s, Call(0, e));
    Onward(s, s1, Act(0));
    var s2 := Step(s1, Act(0));
    Onward(s, s2, Close);
    var s3 := Step(s2, Close);
    s' := ReturnOnEmpty(s, s3);
  }

  lemma ReturnOnEmpty(s0: State, s: State) returns (s': State)
    requires Shaped(s0) && Shaped(s) && Reaches(s0, s)
    requires s.closed && s.head == s.tail == s.curr == 0 && s.consumer == Start
    ensures Shaped(s') && Reaches(s0, s') && s' == s.(consumer := Returned)
  {
    Onward(s0, s, Advance);
    var s1 := Step(s, Advance);
    Onward(s0, s1, Advance);
    s' := ExitOnEmpty(s0, Step(s1, Advance));
  }

  lemma ExitOnEmpty(s0: State, s: State) returns (s': State)
    requires Shaped(s0) && Shaped(s) && Reaches(s0, s)
    requires s.head == s.tail && s.consumer == ExitTail
    ensures Shaped(s') && Reaches(s0, s') && s' == s.(consumer := Returned)
  {
    Onward(s0, s, Advance);
    var s1 := Step(s, Advance);
    Onward(s0, s1, Advance);
    s' := Step(s1, Advance);
  }

  /**
   A write accepted while Close runs can be lost: TryWrite returns true, Consume has returned, and the
   event is never delivered.
   */
  lemma AcceptedButLost(e: LogEvent) returns (s: State)
    ensures Shaped(NewRing(1, {0})) && Reaches(NewRing(1, {0}), s)
    ensures s.closed && s.consumer.Returned? && s.delivered == [] && s.accepted == [(0, e)]
    ensures 0 in s.producers && s.producers[0] == Idle(Some(true))
  {
    var s0 := NewRing(1, {0});
    var s1 := ReturnedPastCheck(s0, e);
    Onward(s0, s1, Act(0));
    var s2 := Step(s1, Act(0));
    var s3 := UncontendedReserve(s0, s2, 0);
    s := UncontendedFill(s0, s3, 0);
  }
}

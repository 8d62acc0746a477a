/**
 The invariant of the ring protocol and its preservation by every step.
 All of it is stated under the hypothesis that fewer than 2^64 events are ever reserved.
 */
module RingInvariant {
  import opened RingIndex
  import opened Ring

  /** Slots the consumer has emptied but not yet released by moving `tail`. */
  function Emptied(c: Consumer): nat {
    match c case Commit(_, i) => i case _ => 0
  }

  /** Length of the run of ready slots the consumer has peeked. */
  function Claimed(c: Consumer): nat {
    match c
    case Peek(n) => n
    case First(n) => n
    case Second(n) => n
    case Commit(n, _) => n
    case _ => 0
  }

  /** Events of the current batch already handed to the handler. */
  function Handed(s: State): nat
    requires s.cap > 0
  {
    match s.consumer
    case Second(_) => s.cap - Slot(s.curr, s.cap)
    case Commit(n, _) => n
    case _ => 0
  }

  ghost predicate Indices(s: State)
    requires s.cap > 0
  {
    && ValidCap(s.cap)
    && s.head == |s.accepted|
    && s.curr == s.tail
    && s.tail + Claimed(s.consumer) <= s.head <= s.tail + s.cap
    && Claimed(s.consumer) <= BatchLimit(s.cap)
    && Emptied(s.consumer) <= Claimed(s.consumer)
    && (s.consumer.First? || s.consumer.Second? || s.consumer.Commit? ==> s.consumer.available > 0)
  }

  /** What the locals of a producer say about the shared state. */
  ghost predicate LocalOk(s: State, p: nat)
    requires p in s.producers
  {
    var pc := s.producers[p];
    if pc.InFlight() then
      && pc.head in s.owner && s.owner[pc.head] == p
      && pc.head < |s.accepted| && s.accepted[pc.head] == (p, pc.event)
    else match pc
      case LoadTail(_, h) => h <= s.head
      case Swap(_, h, t) => h <= s.head && t <= s.tail && Sub64(h, t) < s.cap
      case _ => true
  }

  /** A reserved, unpublished index is held by exactly one producer and lies beyond the batch. */
  ghost predicate OwnerOk(s: State, j: nat)
    requires j in s.owner
  {
    && s.tail + Claimed(s.consumer) <= j < s.head
    && s.owner[j] in s.producers
    && s.producers[s.owner[j]].InFlight()
    && s.producers[s.owner[j]].head == j
  }

  /** The state and content of the slot that stands for index `j`. */
  ghost predicate SlotOk(s: State, j: nat)
    requires 0 < s.cap == |s.slots| == |s.data|
  {
    var slot, content := s.slots[Slot(j, s.cap)], s.data[Slot(j, s.cap)];
    if j >= |s.accepted| then slot == Empty
    else if j in s.owner then
      s.owner[j] in s.producers &&
      match s.producers[s.owner[j]]
      case Await(_, _) => slot == Empty
      case Mark(_, _) => slot == Empty
      case Fill(_, _) => slot == Writing
      case Publish(e, _) => slot == Writing && content == e
      case _ => false
    else slot == Ready && content == s.accepted[j].1
  }

  ghost predicate Locals(s: State) {
    forall p <- s.producers :: LocalOk(s, p)
  }

  ghost predicate Owners(s: State) {
    forall j <- s.owner :: OwnerOk(s, j)
  }

  ghost predicate SlotsOk(s: State)
    requires 0 < s.cap == |s.slots| == |s.data|
  {
    var base := s.tail + Emptied(s.consumer);
    forall j | base <= j < base + s.cap :: SlotOk(s, j)
  }

  ghost predicate Delivered(s: State)
    requires s.cap > 0
  {
    && |s.delivered| == s.tail + Handed(s) <= |s.accepted|
    && (forall k | 0 <= k < |s.delivered| :: s.delivered[k] == s.accepted[k].1)
    && (s.consumer.Second? ==> Slot(s.curr, s.cap) + s.consumer.available > s.cap)
  }

  /** The events producer `p` has reserved, in program order. */
  function Sent(accepted: seq<(nat, LogEvent)>, p: nat): seq<LogEvent> {
    if accepted == [] then []
    else Sent(accepted[..|accepted| - 1], p)
         + (if accepted[|accepted| - 1].0 == p then [accepted[|accepted| - 1].1] else [])
  }

  function Pending(pc: Producer): seq<LogEvent> {
    if pc.InFlight() then [pc.event] else []
  }

  ghost predicate Wrote(s: State)
    requires s.wrote.Keys == s.producers.Keys
  {
    forall p <- s.producers :: Sent(s.accepted, p) == s.wrote[p] + Pending(s.producers[p])
  }

  ghost predicate Closing(s: State) {
    && (s.consumer.ExitTail? || s.consumer.ExitHead? || s.consumer.Returned? ==> s.closed)
    && (s.consumer.ExitHead? ==> s.consumer.seenTail == s.tail)
  }

  ghost predicate Inv(s: State) {
    Shaped(s) && Indices(s) && Locals(s) && Owners(s) && SlotsOk(s) && Delivered(s) && Wrote(s) && Closing(s)
  }

  lemma InitialInv(cap: nat, producers: set<nat>)
    requires CapacityAccepted(cap)
    ensures Inv(NewRing(cap, producers))
  {
    AcceptedExactlyPowersOfTwo(cap);
  }

  // ---------------------------------------------------------------- producer steps

  /** At the compare-and-swap the ring is not full, although head and tail were loaded at different times. */
  lemma SwapHasRoom(s: State, p: nat)
    requires Inv(s) && p in s.producers && s.producers[p].Swap? && s.producers[p].head == s.head
    ensures s.head < s.tail + s.cap
  {
    assert LocalOk(s, p);
  }

  /** Moving the program counter of a producer that holds no slot keeps everything else. */
  lemma GotoKeeps(s: State, p: nat, pc: Producer)
    requires Inv(s) && p in s.producers && !s.producers[p].InFlight() && !pc.InFlight()
    requires LocalOk(Goto(s, p, pc), p)
    ensures Inv(Goto(s, p, pc))
  {
    GotoKeepsLocals(s, p, pc);
    GotoKeepsSlots(s, p, pc);
    assert Wrote(Goto(s, p, pc));
  }

  lemma GotoKeepsLocals(s: State, p: nat, pc: Producer)
    requires Shaped(s) && Locals(s) && Owners(s)
    requires p in s.producers && !s.producers[p].InFlight() && !pc.InFlight()
    requires LocalOk(Goto(s, p, pc), p)
    ensures Locals(Goto(s, p, pc)) && Owners(Goto(s, p, pc))
  {
    var s' := Goto(s, p, pc);
    forall q <- s'.producers
      ensures LocalOk(s', q)
    {
      assert LocalOk(s, q);
    }
    forall j <- s'.owner
      ensures OwnerOk(s', j)
    {
      assert OwnerOk(s, j);
    }
  }

  lemma GotoKeepsSlots(s: State, p: nat, pc: Producer)
    requires Shaped(s) && Owners(s) && SlotsOk(s)
    requires p in s.producers && !s.producers[p].InFlight()
    ensures SlotsOk(Goto(s, p, pc))
  {
    var s' := Goto(s, p, pc);
    forall j | s.tail + Emptied(s.consumer) <= j < s.tail + Emptied(s.consumer) + s.cap
      ensures SlotOk(s', j)
    {
      assert SlotOk(s, j);
      if j in s.owner {
        assert OwnerOk(s, j);
      }
    }
  }

  lemma BeginKeeps(s: State, p: nat, e: LogEvent)
    requires Inv(s)
    ensures Inv(Begin(s, p, e))
  {
    if p in s.producers && s.producers[p].Idle? {
      GotoKeeps(s, p, Enter(e));
    }
  }

  /** Every load moves only the program counter; the value loaded is still bounded by the shared one. */
  lemma LoadIsGoto(s: State, p: nat)
    requires Shaped(s) && Indices(s) && p in s.producers && !s.producers[p].InFlight() && LocalOk(s, p)
    requires s.producers[p].Swap? ==> s.producers[p].head != s.head
    ensures var pc := Reserve(s, p).producers[p];
            Reserve(s, p) == Goto(s, p, pc) && !pc.InFlight() && LocalOk(Goto(s, p, pc), p)
  {
  }

  lemma ReserveKeeps(s: State, p: nat)
    requires Inv(s) && p in s.producers && !s.producers[p].InFlight()
    requires |Reserve(s, p).accepted| < TWO64
    ensures Inv(Reserve(s, p))
  {
    assert LocalOk(s, p);
    if s.producers[p].Swap? && s.head == s.producers[p].head {
      ReservationKeeps(s, p);
    } else {
      LoadIsGoto(s, p);
      GotoKeeps(s, p, Reserve(s, p).producers[p]);
    }
  }

  lemma ReservationKeeps(s: State, p: nat)
    requires Inv(s) && p in s.producers && s.producers[p].Swap? && s.producers[p].head == s.head
    requires |s.accepted| + 1 < TWO64
    ensures Inv(Reserve(s, p))
  {
    SwapHasRoom(s, p);
    ReservationKeepsLocals(s, p);
    ReservationKeepsSlots(s, p);
    ReservationKeepsWrote(s, p);
    ReservationKeepsRest(s, p);
  }

  lemma ReservationKeepsRest(s: State, p: nat)
    requires Shaped(s) && Indices(s) && Delivered(s) && Closing(s)
    requires p in s.producers && s.producers[p].Swap? && s.producers[p].head == s.head
    requires s.head < s.tail + s.cap && |s.accepted| + 1 < TWO64
    ensures var s' := Reserve(s, p); Indices(s') && Delivered(s') && Closing(s')
  {
  }

  lemma SentSnoc(accepted: seq<(nat, LogEvent)>, x: (nat, LogEvent), q: nat)
    ensures Sent(accepted + [x], q) == Sent(accepted, q) + if x.0 == q then [x.1] else []
  {
    assert (accepted + [x])[..|accepted|] == accepted;
  }

  lemma ReservationKeepsWrote(s: State, p: nat)
    requires Shaped(s) && p in s.producers && s.producers[p].Swap? && s.producers[p].head == s.head
    requires Wrote(s)
    ensures Wrote(Reserve(s, p))
  {
    var s' := Reserve(s, p);
    forall q <- s'.producers
      ensures Sent(s'.accepted, q) == s'.wrote[q] + Pending(s'.producers[q])
    {
      SentSnoc(s.accepted, (p, s.producers[p].event), q);
    }
  }

  lemma ReservationKeepsLocals(s: State, p: nat)
    requires Shaped(s) && Indices(s) && Locals(s) && Owners(s)
    requires p in s.producers && s.producers[p].Swap? && s.producers[p].head == s.head
    requires |s.accepted| + 1 < TWO64
    ensures Locals(Reserve(s, p)) && Owners(Reserve(s, p))
  {
    var s' := Reserve(s, p);
    forall q <- s'.producers
      ensures LocalOk(s', q)
    {
      assert LocalOk(s, q);
      if q != p && s.producers[q].InFlight() {
        assert OwnerOk(s, s.producers[q].head);
      }
    }
    forall j <- s'.owner
      ensures OwnerOk(s', j)
    {
      assert j == s.head || OwnerOk(s, j);
    }
  }

  lemma ReservationKeepsSlots(s: State, p: nat)
    requires Shaped(s) && Indices(s) && Owners(s) && SlotsOk(s)
    requires p in s.producers && s.producers[p].Swap? && s.producers[p].head == s.head
    requires s.head < s.tail + s.cap
    ensures SlotsOk(Reserve(s, p))
  {
    var s', h := Reserve(s, p), s.head;
    var base := s.tail + Emptied(s.consumer);
    forall j | base <= j < base + s.cap
      ensures SlotOk(s', j)
    {
      assert SlotOk(s, j);
      if j < h && j in s.owner {
        assert OwnerOk(s, j);
      }
    }
  }

  /** A reserved slot has just been emptied: no producer ever waits for it. */
  lemma ReservedSlotIsEmpty(s: State, p: nat)
    requires Inv(s) && p in s.producers && s.producers[p].InFlight()
    ensures var pc := s.producers[p];
            && OwnerOk(s, pc.head) && SlotOk(s, pc.head)
            && s.owner[pc.head] == p
            && s.tail + Emptied(s.consumer) <= pc.head < |s.accepted|
            && (pc.Await? ==> s.slots[MaskedSlot(pc.head, s.cap)] == Empty)
  {
    assert LocalOk(s, p);
    var j := s.producers[p].head;
    assert OwnerOk(s, j);
    assert SlotOk(s, j);
  }

  /** A step of a producer on its own slot leaves every other live slot alone. */
  lemma FulfilKeepsSlots(s: State, p: nat)
    requires Inv(s) && p in s.producers && s.producers[p].InFlight()
    ensures SlotsOk(Fulfil(s, p))
  {
    ReservedSlotIsEmpty(s, p);
    var s', h := Fulfil(s, p), s.producers[p].head;
    assert s.accepted[h].1 == s.producers[p].event by { assert LocalOk(s, p); }
    forall j | s.tail + Emptied(s.consumer) <= j < s.tail + Emptied(s.consumer) + s.cap
      ensures SlotOk(s', j)
    {
      assert SlotOk(s, j);
      if j != h {
        OtherSlotKept(s, p, j);
      }
    }
  }

  lemma OtherSlotKept(s: State, p: nat, j: nat)
    requires Shaped(s) && Owners(s) && ValidCap(s.cap) && p in s.producers && s.producers[p].InFlight()
    requires j != s.producers[p].head && j < s.producers[p].head + s.cap && s.producers[p].head < j + s.cap
    requires SlotOk(s, j)
    ensures SlotOk(Fulfil(s, p), j)
  {
    var h := s.producers[p].head;
    if j < h { DistinctSlots(j, h, s.cap); } else { DistinctSlots(h, j, s.cap); }
    if j in s.owner {
      assert OwnerOk(s, j);
    }
  }

  lemma FulfilKeepsLocals(s: State, p: nat)
    requires Shaped(s) && Indices(s) && Locals(s) && Owners(s)
    requires p in s.producers && s.producers[p].InFlight()
    ensures Locals(Fulfil(s, p))
  {
    var s' := Fulfil(s, p);
    assert LocalOk(s, p);
    forall q <- s'.producers
      ensures LocalOk(s', q)
    {
      assert LocalOk(s, q);
    }
  }

  lemma FulfilKeepsOwners(s: State, p: nat)
    requires Shaped(s) && Locals(s) && Owners(s)
    requires p in s.producers && s.producers[p].InFlight()
    ensures Owners(Fulfil(s, p))
  {
    var s' := Fulfil(s, p);
    assert LocalOk(s, p);
    forall j <- s'.owner
      ensures OwnerOk(s', j)
    {
      assert OwnerOk(s, j);
    }
  }

  lemma FulfilKeepsWrote(s: State, p: nat)
    requires Shaped(s) && Wrote(s)
    requires p in s.producers && s.producers[p].InFlight()
    ensures Wrote(Fulfil(s, p))
  {
    var s' := Fulfil(s, p);
    forall q <- s'.producers
      ensures Sent(s'.accepted, q) == s'.wrote[q] + Pending(s'.producers[q])
    {
      assert Sent(s.accepted, q) == s.wrote[q] + Pending(s.producers[q]);
      assert s'.accepted == s.accepted;
    }
  }

  lemma FulfilKeeps(s: State, p: nat)
    requires Inv(s) && p in s.producers && s.producers[p].InFlight()
    ensures Inv(Fulfil(s, p))
  {
    FulfilKeepsSlots(s, p);
    FulfilKeepsLocals(s, p);
    FulfilKeepsOwners(s, p);
    FulfilKeepsWrote(s, p);
    FulfilKeepsRest(s, p);
  }

  lemma FulfilKeepsRest(s: State, p: nat)
    requires Shaped(s) && Indices(s) && Delivered(s) && Closing(s)
    requires p in s.producers && s.producers[p].InFlight()
    ensures Indices(Fulfil(s, p)) && Delivered(Fulfil(s, p)) && Closing(Fulfil(s, p))
  {
  }

  // ---------------------------------------------------------------- consumer steps

  /** A consumer step that empties and delivers nothing, moving to `c`. */
  lemma CursorKeeps(s: State, c: Consumer)
    requires Inv(s) && Emptied(c) == Emptied(s.consumer) && Indices(s.(consumer := c)) && Delivered(s.(consumer := c))
    requires forall j <- s.owner :: s.tail + Claimed(c) <= j
    requires Closing(s.(consumer := c))
    ensures Inv(s.(consumer := c))
  {
    var s' := s.(consumer := c);
    forall q <- s'.producers
      ensures LocalOk(s', q)
    {
      assert LocalOk(s, q);
    }
    forall j <- s'.owner
      ensures OwnerOk(s', j)
    {
      assert OwnerOk(s, j);
    }
    forall j | s.tail + Emptied(c) <= j < s.tail + Emptied(c) + s.cap
      ensures SlotOk(s', j)
    {
      assert SlotOk(s, j);
    }
  }

  /** A ready slot in the peek window holds the accepted event of its index. */
  lemma ReadySlot(s: State, n: nat)
    requires Inv(s) && Emptied(s.consumer) == 0 && n < s.cap
    requires s.slots[Slot(s.curr + n, s.cap)] == Ready
    ensures s.tail + n < s.head && s.tail + n !in s.owner
    ensures s.data[Slot(s.curr + n, s.cap)] == s.accepted[s.tail + n].1
  {
    assert SlotOk(s, s.tail + n);
  }

  /** Moving the cursor of a peek keeps what is said about positions only. */
  lemma PeekCursor(s: State, c: Consumer)
    requires Shaped(s) && Indices(s) && Delivered(s) && Closing(s) && s.consumer.Peek?
    requires var n := s.consumer.available;
             (c == Peek(n + 1) && n < BatchLimit(s.cap) && s.tail + n < s.head) || c == if n > 0 then First(n) else Top
    ensures var s' := s.(consumer := c); Indices(s') && Delivered(s') && Closing(s')
  {
  }

  /** Where the peek loop goes from here. */
  function PeekNext(s: State): Consumer
    requires Shaped(s) && s.consumer.Peek?
  {
    var n := s.consumer.available;
    if n < BatchLimit(s.cap) && s.slots[MaskedSlot(s.curr + n, s.cap)] == Ready then Peek(n + 1)
    else if n > 0 then First(n)
    else Top
  }

  lemma PeekMoves(s: State)
    requires Shaped(s) && s.consumer.Peek?
    ensures Consume(s) == s.(consumer := PeekNext(s))
  {
  }

  lemma PeekKeeps(s: State)
    requires Inv(s) && s.consumer.Peek?
    ensures Inv(Consume(s))
  {
    PeekMoves(s);
    PeekOwners(s);
    PeekCursor(s, PeekNext(s));
    CursorKeeps(s, PeekNext(s));
  }

  /** A longer run claims no slot of a producer. */
  lemma PeekOwners(s: State)
    requires Inv(s) && s.consumer.Peek?
    ensures PeekNext(s).Peek? ==> s.tail + s.consumer.available < s.head
    ensures forall j <- s.owner :: s.tail + Claimed(PeekNext(s)) <= j
  {
    OwnedBeyondBatch(s);
    if PeekNext(s).Peek? {
      ReadySlot(s, s.consumer.available);
    }
  }

  /** Every slot of the claimed run is ready and holds its event, in order. */
  lemma ClaimedRun(s: State, i: nat)
    requires Inv(s) && Emptied(s.consumer) <= i < Claimed(s.consumer)
    ensures s.slots[Slot(s.curr + i, s.cap)] == Ready
    ensures s.data[Slot(s.curr + i, s.cap)] == s.accepted[s.tail + i].1
  {
    OwnedBeyondBatch(s);
    assert SlotOk(s, s.tail + i);
  }

  lemma OwnedBeyondBatch(s: State)
    requires Owners(s)
    ensures forall j <- s.owner :: s.tail + Claimed(s.consumer) <= j < s.head
  {
    forall j <- s.owner
      ensures s.tail + Claimed(s.consumer) <= j < s.head
    {
      assert OwnerOk(s, j);
    }
  }

  function Concat(slices: seq<seq<LogEvent>>): seq<LogEvent>
    requires 1 <= |slices| <= 2
  {
    if |slices| == 2 then slices[0] + slices[1] else slices[0]
  }

  /**
   The slices of a batch are non-empty and hold, one after the other, exactly the events at the
   indices curr .. curr + n; the end slot meets the start slot only for a batch of a whole ring.
   */
  lemma BatchExact(data: seq<LogEvent>, curr: nat, n: nat)
    requires ValidCap(|data|) && 0 < n <= |data|
    ensures var r := Slices(data, curr, n);
            && |Concat(r)| == n
            && (forall i | 0 <= i < n :: Concat(r)[i] == data[Slot(curr + i, |data|)])
            && |r[0]| > 0 && (|r| == 2 ==> |r[1]| > 0)
            && (|r| == 2 <==> Slot(curr, |data|) + n > |data|)
            && (|r| == 2 ==> |r[0]| == |data| - Slot(curr, |data|))
    ensures MaskedSlot(curr + n, |data|) == MaskedSlot(curr, |data|) <==> n == |data|
  {
    var r := Slices(data, curr, n);
    WrapAround(curr, n, |data|);
    assert |Concat(r)| == n;
    forall i | 0 <= i < n
      ensures Concat(r)[i] == data[Slot(curr + i, |data|)]
    {
      WrapAround(curr, i, |data|);
    }
  }

  ghost predicate BatchOk(s: State, slices: seq<seq<LogEvent>>)
    requires s.cap > 0 && (s.consumer.First? || s.consumer.Second?) && 1 <= |slices| <= 2
  {
    var n := s.consumer.available;
    && |Concat(slices)| == n && s.tail + n <= |s.accepted|
    && (forall i | 0 <= i < n :: Concat(slices)[i] == s.accepted[s.tail + i].1)
    && (|slices| == 2 <==> Slot(s.curr, s.cap) + n > s.cap)
    && (|slices| == 2 ==> |slices[0]| == s.cap - Slot(s.curr, s.cap))
  }

  /** A run of the data array that holds certain events is handed over as these events. */
  lemma BatchHolds(data: seq<LogEvent>, curr: nat, n: nat, events: seq<LogEvent>)
    requires ValidCap(|data|) && 0 < n <= |data| && |events| == n
    requires forall i | 0 <= i < n :: data[Slot(curr + i, |data|)] == events[i]
    ensures Concat(Slices(data, curr, n)) == events
  {
    BatchExact(data, curr, n);
  }

  /** The slices handed over are the accepted events at tail .. tail + n. */
  lemma BatchIsAccepted(s: State, slices: seq<seq<LogEvent>>)
    requires Inv(s) && (s.consumer.First? || s.consumer.Second?)
    requires slices == Slices(s.data, s.curr, s.consumer.available)
    ensures BatchOk(s, slices)
  {
    var n := s.consumer.available;
    var events := seq(n, i requires 0 <= i < n => s.accepted[s.tail + i].1);
    BatchEvents(s, events);
    BatchHolds(s.data, s.curr, n, events);
    BatchExact(s.data, s.curr, n);
  }

  lemma BatchEvents(s: State, events: seq<LogEvent>)
    requires Inv(s) && (s.consumer.First? || s.consumer.Second?) && |events| == s.consumer.available
    requires forall i | 0 <= i < |events| :: events[i] == s.accepted[s.tail + i].1
    ensures forall i | 0 <= i < |events| :: s.data[Slot(s.curr + i, s.cap)] == events[i]
  {
    forall i | 0 <= i < |events|
      ensures s.data[Slot(s.curr + i, s.cap)] == events[i]
    {
      ClaimedRun(s, i);
    }
  }

  lemma FirstDelivered(s: State)
    requires Shaped(s) && Indices(s) && Delivered(s) && s.consumer.First?
    requires BatchOk(s, Slices(s.data, s.curr, s.consumer.available))
    ensures Delivered(Consume(s))
  {
    var slices := Slices(s.data, s.curr, s.consumer.available);
    assert slices[0] <= Concat(slices);
    DeliverMore(s.delivered, slices[0], s.accepted, Concat(slices), s.tail);
  }

  lemma SecondDelivered(s: State)
    requires Shaped(s) && Indices(s) && Delivered(s) && s.consumer.Second?
    requires BatchOk(s, Slices(s.data, s.curr, s.consumer.available))
    ensures Delivered(Consume(s))
  {
    var slices := Slices(s.data, s.curr, s.consumer.available);
    assert slices[1] == Concat(slices)[|slices[0]|..];
    DeliverMore(s.delivered, slices[1], s.accepted, Concat(slices), s.tail);
  }

  /** Appending the next piece of a batch keeps the delivered events a prefix of the accepted ones. */
  lemma DeliverMore(delivered: seq<LogEvent>, piece: seq<LogEvent>, accepted: seq<(nat, LogEvent)>,
                    batch: seq<LogEvent>, tail: nat)
    requires tail + |batch| <= |accepted| && forall i | 0 <= i < |batch| :: batch[i] == accepted[tail + i].1
    requires tail <= |delivered| && |delivered| + |piece| <= tail + |batch|
    requires piece == batch[|delivered| - tail..|delivered| - tail + |piece|]
    requires forall k | 0 <= k < |delivered| :: delivered[k] == accepted[k].1
    ensures forall k | 0 <= k < |delivered + piece| :: (delivered + piece)[k] == accepted[k].1
  {
    forall k | |delivered| <= k < |delivered + piece|
      ensures (delivered + piece)[k] == accepted[k].1
    {
      assert (delivered + piece)[k] == batch[k - tail];
    }
  }

  lemma DeliveryKeeps(s: State)
    requires Inv(s) && (s.consumer.First? || s.consumer.Second?)
    ensures Delivered(Consume(s))
  {
    BatchIsAccepted(s, Slices(s.data, s.curr, s.consumer.available));
    if s.consumer.First? { FirstDelivered(s); } else { SecondDelivered(s); }
  }

  lemma HandOverKeeps(s: State)
    requires Inv(s) && (s.consumer.First? || s.consumer.Second?)
    ensures Inv(Consume(s))
  {
    DeliveryKeeps(s);
    var s' := Consume(s);
    forall q <- s'.producers
      ensures LocalOk(s', q)
    {
      assert LocalOk(s, q);
    }
    forall j <- s'.owner
      ensures OwnerOk(s', j)
    {
      assert OwnerOk(s, j);
    }
    forall j | s.tail <= j < s.tail + s.cap
      ensures SlotOk(s', j)
    {
      assert SlotOk(s, j);
    }
  }

  /** Emptying the slot of index tail + i makes it the free slot of index tail + i + cap. */
  lemma EmptyingKeepsSlots(s: State)
    requires Inv(s) && s.consumer.Commit? && s.consumer.done < s.consumer.available
    ensures SlotsOk(Consume(s))
  {
    var s', i := Consume(s), s.consumer.done;
    var k := s.tail + i;
    WrapAround(k, s.cap, s.cap);
    OwnedBeyondBatch(s);
    forall j | k + 1 <= j < k + 1 + s.cap
      ensures SlotOk(s', j)
    {
      if j < k + s.cap {
        assert SlotOk(s, j);
        DistinctSlots(k, j, s.cap);
      }
    }
  }

  lemma EmptyingKeeps(s: State)
    requires Inv(s) && s.consumer.Commit? && s.consumer.done < s.consumer.available
    ensures Inv(Consume(s))
  {
    EmptyingKeepsSlots(s);
    var s' := Consume(s);
    forall q <- s'.producers
      ensures LocalOk(s', q)
    {
      assert LocalOk(s, q);
    }
    forall j <- s'.owner
      ensures OwnerOk(s', j)
    {
      assert OwnerOk(s, j);
    }
  }

  lemma ReleaseKeeps(s: State)
    requires Inv(s) && s.consumer.Commit? && s.consumer.done == s.consumer.available
    ensures Inv(Consume(s))
  {
    var s' := Consume(s);
    forall q <- s'.producers
      ensures LocalOk(s', q)
    {
      assert LocalOk(s, q);
    }
    forall j <- s'.owner
      ensures OwnerOk(s', j)
    {
      assert OwnerOk(s, j);
    }
    forall j | s'.tail <= j < s'.tail + s.cap
      ensures SlotOk(s', j)
    {
      assert SlotOk(s, j);
    }
  }

  lemma ControlKeeps(s: State)
    requires Inv(s) && Claimed(s.consumer) == 0 && !s.consumer.Peek? && !s.consumer.Commit?
    ensures Inv(Consume(s))
  {
    OwnedBeyondBatch(s);
    var c := Consume(s).consumer;
    assert Consume(s) == s.(consumer := c);
    CursorKeeps(s, c);
  }

  lemma ConsumeKeeps(s: State)
    requires Inv(s)
    ensures Inv(Consume(s))
  {
    if s.consumer.Peek? {
      PeekKeeps(s);
    } else if s.consumer.First? || s.consumer.Second? {
      HandOverKeeps(s);
    } else if s.consumer.Commit? {
      if s.consumer.done < s.consumer.available { EmptyingKeeps(s); } else { ReleaseKeeps(s); }
    } else {
      ControlKeeps(s);
    }
  }
}

/**
 The ring buffer as the object of the source, driven by one thread at a time: its loops over the
 slot and data arrays implement a bounded first-in first-out queue.
 */
module RingQueue {
  import opened RingIndex
  import opened Ring
  import opened RingInvariant

  class RingBuffer {
    var head: Word
    var tail: Word
    var closed: bool
    const mask: nat
    const data: array<LogEvent>
    const slots: array<SlotState>
    /** The events written and not yet consumed, oldest first. */
    ghost var contents: seq<LogEvent>

    ghost predicate Valid()
      reads this, data, slots
    {
      && ValidCap(data.Length) && slots.Length == data.Length && mask == data.Length - 1
      && head == tail + |contents| && |contents| <= data.Length
      && Holds(tail, head, Ready) && Holds(head, tail + data.Length, Empty)
      && forall x | tail <= x < head :: data[Slot(x, data.Length)] == contents[x - tail]
    }

    /** The slots of the indices lo .. hi are all in the given state. */
    ghost predicate Holds(lo: nat, hi: nat, state: SlotState)
      requires slots.Length == data.Length > 0
      reads slots
    {
      forall x: nat | lo <= x < hi :: slots[Slot(x, data.Length)] == state
    }

    constructor (capacity: nat)
      requires CapacityAccepted(capacity)
      ensures Valid() && contents == [] && head == tail == 0 && !closed
      ensures data.Length == capacity && fresh(data) && fresh(slots)
    {
      AcceptedExactlyPowersOfTwo(capacity);
      head, tail, closed := 0, 0, false;
      mask := capacity - 1;
      data := new LogEvent[capacity](_ => NO_EVENT);
      slots := new SlotState[capacity](_ => Empty);
      contents := [];
    }

    function Cap(): (capacity: nat)
      reads this, data, slots
      ensures Valid() ==> capacity == data.Length
    {
      mask + 1
    }

    method Close()
      requires Valid()
      modifies this`closed
      ensures Valid() && closed
    {
      closed := true;
    }

    /** For a single writer, a write is refused exactly when the ring is closed or full. */
    method TryWrite(event: LogEvent) returns (ok: bool)
      requires Valid() && head + 1 < TWO64
      modifies this`head, this`contents, data, slots
      ensures Valid()
      ensures ok <==> !closed && |old(contents)| < data.Length
      ensures contents == if ok then old(contents) + [event] else old(contents)
    {
      if closed {
        return false;
      }
      var h := head;
      var t := tail;
      if Sub64(h, t) >= Cap() {
        return false;
      }
      head := Add64(h, 1);
      var slotIdx := MaskedSlot(h, data.Length);
      SlotsApart(t, h);
      // The slot is empty already: waiting for it takes no turn.
      assert slots[slotIdx] == Empty;
      slots[slotIdx] := Writing;
      data[slotIdx] := event;
      slots[slotIdx] := Ready;
      contents := contents + [event];
      ok := true;
    }

    /** No other index within one capacity shares the slot of `at`. */
    lemma SlotsApart(from: nat, at: nat)
      requires data.Length > 0 && from <= at < from + data.Length
      ensures forall x: nat | from <= x < from + data.Length && x != at :: Slot(x, data.Length) != Slot(at, data.Length)
    {
      forall x: nat | from <= x < from + data.Length && x != at
        ensures Slot(x, data.Length) != Slot(at, data.Length)
      {
        if x < at {
          DistinctSlots(x, at, data.Length);
        } else {
          DistinctSlots(at, x, data.Length);
        }
      }
    }

    /** The peek loop: how many slots from tail on are ready, up to the batch limit. */
    method PeekRun() returns (available: nat)
      requires Valid()
      ensures available == if |contents| <= BatchLimit(data.Length) then |contents| else BatchLimit(data.Length)
    {
      var batchLimit := Cap();
      if batchLimit > MAX_BATCH {
        batchLimit := MAX_BATCH;
      }
      available := 0;
      while available < batchLimit
        invariant available <= |contents| && available <= batchLimit
      {
        if slots[MaskedSlot(tail + available, data.Length)] != Ready {
          break;
        }
        available := available + 1;
      }
    }

    /** One successful round of Consume: peek, hand over in one or two slices, empty, release. */
    method ConsumeRound() returns (slices: seq<seq<LogEvent>>)
      requires Valid() && contents != []
      modifies this`tail, this`contents, slots
      ensures Valid()
      ensures 1 <= |slices| <= 2 && forall s <- slices :: s != []
      ensures old(contents) == Concat(slices) + contents
      ensures |Concat(slices)| ==
              if |old(contents)| <= BatchLimit(data.Length) then |old(contents)| else BatchLimit(data.Length)
    {
      var available := PeekRun();
      slices := Slices(data[..], tail, available);
      BatchExact(data[..], tail, available);
      assert Concat(slices) == contents[..available];
      EmptyRun(available);
    }

    /** The commit loop and the release of the slots. */
    method EmptyRun(available: nat)
      requires Valid() && available <= |contents|
      modifies this`tail, this`contents, slots
      ensures Valid() && contents == old(contents)[available..]
    {
      var i := 0;
      while i < available
        invariant i <= available
        invariant Holds(tail, tail + i, Empty) && Holds(tail + i, head, Ready) && Holds(head, tail + data.Length, Empty)
        modifies slots
      {
        SlotsApart(tail, tail + i);
        slots[MaskedSlot(tail + i, data.Length)] := Empty;
        i := i + 1;
      }
      SlotsRecur(available);
      tail := Add64(tail, available);
      contents := contents[available..];
    }

    /** The indices one capacity on use the emptied slots again. */
    lemma SlotsRecur(available: nat)
      requires slots.Length == data.Length > 0 && available <= data.Length && Holds(tail, tail + available, Empty)
      ensures Holds(tail + data.Length, tail + available + data.Length, Empty)
    {
      forall x: nat | tail + data.Length <= x < tail + available + data.Length
        ensures slots[Slot(x, data.Length)] == Empty
      {
        var y: nat := x - data.Length;
        WrapAround(y, data.Length, data.Length);
        assert slots[Slot(y, data.Length)] == Empty;
      }
    }

    /** Consume on a closed ring: rounds until it is empty, handing over everything in order. */
    method Drain() returns (delivered: seq<LogEvent>)
      requires Valid() && closed
      modifies this`tail, this`contents, slots
      ensures Valid() && contents == [] && delivered == old(contents)
    {
      delivered := [];
      while tail != head
        invariant Valid() && old(contents) == delivered + contents
        decreases |contents|
      {
        var slices := ConsumeRound();
        delivered := delivered + Concat(slices);
      }
    }
  }

  /** NewRingBuffer: an object for every accepted capacity, an error for any other. */
  method NewRingBuffer(capacity: nat) returns (rb: RingBuffer?, ok: bool)
    ensures ok <==> ValidCap(capacity)
    ensures ok ==> rb != null && fresh(rb) && rb.Valid() && rb.data.Length == capacity
    ensures ok ==> rb.contents == [] && rb.head == rb.tail == 0 && !rb.closed
  {
    AcceptedExactlyPowersOfTwo(capacity);
    if capacity == 0 || And(capacity, capacity - 1) != 0 {
      return null, false;
    }
    if capacity > MAX_INT {
      return null, false;
    }
    rb := new RingBuffer(capacity);
    ok := true;
  }
}

/**
 The multi-producer single-consumer ring buffer as a transition system: one step per atomic
 operation or data access, any number of producers, any interleaving.
 The fields `accepted`, `delivered`, `wrote` and `owner` are history: no step reads them.
 */
module Ring {
  import opened Base
  import opened RingIndex

  datatype LogEvent = LogEvent(level: nat, timestamp: int, message: string, httpMethod: string, path: string,
                               status: nat, bytes: int, durationNanos: int, remoteAddr: string)

  const NO_EVENT := LogEvent(0, 0, "", "", "", 0, 0, 0, "")

  datatype SlotState = Empty | Writing | Ready

  /** Program counter and locals of one producer. `result` is what its last TryWrite returned. */
  datatype Producer =
    | Idle(result: Option<bool>)
    | Enter(event: LogEvent)
    | LoadHead(event: LogEvent)
    | LoadTail(event: LogEvent, head: Word)
    | Swap(event: LogEvent, head: Word, tail: Word)
    | Await(event: LogEvent, head: Word)
    | Mark(event: LogEvent, head: Word)
    | Fill(event: LogEvent, head: Word)
    | Publish(event: LogEvent, head: Word)
  {
    /** Holds a reserved slot. */
    predicate InFlight() {
      Await? || Mark? || Fill? || Publish?
    }
  }

  /** Program counter and batch locals of the consumer. */
  datatype Consumer =
    | Start
    | Top
    | ExitTail
    | ExitHead(seenTail: Word)
    | Test
    | Recheck
    | Peek(available: nat)
    | First(available: nat)
    | Second(available: nat)
    | Commit(available: nat, done: nat)
    | Returned

  datatype State = State(
    cap: nat,
    head: Word,
    tail: Word,
    slots: seq<SlotState>,
    data: seq<LogEvent>,
    closed: bool,
    producers: map<nat, Producer>,
    consumer: Consumer,
    curr: Word,
    accepted: seq<(nat, LogEvent)>,
    delivered: seq<LogEvent>,
    wrote: map<nat, seq<LogEvent>>,
    owner: map<nat, nat>)

  /** What allocation in the source guarantees of any state. */
  predicate Shaped(s: State) {
    && 0 < s.cap <= MAX_INT
    && |s.slots| == s.cap && |s.data| == s.cap
    && s.wrote.Keys == s.producers.Keys
  }

  function BatchLimit(cap: nat): (r: nat)
    requires cap > 0
    ensures 0 < r <= cap && r <= 128 && (r == cap || r == 128)
  {
    if cap > MAX_BATCH then MAX_BATCH else cap
  }

  function NewRing(cap: nat, producers: set<nat>): (s: State)
    requires 0 < cap <= MAX_INT
    ensures Shaped(s)
  {
    State(cap, 0, 0, seq(cap, _ => Empty), seq(cap, _ => NO_EVENT), false,
          map p | p in producers :: Idle(None), Start, 0,
          [], [], map p | p in producers :: [], map[])
  }

  // ---------------------------------------------------------------- producers

  function Begin(s: State, p: nat, event: LogEvent): (s': State)
    requires Shaped(s)
    ensures Shaped(s')
  {
    if p in s.producers && s.producers[p].Idle? then Goto(s, p, Enter(event)) else s
  }

  function Goto(s: State, p: nat, pc: Producer): (s': State)
    requires Shaped(s) && p in s.producers
    ensures Shaped(s')
  {
    s.(producers := s.producers[p := pc])
  }

  /** The load and compare-and-swap steps: nothing but `head` changes in shared memory. */
  function Reserve(s: State, p: nat): (s': State)
    requires Shaped(s) && p in s.producers && !s.producers[p].InFlight()
    ensures Shaped(s')
  {
    match s.producers[p]
    case Enter(e) =>
      Goto(s, p, if s.closed then Idle(Some(false)) else LoadHead(e))
    case LoadHead(e) =>
      Goto(s, p, LoadTail(e, s.head))
    case LoadTail(e, h) =>
      Goto(s, p, if Sub64(h, s.tail) >= s.cap then Idle(Some(false)) else Swap(e, h, s.tail))
    case Swap(e, h, _) =>
      if s.head == h then
        Goto(s, p, Await(e, h)).(head := Add64(h, 1), accepted := s.accepted + [(p, e)], owner := s.owner[h := p])
      else
        Goto(s, p, LoadHead(e))
    case _ => s
  }

  /** The steps on the reserved slot. */
  function Fulfil(s: State, p: nat): (s': State)
    requires Shaped(s) && p in s.producers && s.producers[p].InFlight()
    ensures Shaped(s')
  {
    var pc := s.producers[p];
    var slot := MaskedSlot(pc.head, s.cap);
    match pc
    case Await(e, h) =>
      if s.slots[slot] != Empty then s else Goto(s, p, Mark(e, h))
    case Mark(e, h) =>
      Goto(s, p, Fill(e, h)).(slots := s.slots[slot := Writing])
    case Fill(e, h) =>
      Goto(s, p, Publish(e, h)).(data := s.data[slot := e])
    case Publish(e, h) =>
      Goto(s, p, Idle(Some(true))).(
      slots := s.slots[slot := Ready],
      wrote := s.wrote[p := s.wrote[p] + [e]],
      owner := s.owner - {h})
  }

  /** One atomic step of TryWrite by producer `p`. */
  function Produce(s: State, p: nat): (s': State)
    requires Shaped(s)
    ensures Shaped(s')
  {
    if p !in s.producers then s
    else if s.producers[p].InFlight() then Fulfil(s, p)
    else Reserve(s, p)
  }

  // ---------------------------------------------------------------- consumer

  /** The slices a batch of `n` events is handed over in. */
  function Slices(data: seq<LogEvent>, curr: nat, n: nat): (r: seq<seq<LogEvent>>)
    requires |data| > 0
    ensures 1 <= |r| <= 2
  {
    var nextSlot := MaskedSlot(curr, |data|);
    var endSlot := MaskedSlot(curr + n, |data|);
    if endSlot > nextSlot then
      [data[nextSlot..endSlot]]
    else if endSlot < nextSlot then
      if endSlot > 0 then [data[nextSlot..], data[..endSlot]] else [data[nextSlot..]]
    else
      if nextSlot > 0 then [data[nextSlot..], data[..nextSlot]] else [data[nextSlot..]]
  }

  /** One atomic step of Consume. */
  function Consume(s: State): (s': State)
    requires Shaped(s)
    ensures Shaped(s')
  {
    match s.consumer
    case Start => s.(curr := s.tail, consumer := Top)
    case Top => s.(consumer := if s.closed then ExitTail else Test)
    case ExitTail => s.(consumer := ExitHead(s.tail))
    case ExitHead(t) => s.(consumer := if t == s.head then Returned else Test)
    case Test =>
      s.(consumer := if s.slots[MaskedSlot(s.curr, s.cap)] == Ready then Peek(0) else Recheck)
    case Recheck => s.(consumer := Top)
    case Peek(n) =>
      if n < BatchLimit(s.cap) && s.slots[MaskedSlot(s.curr + n, s.cap)] == Ready then
        s.(consumer := Peek(n + 1))
      else
        s.(consumer := if n > 0 then First(n) else Top)
    case First(n) =>
      var slices := Slices(s.data, s.curr, n);
      s.(delivered := s.delivered + slices[0], consumer := if |slices| == 2 then Second(n) else Commit(n, 0))
    case Second(n) =>
      var slices := Slices(s.data, s.curr, n);
      s.(delivered := s.delivered + (if |slices| == 2 then slices[1] else []), consumer := Commit(n, 0))
    case Commit(n, i) =>
      if i < n then
        s.(slots := s.slots[MaskedSlot(s.curr + i, s.cap) := Empty], consumer := Commit(n, i + 1))
      else
        s.(curr := Add64(s.curr, n), tail := Add64(s.curr, n), consumer := Top)
    case Returned => s
  }

  // ---------------------------------------------------------------- runs

  datatype Action = Call(p: nat, event: LogEvent) | Act(p: nat) | Advance | Close

  function Step(s: State, a: Action): (s': State)
    requires Shaped(s)
    ensures Shaped(s')
  {
    match a
    case Call(p, e) => Begin(s, p, e)
    case Act(p) => Produce(s, p)
    case Advance => Consume(s)
    case Close => s.(closed := true)
  }

  function Run(s: State, actions: seq<Action>): (s': State)
    requires Shaped(s)
    ensures Shaped(s')
    decreases |actions|
  {
    if actions == [] then s else Run(Step(s, actions[0]), actions[1..])
  }
}

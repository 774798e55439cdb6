/**
 * The input queue shared by the keyboard interrupt and the main loop: the two calls as methods,
 * and every interleaving of their individual loads and stores as a state machine.
 */
module InputRing {

  const SIZE := 64
  const FIELDS := 4

  /** An event is copied field by field: key, pressed, modifiers, character. */
  type Event = e: seq<int> | |e| == FIELDS witness [0, 0, 0, 0]

  function Successor(i: nat): (j: nat)
    ensures j < SIZE
  {
    (i + 1) % SIZE
  }

  /** How many events lie between the two indices. */
  function Distance(read: nat, write: nat): nat
    requires read < SIZE && write < SIZE
  {
    if read <= write then write - read else write + SIZE - read
  }

  /** The events between the two indices, oldest first. */
  function Between(queue: seq<Event>, read: nat, write: nat): (s: seq<Event>)
    requires |queue| == SIZE && read < SIZE && write < SIZE
    ensures |s| == Distance(read, write) <= SIZE - 1
  {
    seq(Distance(read, write), i requires 0 <= i => queue[(read + i) % SIZE])
  }

  // ---------- one call at a time ----------

  class InputQueue {
    const queue: array<Event>
    var readIndex: nat
    var writeIndex: nat

    ghost predicate Valid()
      reads this
    {
      queue.Length == SIZE && readIndex < SIZE && writeIndex < SIZE
    }

    ghost function Contents(): seq<Event>
      requires Valid()
      reads this, queue
    {
      Between(queue[..], readIndex, writeIndex)
    }

    constructor ()
      ensures Valid() && Contents() == []
    {
      queue := new Event[SIZE](_ => [0, 0, 0, 0]);
      readIndex, writeIndex := 0, 0;
    }

    /** input_push(): refused exactly when 63 events are waiting. */
    method Push(event: Event) returns (rc: int)
      requires Valid()
      modifies this`writeIndex, queue
      ensures Valid()
      ensures rc == if |old(Contents())| < SIZE - 1 then 0 else -1
      ensures Contents() == if rc == 0 then old(Contents()) + [event] else old(Contents())
    {
      var next := (writeIndex + 1) % SIZE;
      if next == readIndex {
        return -1;
      }
      ghost var before := queue[..];
      queue[writeIndex] := event;
      PushBetween(before, readIndex, writeIndex, event);
      assert queue[..] == before[writeIndex := event];
      writeIndex := next;
      rc := 0;
    }

    /** input_pop(): the oldest event, unless there is none. */
    method Pop() returns (rc: int, event: Event)
      requires Valid()
      modifies this`readIndex
      ensures Valid()
      ensures rc == if old(Contents()) != [] then 0 else -1
      ensures rc == 0 ==> old(Contents()) == [event] + Contents()
      ensures rc != 0 ==> Contents() == old(Contents())
    {
      event := [0, 0, 0, 0];
      if readIndex == writeIndex {
        return -1, event;
      }
      event := queue[readIndex];
      PopBetween(queue[..], readIndex, writeIndex);
      readIndex := (readIndex + 1) % SIZE;
      rc := 0;
    }
  }

  lemma PushBetween(queue: seq<Event>, read: nat, write: nat, event: Event)
    requires |queue| == SIZE && read < SIZE && write < SIZE && Successor(write) != read
    ensures Between(queue[write := event], read, Successor(write)) == Between(queue, read, write) + [event]
  {
  }

  lemma PopBetween(queue: seq<Event>, read: nat, write: nat)
    requires |queue| == SIZE && read < SIZE && write < SIZE && read != write
    ensures Between(queue, read, write) == [queue[read]] + Between(queue, Successor(read), write)
  {
  }

  // ---------- loads and stores, interleaved ----------

  /** Where the interrupt handler is inside input_push(). */
  datatype Producer =
    | PIdle
    | PStart(event: Event)
    | PNext(event: Event, next: nat)
    | PRoom(event: Event, next: nat)
    | PCopy(event: Event, next: nat, slot: nat, done: nat)

  /** Where the main loop is inside input_pop(). */
  datatype Consumer =
    | CIdle
    | CStart
    | CRead(read: nat)
    | CSome
    | CCopy(slot: nat, copied: seq<int>)
    | CAdvance(event: Event, read: nat)

  /** The shared memory, the two threads, and the histories of accepted and of popped events. */
  datatype State = State(queue: seq<Event>, read: nat, write: nat, producer: Producer, consumer: Consumer,
                         accepted: seq<Event>, popped: seq<Event>)

  function Initial(queue: seq<Event>): State {
    State(queue, 0, 0, PIdle, CIdle, [], [])
  }

  /** A call begins, or one of the threads performs its next load or store. */
  datatype Action = BeginPush(event: Event) | BeginPop | ProducerMoves | ConsumerMoves

  predicate Enabled(s: State, a: Action) {
    match a
    case BeginPush(_) => s.producer.PIdle?
    case BeginPop => s.consumer.CIdle?
    case ProducerMoves => !s.producer.PIdle?
    case ConsumerMoves => !s.consumer.CIdle?
  }

  /** What a step means to the callers: most nothing; some are a call's return. */
  datatype Label = Internal | Pushed(event: Event) | Full | Popped(event: Event) | Empty

  function MoveProducer(s: State): (r: (State, Label))
    requires |s.queue| == SIZE
    ensures |r.0.queue| == SIZE
  {
    match s.producer
    case PIdle => (s, Internal)
    case PStart(e) => (s.(producer := PNext(e, Successor(s.write))), Internal)
    case PNext(e, next) =>
      if next == s.read then (s.(producer := PIdle), Full) else (s.(producer := PRoom(e, next)), Internal)
    case PRoom(e, next) => (s.(producer := PCopy(e, next, s.write, 0)), Internal)
    case PCopy(e, next, slot, done) =>
      if done < FIELDS && slot < SIZE then
        (s.(queue := s.queue[slot := s.queue[slot][done := e[done]]], producer := PCopy(e, next, slot, done + 1)), Internal)
      else
        (s.(write := next, accepted := s.accepted + [e], producer := PIdle), Pushed(e))
  }

  function MoveConsumer(s: State): (r: (State, Label))
    requires |s.queue| == SIZE
    ensures |r.0.queue| == SIZE
  {
    match s.consumer
    case CIdle => (s, Internal)
    case CStart => (s.(consumer := CRead(s.read)), Internal)
    case CRead(read) =>
      if read == s.write then (s.(consumer := CIdle), Empty) else (s.(consumer := CSome), Internal)
    case CSome => (s.(consumer := CCopy(s.read, [])), Internal)
    case CCopy(slot, copied) =>
      if |copied| < FIELDS && slot < SIZE then
        (s.(consumer := CCopy(slot, copied + [s.queue[slot][|copied|]])), Internal)
      else if |copied| == FIELDS then (s.(consumer := CAdvance(copied, s.read)), Internal)
      else (s, Internal)
    case CAdvance(e, read) =>
      (s.(read := Successor(read), popped := s.popped + [e], consumer := CIdle), Popped(e))
  }

  function Step(s: State, a: Action): (r: (State, Label))
    requires |s.queue| == SIZE
    ensures |r.0.queue| == SIZE
  {
    match a
    case BeginPush(e) => (s.(producer := PStart(e)), Internal)
    case BeginPop => (s.(consumer := CStart), Internal)
    case ProducerMoves => MoveProducer(s)
    case ConsumerMoves => MoveConsumer(s)
  }

  // ---------- the invariant ----------

  ghost predicate HistoryInv(s: State) {
    && |s.queue| == SIZE
    && s.read == |s.popped| % SIZE && s.write == |s.accepted| % SIZE
    && |s.popped| <= |s.accepted| <= |s.popped| + SIZE - 1
    && s.accepted[..|s.popped|] == s.popped
    && forall i :: |s.popped| <= i < |s.accepted| ==> s.queue[i % SIZE] == s.accepted[i]
  }

  ghost predicate ProducerInv(s: State)
    requires HistoryInv(s)
  {
    match s.producer
    case PIdle => true
    case PStart(_) => true
    case PNext(_, next) => next == Successor(s.write)
    case PRoom(_, next) => next == Successor(s.write) && |s.accepted| < |s.popped| + SIZE - 1
    case PCopy(e, next, slot, done) =>
      && next == Successor(s.write) && |s.accepted| < |s.popped| + SIZE - 1
      && slot == s.write && done <= FIELDS && s.queue[slot][..done] == e[..done]
  }

  ghost predicate ConsumerInv(s: State)
    requires HistoryInv(s)
  {
    match s.consumer
    case CIdle => true
    case CStart => true
    case CRead(read) => read == s.read
    case CSome => |s.popped| < |s.accepted|
    case CCopy(slot, copied) =>
      && slot == s.read && |s.popped| < |s.accepted|
      && |copied| <= FIELDS && s.queue[slot][..|copied|] == copied
    case CAdvance(e, read) => read == s.read && |s.popped| < |s.accepted| && e == s.queue[read]
  }

  ghost predicate Inv(s: State) {
    HistoryInv(s) && ProducerInv(s) && ConsumerInv(s)
  }

  /** The events waiting, as the histories tell. */
  function Pending(s: State): seq<Event> {
    if |s.popped| <= |s.accepted| then s.accepted[|s.popped|..] else []
  }

  /** Indices less than 64 apart fall into different slots. */
  lemma SlotsDiffer(i: nat, j: nat)
    requires i < j < i + SIZE
    ensures i % SIZE != j % SIZE
  {
  }

  lemma SuccessorModulo(n: nat)
    ensures Successor(n % SIZE) == (n + 1) % SIZE
  {
  }

  /** The slot being filled is none of those that hold a waiting event. */
  lemma FillingSlotFree(s: State, i: nat)
    requires HistoryInv(s) && |s.accepted| < |s.popped| + SIZE - 1 && |s.popped| <= i < |s.accepted|
    ensures i % SIZE != s.write
  {
    SlotsDiffer(i, |s.accepted|);
  }

  /** While both threads copy, they copy different slots. */
  lemma NeverSameSlot(s: State)
    requires Inv(s) && s.producer.PCopy? && s.consumer.CCopy?
    ensures s.producer.slot != s.consumer.slot
  {
    FillingSlotFree(s, |s.popped|);
  }

  // ---------- linearization ----------

  /** What a bounded queue of 63 events does at a label; None where the label is not allowed. */
  datatype Outcome = Illegal | Queue(events: seq<Event>)

  function Bounded(q: seq<Event>, event: Label): Outcome {
    match event
    case Internal => Queue(q)
    case Pushed(e) => if |q| < SIZE - 1 then Queue(q + [e]) else Illegal
    case Full => if |q| == SIZE - 1 then Queue(q) else Illegal
    case Popped(e) => if q != [] && q[0] == e then Queue(q[1..]) else Illegal
    case Empty => if q == [] then Queue(q) else Illegal
  }

  /** A step takes one good state to another, and the bounded queue goes along. */
  ghost predicate Linear(s: State, r: (State, Label)) {
    Inv(r.0) && Bounded(Pending(s), r.1) == Queue(Pending(r.0))
  }

  lemma ProducerStepLinear(s: State)
    requires Inv(s) && !s.producer.PIdle?
    ensures Linear(s, MoveProducer(s))
  {
    match s.producer {
      case PStart(_) =>
      case PNext(_, _) => FullTestLinear(s);
      case PRoom(_, _) =>
      case PCopy(_, _, _, done) =>
        if done < FIELDS {
          CopyKeepsWaiting(s, MoveProducer(s).0);
        } else {
          PublishLinear(s);
        }
    }
  }

  /** The successor of the write index meets the read index exactly when 63 events wait. */
  lemma FullTestLinear(s: State)
    requires Inv(s) && s.producer.PNext?
    ensures Linear(s, MoveProducer(s))
  {
    SuccessorModulo(|s.accepted|);
    if |s.accepted| < |s.popped| + SIZE - 1 && s.producer.next == s.read {
      SlotsDiffer(|s.popped|, |s.accepted| + 1);
      assert false;
    }
  }

  /** Storing the write index accepts the event that was copied. */
  lemma PublishLinear(s: State)
    requires Inv(s) && s.producer.PCopy? && s.producer.done == FIELDS
    ensures Linear(s, MoveProducer(s))
  {
    var e, s' := s.producer.event, MoveProducer(s).0;
    assert s.queue[s.write] == e by {
      assert s.queue[s.write][..FIELDS] == s.queue[s.write] && e[..FIELDS] == e;
    }
    Publish(s, s', e);
  }

  lemma Publish(s: State, s': State, e: Event)
    requires HistoryInv(s) && |s.accepted| < |s.popped| + SIZE - 1 && s.queue[s.write] == e
    requires s' == s.(write := Successor(s.write), accepted := s.accepted + [e], producer := PIdle)
    ensures HistoryInv(s') && Pending(s') == Pending(s) + [e]
  {
    SuccessorModulo(|s.accepted|);
    assert s'.accepted[..|s.popped|] == s.accepted[..|s.popped|];
    forall i | |s'.popped| <= i < |s'.accepted|
      ensures s'.queue[i % SIZE] == s'.accepted[i]
    {
    }
  }

  lemma CopyKeepsWaiting(s: State, s': State)
    requires Inv(s) && s.producer.PCopy? && s.producer.done < FIELDS && s' == MoveProducer(s).0
    ensures Inv(s')
  {
    var p := s.producer;
    forall i | |s.popped| <= i < |s.accepted|
      ensures s'.queue[i % SIZE] == s.accepted[i]
    {
      FillingSlotFree(s, i);
    }
    assert s'.queue[p.slot][..p.done + 1] == s.queue[p.slot][..p.done] + [p.event[p.done]];
    if |s.popped| < |s.accepted| {
      FillingSlotFree(s, |s.popped|);
    }
  }

  lemma ConsumerStepLinear(s: State)
    requires Inv(s) && !s.consumer.CIdle?
    ensures Linear(s, MoveConsumer(s))
  {
    match s.consumer {
      case CStart =>
      case CRead(_) => EmptyTestLinear(s);
      case CSome =>
      case CCopy(slot, copied) =>
        if |copied| < FIELDS {
          assert s.queue[slot][..|copied| + 1] == s.queue[slot][..|copied|] + [s.queue[slot][|copied|]];
        } else {
          assert s.queue[slot][..|copied|] == s.queue[slot];
        }
      case CAdvance(_, _) => AdvanceLinear(s);
    }
  }

  /** The indices are equal exactly when no event waits. */
  lemma EmptyTestLinear(s: State)
    requires Inv(s) && s.consumer.CRead?
    ensures Linear(s, MoveConsumer(s))
  {
    if |s.popped| < |s.accepted| && s.consumer.read == s.write {
      SlotsDiffer(|s.popped|, |s.accepted|);
      assert false;
    }
  }

  /** Storing the read index removes the event that was copied, the oldest one. */
  lemma AdvanceLinear(s: State)
    requires Inv(s) && s.consumer.CAdvance?
    ensures Linear(s, MoveConsumer(s))
  {
    var e, s' := s.consumer.event, MoveConsumer(s).0;
    SuccessorModulo(|s.popped|);
    assert e == s.accepted[|s.popped|];
    assert s.accepted[..|s.popped| + 1] == s.accepted[..|s.popped|] + [e];
    assert Pending(s)[0] == e && Pending(s') == Pending(s)[1..];
  }

  /**
   * Every load and store, in any interleaving, either changes nothing for the callers or is one
   * atomic operation of a bounded queue with the result the caller gets.
   */
  lemma StepLinear(s: State, a: Action)
    requires Inv(s) && Enabled(s, a)
    ensures Inv(Step(s, a).0)
    ensures Bounded(Pending(s), Step(s, a).1) == Queue(Pending(Step(s, a).0))
  {
    match a {
      case BeginPush(_) =>
      case BeginPop =>
      case ProducerMoves => ProducerStepLinear(s);
      case ConsumerMoves => ConsumerStepLinear(s);
    }
  }

  // ---------- whole runs ----------

  predicate Schedule(s: State, actions: seq<Action>)
    requires |s.queue| == SIZE
    decreases |actions|
  {
    actions == [] || (Enabled(s, actions[0]) && Schedule(Step(s, actions[0]).0, actions[1..]))
  }

  function Run(s: State, actions: seq<Action>): (r: (State, seq<Label>))
    requires |s.queue| == SIZE
    ensures |r.0.queue| == SIZE
    decreases |actions|
  {
    if actions == [] then (s, [])
    else
      var (s1, first) := Step(s, actions[0]);
      var (s2, labels) := Run(s1, actions[1..]);
      (s2, [first] + labels)
  }

  /** A history of labels replayed on a bounded queue. */
  function Replay(q: seq<Event>, labels: seq<Label>): Outcome
    decreases |labels|
  {
    if labels == [] then Queue(q)
    else
      match Bounded(q, labels[0])
      case Illegal => Illegal
      case Queue(q') => Replay(q', labels[1..])
  }

  lemma {:induction false} RunLinear(s: State, actions: seq<Action>)
    requires Inv(s) && Schedule(s, actions)
    ensures Inv(Run(s, actions).0)
    ensures Replay(Pending(s), Run(s, actions).1) == Queue(Pending(Run(s, actions).0))
    decreases |actions|
  {
    if actions != [] {
      StepLinear(s, actions[0]);
      RunLinear(Step(s, actions[0]).0, actions[1..]);
    }
  }

  /**
   * The ring is linearizable: from the initial state, under every schedule, the returns of the
   * calls form a legal history of a queue of 63 events, the popped events are a prefix of the
   * accepted ones, and what lies between is what the ring holds.
   */
  lemma RingLinearizable(queue: seq<Event>, actions: seq<Action>)
    requires |queue| == SIZE && Schedule(Initial(queue), actions)
    ensures var (s, labels) := Run(Initial(queue), actions);
            && Replay([], labels) == Queue(Pending(s))
            && s.popped <= s.accepted && |s.accepted| - |s.popped| <= SIZE - 1
            && s.read < SIZE && s.write < SIZE && Pending(s) == Between(s.queue, s.read, s.write)
  {
    RunLinear(Initial(queue), actions);
    RingHoldsPending(Run(Initial(queue), actions).0);
  }

  /** The ring's contents are the waiting events, in order. */
  lemma RingHoldsPending(s: State)
    requires Inv(s)
    ensures s.read < SIZE && s.write < SIZE && Pending(s) == Between(s.queue, s.read, s.write)
  {
    DistanceIsCount(|s.popped|, |s.accepted|);
    forall i | 0 <= i < |Pending(s)|
      ensures Between(s.queue, s.read, s.write)[i] == Pending(s)[i]
    {
      assert (|s.popped| % SIZE + i) % SIZE == (|s.popped| + i) % SIZE;
    }
  }

  lemma DistanceIsCount(popped: nat, accepted: nat)
    requires popped <= accepted < popped + SIZE
    ensures Distance(popped % SIZE, accepted % SIZE) == accepted - popped
  {
  }
}

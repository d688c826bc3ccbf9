/**
 * The ring over the weak memory, with the memory orders of its four index accesses as parameters. An item is a number.
 * A slot is two locations: what the producer has written there, and the consumer's moves out of it. An access to a slot
 * that has not seen every access of the other side to it is a data race.
 */
module SpscViews {
  import opened Spsc
  import opened WeakMemory

  /** Whether the index stores are release stores and the loads of the other side's index are acquire loads. */
  datatype Orders = Orders(headRelease: bool, headAcquire: bool, tailRelease: bool, tailAcquire: bool)

  const HEAD: nat := 0
  const TAIL: nat := 1

  /** The first of the locations the producer writes items to, and of those of the consumer's moves. */
  const WRITES: nat := 2

  function Moves(capacity: nat): nat { 2 + capacity }

  datatype Producer =
    | PushIdle
    | PushStarted(item: nat)
    | PushChecked(item: nat)
    | PushWritten(item: nat)

  datatype Consumer =
    | PopIdle
    | PopStarted
    | PopChecked
    | PopRead(out: nat)

  /**
   * pushed and popped list the items of all completed pushes and pops; writtenAt and movedAt are the numbers of the
   * messages the pushes wrote to their slots and the pops left there.
   */
  datatype State = State(
    capacity: nat, mem: Memory, producer: Thread, push: Producer, consumer: Thread, pop: Consumer,
    pushed: seq<nat>, popped: seq<nat>, writtenAt: seq<nat>, movedAt: seq<nat>,
    producerRaced: bool, consumerRaced: bool)

  datatype Action =
    | BeginPush(item: nat)
    | LoadTail(t: nat)
    | WriteSlot
    | StoreHead
    | BeginPop
    | LoadHead(t: nat)
    | ReadSlot(t: nat)
    | StoreTail

  function Init(capacity: nat): State {
    var zero := Zeros(2 + 2 * capacity);
    var th := Thread(zero, zero, zero);
    State(capacity, seq(2 + 2 * capacity, _ => [Message(0, zero)]), th, PushIdle, th, PopIdle, [], [], [], [],
          false, false)
  }

  // ---- steps -----------------------------------------------------------------------------------

  predicate SizedThread(th: Thread, n: nat) { |th.cur| == |th.acq| == |th.rel| == n }

  predicate SizedMessages(ms: seq<Message>, n: nat) { |ms| > 0 && forall t :: 0 <= t < |ms| ==> |ms[t].view| == n }

  predicate SizedMemory(mem: Memory, n: nat) {
    |mem| == n && forall l :: 0 <= l < n ==> SizedMessages(mem[l], n)
  }

  /** The indices stored are below the capacity. */
  predicate Indices(ms: seq<Message>, capacity: nat) { forall t :: 0 <= t < |ms| ==> ms[t].value < capacity }

  predicate Sized(s: State) {
    && s.capacity >= 2 && SizedMemory(s.mem, 2 + 2 * s.capacity)
    && SizedThread(s.producer, |s.mem|) && SizedThread(s.consumer, |s.mem|)
    && Indices(s.mem[HEAD], s.capacity) && Indices(s.mem[TAIL], s.capacity)
  }

  function Last(ms: seq<Message>): Message
    requires ms != []
  {
    ms[|ms| - 1]
  }

  /** A thread's load of the index that only it stores to gives the last value stored. */
  function Head(s: State): (i: nat)
    requires Sized(s)
    ensures i < s.capacity
  {
    Last(s.mem[HEAD]).value
  }

  function Tail(s: State): (i: nat)
    requires Sized(s)
    ensures i < s.capacity
  {
    Last(s.mem[TAIL]).value
  }

  function Next(i: nat, capacity: nat): (n: nat)
    requires capacity > 0
    ensures n < capacity
  {
    (i + 1) % capacity
  }

  function Load(acquire: bool, mem: Memory, th: Thread, l: nat, t: nat): Thread
    requires Readable(mem, th, l, t)
  {
    if acquire then AcquireLoad(mem, th, l, t) else RelaxedLoad(mem, th, l, t)
  }

  /** What a store of an index publishes. */
  function Published(release: bool, th: Thread): View { if release then th.cur else th.rel }

  /** The thread has not seen the newest message at l. */
  predicate Behind(mem: Memory, th: Thread, l: nat)
    requires l < |mem| && l < |th.cur|
  {
    th.cur[l] + 1 < |mem[l]|
  }

  /** The check against a full ring, and the acquire or relaxed load it makes. */
  function TailLoaded(o: Orders, s: State, t: nat): State
    requires Sized(s) && s.push.PushStarted?
  {
    if !Readable(s.mem, s.producer, TAIL, t) then s
    else
      s.(producer := Load(o.tailAcquire, s.mem, s.producer, TAIL, t),
         push := if Next(Head(s), s.capacity) == s.mem[TAIL][t].value then PushIdle else PushChecked(s.push.item))
  }

  function SlotWritten(s: State): State
    requires Sized(s) && s.push.PushChecked?
  {
    var l := WRITES + Head(s);
    s.(mem := Stored(s.mem, l, s.push.item, s.producer.rel), producer := AfterStore(s.mem, s.producer, l),
       push := PushWritten(s.push.item), writtenAt := s.writtenAt + [|s.mem[l]|],
       producerRaced := s.producerRaced || Behind(s.mem, s.producer, Moves(s.capacity) + Head(s)))
  }

  function HeadStored(o: Orders, s: State): State
    requires Sized(s) && s.push.PushWritten?
  {
    s.(mem := Stored(s.mem, HEAD, Next(Head(s), s.capacity), Published(o.headRelease, s.producer)),
       producer := AfterStore(s.mem, s.producer, HEAD), push := PushIdle, pushed := s.pushed + [s.push.item])
  }

  function HeadLoaded(o: Orders, s: State, t: nat): State
    requires Sized(s) && s.pop.PopStarted?
  {
    if !Readable(s.mem, s.consumer, HEAD, t) then s
    else
      s.(consumer := Load(o.headAcquire, s.mem, s.consumer, HEAD, t),
         pop := if Tail(s) == s.mem[HEAD][t].value then PopIdle else PopChecked)
  }

  /** The item is moved out: the slot is read and left moved from. */
  function SlotRead(s: State, t: nat): State
    requires Sized(s) && s.pop.PopChecked?
  {
    var l, m := WRITES + Tail(s), Moves(s.capacity) + Tail(s);
    if !Readable(s.mem, s.consumer, l, t) then s
    else
      var th := RelaxedLoad(s.mem, s.consumer, l, t);
      s.(mem := Stored(s.mem, m, 0, th.rel), consumer := AfterStore(s.mem, th, m),
         pop := PopRead(s.mem[l][t].value), movedAt := s.movedAt + [|s.mem[m]|],
         consumerRaced := s.consumerRaced || Behind(s.mem, s.consumer, l))
  }

  function TailStored(o: Orders, s: State): State
    requires Sized(s) && s.pop.PopRead?
  {
    s.(mem := Stored(s.mem, TAIL, Next(Tail(s), s.capacity), Published(o.tailRelease, s.consumer)),
       consumer := AfterStore(s.mem, s.consumer, TAIL), pop := PopIdle, popped := s.popped + [s.pop.out])
  }

  function ProducerStep(o: Orders, s: State, a: Action): State
    requires Sized(s)
  {
    match (a, s.push)
    case (BeginPush(item), PushIdle) => s.(push := PushStarted(item))
    case (LoadTail(t), PushStarted(_)) => TailLoaded(o, s, t)
    case (WriteSlot, PushChecked(_)) => SlotWritten(s)
    case (StoreHead, PushWritten(_)) => HeadStored(o, s)
    case _ => s
  }

  function ConsumerStep(o: Orders, s: State, a: Action): State
    requires Sized(s)
  {
    match (a, s.pop)
    case (BeginPop, PopIdle) => s.(pop := PopStarted)
    case (LoadHead(t), PopStarted) => HeadLoaded(o, s, t)
    case (ReadSlot(t), PopChecked) => SlotRead(s, t)
    case (StoreTail, PopRead(_)) => TailStored(o, s)
    case _ => s
  }

  predicate ByProducer(a: Action) { a.BeginPush? || a.LoadTail? || a.WriteSlot? || a.StoreHead? }

  lemma StoredSized(mem: Memory, l: nat, value: nat, view: View)
    requires SizedMemory(mem, |mem|) && l < |mem| && |view| == |mem|
    ensures SizedMemory(Stored(mem, l, value, view), |mem|)
  {
  }

  lemma StoredIndices(mem: Memory, l: nat, value: nat, view: View, at: nat, capacity: nat)
    requires l < |mem| && l < |view| && at < |mem| && Indices(mem[at], capacity)
    requires l == at ==> value < capacity
    ensures Indices(Stored(mem, l, value, view)[at], capacity)
  {
  }

  lemma SizedAfter(s: State, t: State, l: nat, value: nat, view: View)
    requires Sized(s) && l < |s.mem| && |view| == |s.mem| && (l == HEAD || l == TAIL ==> value < s.capacity)
    requires t.capacity == s.capacity && t.mem == Stored(s.mem, l, value, view)
    requires SizedThread(t.producer, |s.mem|) && SizedThread(t.consumer, |s.mem|)
    ensures Sized(t)
  {
    StoredSized(s.mem, l, value, view);
    StoredIndices(s.mem, l, value, view, HEAD, s.capacity);
    StoredIndices(s.mem, l, value, view, TAIL, s.capacity);
  }

  lemma ProducerStepSized(o: Orders, s: State, a: Action)
    requires Sized(s)
    ensures Sized(ProducerStep(o, s, a))
  {
    match (a, s.push)
    case (WriteSlot, PushChecked(item)) =>
      SizedAfter(s, SlotWritten(s), WRITES + Head(s), item, s.producer.rel);
    case (StoreHead, PushWritten(_)) =>
      SizedAfter(s, HeadStored(o, s), HEAD, Next(Head(s), s.capacity), Published(o.headRelease, s.producer));
    case _ =>
  }

  lemma ConsumerStepSized(o: Orders, s: State, a: Action)
    requires Sized(s)
    ensures Sized(ConsumerStep(o, s, a))
  {
    match (a, s.pop)
    case (ReadSlot(t), PopChecked) =>
      if Readable(s.mem, s.consumer, WRITES + Tail(s), t) {
        SizedAfter(s, SlotRead(s, t), Moves(s.capacity) + Tail(s), 0, s.consumer.rel);
      }
    case (StoreTail, PopRead(_)) =>
      SizedAfter(s, TailStored(o, s), TAIL, Next(Tail(s), s.capacity), Published(o.tailRelease, s.consumer));
    case _ =>
  }

  function Step(o: Orders, s: State, a: Action): State {
    if !Sized(s) then s else if ByProducer(a) then ProducerStep(o, s, a) else ConsumerStep(o, s, a)
  }

  /** What one action makes of a state. */
  type Machine = (State, Action) -> State

  function Program(o: Orders): Machine { (s: State, a: Action) => Step(o, s, a) }

  function Exec(m: Machine, s: State, actions: seq<Action>): State
    decreases |actions|
  {
    if actions == [] then s else m(Exec(m, s, actions[..|actions| - 1]), actions[|actions| - 1])
  }

  function Run(o: Orders, capacity: nat, actions: seq<Action>): State { Exec(Program(o), Init(capacity), actions) }

  // ---- counting: what holds under any orders ------------------------------------------------------

  /** Message t of an index is the value it has after t operations, and its view starts with itself. */
  ghost predicate IndexMessages(ms: seq<Message>, l: nat, count: nat, capacity: nat)
    requires capacity > 0
  {
    && |ms| == count + 1
    && forall t :: 0 <= t < |ms| ==> ms[t].value == t % capacity && l < |ms[t].view| && ms[t].view[l] == t
  }

  /** Past its check the producer owns a free slot, and the consumer an item. */
  predicate OwnsSlot(p: Producer) { p.PushChecked? || p.PushWritten? }

  predicate OwnsItem(c: Consumer) { c.PopChecked? || c.PopRead? }

  /** The newest tail the producer has loaded bounds the ring's fill, and the newest head the consumer has loaded. */
  ghost predicate Seen(s: State, seenTail: nat, seenHead: nat) {
    && seenTail <= |s.popped| <= |s.pushed| < seenTail + s.capacity && |s.popped| <= seenHead <= |s.pushed|
    && (OwnsSlot(s.push) ==> |s.pushed| + 1 < seenTail + s.capacity) && (OwnsItem(s.pop) ==> |s.popped| < seenHead)
    && |s.writtenAt| == |s.pushed| + (if s.push.PushWritten? then 1 else 0)
    && |s.movedAt| == |s.popped| + (if s.pop.PopRead? then 1 else 0)
  }

  ghost predicate Counts(s: State) {
    && Sized(s)
    && IndexMessages(s.mem[HEAD], HEAD, |s.pushed|, s.capacity)
    && IndexMessages(s.mem[TAIL], TAIL, |s.popped|, s.capacity)
    && Seen(s, s.producer.cur[TAIL], s.consumer.cur[HEAD])
  }

  lemma StoredIndexMessage(mem: Memory, l: nat, value: nat, view: View, capacity: nat)
    requires l < |mem| && l < |view| && capacity > 0 && |mem[l]| > 0
    requires IndexMessages(mem[l], l, |mem[l]| - 1, capacity) && value == |mem[l]| % capacity
    ensures IndexMessages(Stored(mem, l, value, view)[l], l, |mem[l]|, capacity)
  {
  }

  /** A load of an index moves the view of it to the message loaded. */
  lemma LoadSees(acquire: bool, mem: Memory, th: Thread, l: nat, t: nat)
    requires Readable(mem, th, l, t) && mem[l][t].view[l] == t
    ensures Load(acquire, mem, th, l, t).cur[l] == t
  {
  }

  /** try_push finds the ring full exactly when the tail it loaded is a whole ring, less one slot, behind. */
  lemma FullCheck(s: State, t: nat)
    requires Counts(s) && s.producer.cur[TAIL] <= t <= |s.popped|
    ensures Next(Head(s), s.capacity) == t % s.capacity <==> |s.pushed| - t == s.capacity - 1
  {
    NextMeets(|s.pushed|, t, s.capacity);
  }

  /** try_pop finds it empty exactly when the head it loaded is where the tail is. */
  lemma EmptyCheck(s: State, t: nat)
    requires Counts(s) && s.consumer.cur[HEAD] <= t <= |s.pushed|
    ensures Tail(s) == t % s.capacity <==> t == |s.popped|
  {
    if t != |s.popped| { DistinctIndices(|s.popped|, t, s.capacity); }
  }

  lemma TailLoadedCounts(o: Orders, s: State, t: nat)
    requires Counts(s) && s.push.PushStarted?
    ensures Counts(TailLoaded(o, s, t))
  {
    if Readable(s.mem, s.producer, TAIL, t) {
      LoadSees(o.tailAcquire, s.mem, s.producer, TAIL, t);
      FullCheck(s, t);
    }
  }

  lemma HeadLoadedCounts(o: Orders, s: State, t: nat)
    requires Counts(s) && s.pop.PopStarted?
    ensures Counts(HeadLoaded(o, s, t))
  {
    if Readable(s.mem, s.consumer, HEAD, t) {
      LoadSees(o.headAcquire, s.mem, s.consumer, HEAD, t);
      EmptyCheck(s, t);
    }
  }

  lemma HeadStoredCounts(o: Orders, s: State)
    requires Counts(s) && s.push.PushWritten?
    ensures Counts(HeadStored(o, s))
  {
    ProducerStepSized(o, s, StoreHead);
    NextIndex(|s.pushed|, s.capacity);
    StoredIndexMessage(s.mem, HEAD, Next(Head(s), s.capacity), Published(o.headRelease, s.producer), s.capacity);
  }

  lemma SlotReadCounts(s: State, t: nat)
    requires Counts(s) && s.pop.PopChecked?
    ensures Counts(SlotRead(s, t))
  {
    var m := Moves(s.capacity) + Tail(s);
    if Readable(s.mem, s.consumer, WRITES + Tail(s), t) {
      SizedAfter(s, SlotRead(s, t), m, 0, s.consumer.rel);
    }
  }

  lemma TailStoredCounts(o: Orders, s: State)
    requires Counts(s) && s.pop.PopRead?
    ensures Counts(TailStored(o, s))
  {
    ConsumerStepSized(o, s, StoreTail);
    NextIndex(|s.popped|, s.capacity);
    StoredIndexMessage(s.mem, TAIL, Next(Tail(s), s.capacity), Published(o.tailRelease, s.consumer), s.capacity);
  }

  lemma ProducerCounts(o: Orders, s: State, a: Action)
    requires Counts(s)
    ensures Counts(ProducerStep(o, s, a)) && ProducerStep(o, s, a).capacity == s.capacity
  {
    match (a, s.push)
    case (LoadTail(t), PushStarted(_)) => TailLoadedCounts(o, s, t);
    case (WriteSlot, PushChecked(_)) => ProducerStepSized(o, s, a);
    case (StoreHead, PushWritten(_)) => HeadStoredCounts(o, s);
    case _ =>
  }

  lemma ConsumerCounts(o: Orders, s: State, a: Action)
    requires Counts(s)
    ensures Counts(ConsumerStep(o, s, a)) && ConsumerStep(o, s, a).capacity == s.capacity
  {
    match (a, s.pop)
    case (LoadHead(t), PopStarted) => HeadLoadedCounts(o, s, t);
    case (ReadSlot(t), PopChecked) => SlotReadCounts(s, t);
    case (StoreTail, PopRead(_)) => TailStoredCounts(o, s);
    case _ =>
  }

  lemma StepCounts(o: Orders, s: State, a: Action)
    requires Counts(s)
    ensures Counts(Step(o, s, a)) && Step(o, s, a).capacity == s.capacity
  {
    if ByProducer(a) { ProducerCounts(o, s, a); } else { ConsumerCounts(o, s, a); }
  }

  lemma InitCounts(capacity: nat)
    requires capacity >= 2
    ensures Counts(Init(capacity))
  {
  }

  lemma {:induction false} RunCounts(o: Orders, capacity: nat, actions: seq<Action>)
    requires capacity >= 2
    ensures var s := Run(o, capacity, actions); Counts(s) && s.capacity == capacity
    decreases |actions|
  {
    if actions == [] {
      InitCounts(capacity);
    } else {
      RunCounts(o, capacity, actions[..|actions| - 1]);
      StepCounts(o, Run(o, capacity, actions[..|actions| - 1]), actions[|actions| - 1]);
    }
  }

  // ---- a channel: one side writes slots and publishes its index, the other acquires it -----------------

  /** The view has the messages of the first n operations, each at its slot. */
  ghost predicate Covers(view: View, at: seq<nat>, n: nat, base: nat, capacity: nat) {
    && n <= |at| && 0 < capacity && base + capacity <= |view|
    && forall k {:trigger at[k]} :: 0 <= k < n ==> view[base + k % capacity] >= at[k]
  }

  /** The last operation on a slot left the newest message there, and slots not yet reached hold their first. */
  ghost predicate LeftAt(mem: Memory, at: seq<nat>, base: nat, capacity: nat) {
    && 0 < capacity && base + capacity <= |mem|
    && (forall k {:trigger at[k]} :: 0 <= k < |at| ==>
          && at[k] < |mem[base + k % capacity]|
          && (k + capacity >= |at| ==> at[k] + 1 == |mem[base + k % capacity]|))
    && forall l :: base + |at| <= l < base + capacity ==> |mem[l]| == 1
  }

  /** Message t of the index carries the messages of t operations, and so does the view of a reader that has seen it. */
  ghost predicate Channel(mem: Memory, index: nat, writer: View, reader: View, at: seq<nat>, base: nat, capacity: nat) {
    && index < base && index < |reader| && index < |mem|
    && LeftAt(mem, at, base, capacity)
    && Covers(writer, at, |at|, base, capacity)
    && |mem[index]| <= |at| + 1
    && (forall t :: 0 <= t < |mem[index]| ==> Covers(mem[index][t].view, at, t, base, capacity))
    && Covers(reader, at, reader[index], base, capacity)
  }

  lemma CoversMore(view: View, at: seq<nat>, more: nat, n: nat, base: nat, capacity: nat)
    requires Covers(view, at, n, base, capacity)
    ensures Covers(view, at + [more], n, base, capacity)
  {
  }

  lemma CoversGrown(view: View, grown: View, at: seq<nat>, n: nat, base: nat, capacity: nat)
    requires Covers(view, at, n, base, capacity) && |grown| == |view|
    requires forall l :: base <= l < base + capacity ==> grown[l] >= view[l]
    ensures Covers(grown, at, n, base, capacity)
  {
  }

  /** The next slot is written. */
  lemma WriteLeft(mem: Memory, value: nat, view: View, at: seq<nat>, base: nat, capacity: nat)
    requires LeftAt(mem, at, base, capacity) && |view| == |mem|
    ensures var l := base + |at| % capacity;
            LeftAt(Stored(mem, l, value, view), at + [|mem[l]|], base, capacity)
  {
    var n, l := |at|, base + |at| % capacity;
    var mem': Memory, at' := Stored(mem, l, value, view), at + [|mem[l]|];
    forall k | 0 <= k < |at'|
      ensures at'[k] < |mem'[base + k % capacity]|
      ensures k + capacity >= |at'| ==> at'[k] + 1 == |mem'[base + k % capacity]|
    {
      if k < n {
        assert at'[k] == at[k];
        if k + capacity > n { DistinctIndices(k, n, capacity); }
      }
    }
    if n < capacity { RemainderIs(n, capacity, 0, n); }
  }

  lemma WriterCovers(mem: Memory, writer: View, at: seq<nat>, base: nat, capacity: nat)
    requires LeftAt(mem, at, base, capacity) && Covers(writer, at, |at|, base, capacity) && |writer| == |mem|
    ensures var l := base + |at| % capacity;
            Covers(writer[l := |mem[l]|], at + [|mem[l]|], |at| + 1, base, capacity)
  {
    var l := base + |at| % capacity;
    var at' := at + [|mem[l]|];
    forall k | 0 <= k < |at'| ensures writer[l := |mem[l]|][base + k % capacity] >= at'[k] {
      if k < |at| { assert at'[k] == at[k]; }
    }
  }

  lemma ChannelWrites(mem: Memory, index: nat, writer: View, reader: View, at: seq<nat>, base: nat, capacity: nat,
                      value: nat, view: View)
    requires Channel(mem, index, writer, reader, at, base, capacity) && |writer| == |view| == |mem|
    ensures var l := base + |at| % capacity;
            Channel(Stored(mem, l, value, view), index, writer[l := |mem[l]|], reader, at + [|mem[l]|], base, capacity)
  {
    var l := base + |at| % capacity;
    var mem': Memory, at' := Stored(mem, l, value, view), at + [|mem[l]|];
    WriteLeft(mem, value, view, at, base, capacity);
    WriterCovers(mem, writer, at, base, capacity);
    forall t: nat | t < |mem'[index]| ensures Covers(mem'[index][t].view, at', t, base, capacity) {
      CoversMore(mem[index][t].view, at, |mem[l]|, t, base, capacity);
    }
    CoversMore(reader, at, |mem[l]|, reader[index], base, capacity);
  }

  /** The index is stored with release, when every operation it counts has been made. */
  lemma ChannelPublishes(mem: Memory, index: nat, writer: View, reader: View, at: seq<nat>, base: nat, capacity: nat,
                         value: nat)
    requires Channel(mem, index, writer, reader, at, base, capacity) && |writer| == |mem| && |mem[index]| <= |at|
    ensures Channel(Stored(mem, index, value, writer), index, writer[index := |mem[index]|], reader, at, base, capacity)
  {
    var n, view := |mem[index]|, writer[index := |mem[index]|];
    var mem': Memory := Stored(mem, index, value, writer);
    CoversGrown(writer, view, at, |at|, base, capacity);
    forall t: nat | t < |mem'[index]| ensures Covers(mem'[index][t].view, at, t, base, capacity) {
      if t < n { assert mem'[index][t] == mem[index][t]; }
    }
  }

  /** The index is loaded with acquire. */
  lemma ChannelAcquires(mem: Memory, index: nat, writer: View, th: Thread, at: seq<nat>, base: nat, capacity: nat,
                        t: nat)
    requires Channel(mem, index, writer, th.cur, at, base, capacity)
    requires Readable(mem, th, index, t) && mem[index][t].view[index] == t
    ensures Channel(mem, index, writer, AcquireLoad(mem, th, index, t).cur, at, base, capacity)
  {
    var view := mem[index][t].view;
    CoversGrown(view, Join(th.cur, view), at, t, base, capacity);
  }

  /** Anything else leaves the channel's locations alone, and views only grow. */
  lemma ChannelStays(mem: Memory, mem': Memory, index: nat, writer: View, writer': View, reader: View, reader': View,
                     at: seq<nat>, base: nat, capacity: nat)
    requires Channel(mem, index, writer, reader, at, base, capacity)
    requires |mem'| == |mem| && |writer'| == |writer| && |reader'| == |reader|
    requires mem'[index] == mem[index] && forall l :: base <= l < base + capacity ==> mem'[l] == mem[l]
    requires forall l :: base <= l < base + capacity ==> writer'[l] >= writer[l] && reader'[l] >= reader[l]
    requires reader'[index] == reader[index]
    ensures Channel(mem', index, writer', reader', at, base, capacity)
  {
    CoversGrown(writer, writer', at, |at|, base, capacity);
    CoversGrown(reader, reader', at, reader[index], base, capacity);
  }

  /** From the producer to the consumer: the items written. */
  ghost predicate HeadChannel(s: State) {
    Channel(s.mem, HEAD, s.producer.cur, s.consumer.cur, s.writtenAt, WRITES, s.capacity)
  }

  /** From the consumer to the producer: the slots moved out of. */
  ghost predicate TailChannel(s: State) {
    Channel(s.mem, TAIL, s.consumer.cur, s.producer.cur, s.movedAt, Moves(s.capacity), s.capacity)
  }

  lemma WriteKeepsHead(s: State)
    requires Counts(s) && HeadChannel(s) && s.push.PushChecked?
    ensures HeadChannel(SlotWritten(s))
  {
    ChannelWrites(s.mem, HEAD, s.producer.cur, s.consumer.cur, s.writtenAt, WRITES, s.capacity,
                  s.push.item, s.producer.rel);
  }

  lemma StoreKeepsHead(o: Orders, s: State)
    requires Counts(s) && HeadChannel(s) && o.headRelease && s.push.PushWritten?
    ensures HeadChannel(HeadStored(o, s))
  {
    ChannelPublishes(s.mem, HEAD, s.producer.cur, s.consumer.cur, s.writtenAt, WRITES, s.capacity,
                     Next(Head(s), s.capacity));
  }

  lemma ProducerKeepsHead(o: Orders, s: State, a: Action)
    requires Counts(s) && HeadChannel(s) && o.headRelease
    ensures HeadChannel(ProducerStep(o, s, a))
  {
    var t := ProducerStep(o, s, a);
    match (a, s.push)
    case (LoadTail(_), PushStarted(_)) =>
      ChannelStays(s.mem, t.mem, HEAD, s.producer.cur, t.producer.cur, s.consumer.cur, t.consumer.cur,
                   s.writtenAt, WRITES, s.capacity);
    case (WriteSlot, PushChecked(_)) => WriteKeepsHead(s);
    case (StoreHead, PushWritten(_)) => StoreKeepsHead(o, s);
    case _ =>
  }

  lemma ConsumerKeepsHead(o: Orders, s: State, a: Action)
    requires Counts(s) && HeadChannel(s) && o.headAcquire
    ensures HeadChannel(ConsumerStep(o, s, a))
  {
    var t := ConsumerStep(o, s, a);
    match (a, s.pop)
    case (LoadHead(k), PopStarted) =>
      if Readable(s.mem, s.consumer, HEAD, k) {
        ChannelAcquires(s.mem, HEAD, s.producer.cur, s.consumer, s.writtenAt, WRITES, s.capacity, k);
      }
    case (ReadSlot(_), PopChecked) =>
      ChannelStays(s.mem, t.mem, HEAD, s.producer.cur, t.producer.cur, s.consumer.cur, t.consumer.cur,
                   s.writtenAt, WRITES, s.capacity);
    case (StoreTail, PopRead(_)) =>
      ChannelStays(s.mem, t.mem, HEAD, s.producer.cur, t.producer.cur, s.consumer.cur, t.consumer.cur,
                   s.writtenAt, WRITES, s.capacity);
    case _ =>
  }

  lemma ProducerKeepsTail(o: Orders, s: State, a: Action)
    requires Counts(s) && TailChannel(s) && o.tailAcquire
    ensures TailChannel(ProducerStep(o, s, a))
  {
    var t, base := ProducerStep(o, s, a), Moves(s.capacity);
    match (a, s.push)
    case (LoadTail(k), PushStarted(_)) =>
      if Readable(s.mem, s.producer, TAIL, k) {
        ChannelAcquires(s.mem, TAIL, s.consumer.cur, s.producer, s.movedAt, base, s.capacity, k);
      }
    case (WriteSlot, PushChecked(_)) =>
      ChannelStays(s.mem, t.mem, TAIL, s.consumer.cur, t.consumer.cur, s.producer.cur, t.producer.cur,
                   s.movedAt, base, s.capacity);
    case (StoreHead, PushWritten(_)) =>
      ChannelStays(s.mem, t.mem, TAIL, s.consumer.cur, t.consumer.cur, s.producer.cur, t.producer.cur,
                   s.movedAt, base, s.capacity);
    case _ =>
  }

  lemma SlotLoadKeepsTail(s: State, k: nat)
    requires Counts(s) && TailChannel(s) && Readable(s.mem, s.consumer, WRITES + Tail(s), k)
    ensures Channel(s.mem, TAIL, RelaxedLoad(s.mem, s.consumer, WRITES + Tail(s), k).cur, s.producer.cur,
                    s.movedAt, Moves(s.capacity), s.capacity)
  {
    var th := RelaxedLoad(s.mem, s.consumer, WRITES + Tail(s), k);
    ChannelStays(s.mem, s.mem, TAIL, s.consumer.cur, th.cur, s.producer.cur, s.producer.cur,
                 s.movedAt, Moves(s.capacity), s.capacity);
  }

  lemma MoveKeepsTail(s: State, th: Thread)
    requires Counts(s) && s.pop.PopChecked? && SizedThread(th, |s.mem|)
    requires Channel(s.mem, TAIL, th.cur, s.producer.cur, s.movedAt, Moves(s.capacity), s.capacity)
    ensures var m := Moves(s.capacity) + Tail(s);
            Channel(Stored(s.mem, m, 0, th.rel), TAIL, AfterStore(s.mem, th, m).cur, s.producer.cur,
                    s.movedAt + [|s.mem[m]|], Moves(s.capacity), s.capacity)
  {
    assert Tail(s) == |s.movedAt| % s.capacity;
    ChannelWrites(s.mem, TAIL, th.cur, s.producer.cur, s.movedAt, Moves(s.capacity), s.capacity, 0, th.rel);
  }

  lemma ReadKeepsTail(s: State, k: nat)
    requires Counts(s) && TailChannel(s) && s.pop.PopChecked?
    ensures TailChannel(SlotRead(s, k))
  {
    var l := WRITES + Tail(s);
    if Readable(s.mem, s.consumer, l, k) {
      SlotLoadKeepsTail(s, k);
      MoveKeepsTail(s, RelaxedLoad(s.mem, s.consumer, l, k));
    }
  }

  lemma ConsumerKeepsTail(o: Orders, s: State, a: Action)
    requires Counts(s) && TailChannel(s) && o.tailRelease
    ensures TailChannel(ConsumerStep(o, s, a))
  {
    var t, base := ConsumerStep(o, s, a), Moves(s.capacity);
    match (a, s.pop)
    case (LoadHead(k), PopStarted) =>
      ChannelStays(s.mem, t.mem, TAIL, s.consumer.cur, t.consumer.cur, s.producer.cur, t.producer.cur,
                   s.movedAt, base, s.capacity);
    case (ReadSlot(k), PopChecked) => ReadKeepsTail(s, k);
    case (StoreTail, PopRead(_)) =>
      ChannelPublishes(s.mem, TAIL, s.consumer.cur, s.producer.cur, s.movedAt, base, s.capacity,
                       Next(Tail(s), s.capacity));
    case _ =>
  }

  // ---- what the channels are for -----------------------------------------------------------------

  /** The items written so far. */
  function Items(s: State): seq<nat> { s.pushed + if s.push.PushWritten? then [s.push.item] else [] }

  ghost predicate ItemsInSlots(mem: Memory, at: seq<nat>, items: seq<nat>, capacity: nat) {
    && |items| == |at| && 0 < capacity && WRITES + capacity <= |mem|
    && forall k {:trigger at[k]} :: 0 <= k < |at| ==>
         var l := WRITES + k % capacity; at[k] < |mem[l]| && mem[l][at[k]].value == items[k]
  }

  /** Pops hand out what was pushed, in order, from slots whose last write the consumer has seen. */
  ghost predicate PopsRight(s: State) {
    && ItemsInSlots(s.mem, s.writtenAt, Items(s), s.capacity)
    && s.popped <= s.pushed && (s.pop.PopRead? ==> |s.popped| < |s.pushed| && s.pop.out == s.pushed[|s.popped|])
    && !s.consumerRaced
  }

  lemma ItemsStay(mem: Memory, mem': Memory, at: seq<nat>, items: seq<nat>, capacity: nat)
    requires ItemsInSlots(mem, at, items, capacity) && |mem'| == |mem|
    requires forall l :: WRITES <= l < WRITES + capacity ==> mem'[l] == mem[l]
    ensures ItemsInSlots(mem', at, items, capacity)
  {
  }

  lemma ItemsWritten(mem: Memory, at: seq<nat>, items: seq<nat>, capacity: nat, item: nat, view: View)
    requires ItemsInSlots(mem, at, items, capacity) && |view| == |mem|
    ensures var l := WRITES + |at| % capacity;
            ItemsInSlots(Stored(mem, l, item, view), at + [|mem[l]|], items + [item], capacity)
  {
    var l := WRITES + |at| % capacity;
    var mem': Memory, at' := Stored(mem, l, item, view), at + [|mem[l]|];
    forall k | 0 <= k < |at'|
      ensures at'[k] < |mem'[WRITES + k % capacity]|
      ensures mem'[WRITES + k % capacity][at'[k]].value == (items + [item])[k]
    {
      if k < |at| { assert at'[k] == at[k]; }
    }
  }

  lemma ProducerKeepsItems(o: Orders, s: State, a: Action)
    requires Counts(s) && PopsRight(s)
    ensures PopsRight(ProducerStep(o, s, a))
  {
    var t := ProducerStep(o, s, a);
    match (a, s.push)
    case (WriteSlot, PushChecked(item)) =>
      ItemsWritten(s.mem, s.writtenAt, Items(s), s.capacity, item, s.producer.rel);
      assert Items(t) == Items(s) + [item];
    case (StoreHead, PushWritten(item)) =>
      ItemsStay(s.mem, t.mem, s.writtenAt, Items(s), s.capacity);
      assert Items(t) == Items(s);
    case _ =>
  }

  /** A consumer past its check has seen the last write to its slot, and it is the item it is to pop. */
  lemma ReadIsRight(s: State, t: nat)
    requires Counts(s) && HeadChannel(s) && PopsRight(s) && s.pop.PopChecked?
    ensures PopsRight(SlotRead(s, t))
  {
    var p, l := |s.popped|, WRITES + Tail(s);
    assert s.writtenAt[p] + 1 == |s.mem[l]| && s.consumer.cur[l] >= s.writtenAt[p];
    if Readable(s.mem, s.consumer, l, t) {
      assert t == s.writtenAt[p] && Items(s)[p] == s.pushed[p];
      ItemsStay(s.mem, SlotRead(s, t).mem, s.writtenAt, Items(s), s.capacity);
    }
  }

  lemma ConsumerKeepsItems(o: Orders, s: State, a: Action)
    requires Counts(s) && HeadChannel(s) && PopsRight(s)
    ensures PopsRight(ConsumerStep(o, s, a))
  {
    var t := ConsumerStep(o, s, a);
    match (a, s.pop)
    case (ReadSlot(k), PopChecked) => ReadIsRight(s, k);
    case (StoreTail, PopRead(_)) => ItemsStay(s.mem, t.mem, s.writtenAt, Items(s), s.capacity);
    case _ =>
  }

  /** A producer past its check has seen the last move out of its slot. */
  lemma WriteIsClear(s: State)
    requires Counts(s) && TailChannel(s) && s.push.PushChecked?
    ensures !Behind(s.mem, s.producer, Moves(s.capacity) + Head(s))
  {
    var h, c, m := |s.pushed|, s.capacity, Moves(s.capacity) + Head(s);
    if h < c {
      RemainderIs(h, c, 0, h);
      assert |s.mem[m]| == 1;
    } else {
      SameIndex(h - c, c);
      assert s.movedAt[h - c] + 1 == |s.mem[m]| && s.producer.cur[m] >= s.movedAt[h - c];
    }
  }

  lemma InitChannels(capacity: nat)
    requires capacity >= 2
    ensures var s := Init(capacity); Sized(s) && HeadChannel(s) && TailChannel(s) && PopsRight(s)
  {
  }

  lemma StepPopsRight(o: Orders, s: State, a: Action)
    requires o.headRelease && o.headAcquire && Counts(s) && HeadChannel(s) && PopsRight(s)
    ensures HeadChannel(Step(o, s, a)) && PopsRight(Step(o, s, a))
  {
    if ByProducer(a) {
      ProducerKeepsHead(o, s, a);
      ProducerKeepsItems(o, s, a);
    } else {
      ConsumerKeepsHead(o, s, a);
      ConsumerKeepsItems(o, s, a);
    }
  }

  lemma {:induction false} RunPopsRight(o: Orders, capacity: nat, actions: seq<Action>)
    requires capacity >= 2 && o.headRelease && o.headAcquire
    ensures var s := Run(o, capacity, actions); HeadChannel(s) && PopsRight(s)
    decreases |actions|
  {
    if actions == [] {
      InitChannels(capacity);
    } else {
      var before := actions[..|actions| - 1];
      RunPopsRight(o, capacity, before);
      RunCounts(o, capacity, before);
      StepPopsRight(o, Run(o, capacity, before), actions[|actions| - 1]);
    }
  }

  ghost predicate WritesClear(s: State) { TailChannel(s) && !s.producerRaced }

  lemma StepWritesClear(o: Orders, s: State, a: Action)
    requires o.tailRelease && o.tailAcquire && Counts(s) && WritesClear(s)
    ensures WritesClear(Step(o, s, a))
  {
    if ByProducer(a) {
      ProducerKeepsTail(o, s, a);
      if a.WriteSlot? && s.push.PushChecked? { WriteIsClear(s); }
    } else {
      ConsumerKeepsTail(o, s, a);
    }
  }

  lemma {:induction false} RunWritesClear(o: Orders, capacity: nat, actions: seq<Action>)
    requires capacity >= 2 && o.tailRelease && o.tailAcquire
    ensures WritesClear(Run(o, capacity, actions))
    decreases |actions|
  {
    if actions == [] {
      InitChannels(capacity);
    } else {
      var before := actions[..|actions| - 1];
      RunWritesClear(o, capacity, before);
      RunCounts(o, capacity, before);
      StepWritesClear(o, Run(o, capacity, before), actions[|actions| - 1]);
    }
  }

  // ---- runs that fail with an order missing -------------------------------------------------------

  lemma ExecSnoc(m: Machine, s: State, a: seq<Action>, last: Action)
    ensures Exec(m, s, a + [last]) == m(Exec(m, s, a), last)
  {
    assert (a + [last])[..|a|] == a;
  }

  lemma {:induction false} ExecAppend(m: Machine, s: State, a: seq<Action>, b: seq<Action>)
    ensures Exec(m, s, a + b) == Exec(m, Exec(m, s, a), b)
    decreases |b|
  {
    if b == [] {
      assert a + b == a;
    } else {
      var init, last := b[..|b| - 1], b[|b| - 1];
      ExecAppend(m, s, a, init);
      ExecSnoc(m, s, a + init, last);
      assert a + b == a + init + [last];
    }
  }

  lemma ThreeSteps(m: Machine, s: State, a: Action, b: Action, c: Action)
    ensures Exec(m, s, [a, b, c]) == m(m(m(s, a), b), c)
  {
    ExecSnoc(m, s, [], a);
    ExecSnoc(m, s, [a], b);
    ExecSnoc(m, s, [a, b], c);
    assert [] + [a] == [a] && [a] + [b] == [a, b] && [a, b] + [c] == [a, b, c];
  }

  lemma FourSteps(m: Machine, s: State, a: Action, b: Action, c: Action, d: Action)
    ensures Exec(m, s, [a, b, c, d]) == m(m(m(m(s, a), b), c), d)
  {
    ThreeSteps(m, s, a, b, c);
    ExecSnoc(m, s, [a, b, c], d);
    assert [a, b, c] + [d] == [a, b, c, d];
  }

  /** The view has nothing of the slots from n on, nor of any move. */
  ghost predicate Unseen(view: View, n: nat) { forall l :: WRITES + n <= l < |view| ==> view[l] == 0 }

  /** n slots have been moved out of, once each. */
  ghost predicate Moved(mem: Memory, n: nat, capacity: nat)
    requires |mem| == 2 + 2 * capacity
  {
    forall l :: Moves(capacity) <= l < |mem| ==> |mem[l]| == if l < Moves(capacity) + n then 2 else 1
  }

  /** Slots from n on have not been written to. */
  ghost predicate Unwritten(mem: Memory, n: nat, capacity: nat)
    requires |mem| == 2 + 2 * capacity
  {
    forall l :: WRITES + n <= l < Moves(capacity) ==> |mem[l]| == 1
  }

  ghost predicate Turn(s: State, pushes: nat, pops: nat) {
    && Counts(s) && |s.pushed| == pushes && |s.popped| == pops && s.pop == PopIdle
    && s.producer.rel == s.consumer.rel == Zeros(|s.mem|)
    && Moved(s.mem, pops, s.capacity) && Unwritten(s.mem, pushes, s.capacity)
    && forall l :: WRITES + pops <= l < Moves(s.capacity) ==> s.consumer.cur[l] == 0
  }

  /** n items have been pushed and popped in turn, without coming round; no move has reached the producer. */
  ghost predicate Rounds(o: Orders, s: State, n: nat) {
    && Turn(s, n, n) && n <= s.capacity && s.push == PushIdle
    && Unseen(s.producer.cur, n) && (o.tailAcquire ==> Unseen(Last(s.mem[TAIL]).view, n))
  }

  /** The next item has been pushed. */
  ghost predicate HalfRound(o: Orders, s: State, n: nat) {
    && Turn(s, n + 1, n) && n < s.capacity && s.push == PushIdle && |s.mem[WRITES + n]| == 2
    && Unseen(s.producer.cur, n + 1)
    && var view := Last(s.mem[HEAD]).view;
       Unseen(view, n + 1) && view[WRITES + n] == if o.headRelease then 1 else 0
  }

  function Push(item: nat, t: nat): seq<Action> { [BeginPush(item), LoadTail(t), WriteSlot, StoreHead] }

  function Pop(t: nat, slot: nat): seq<Action> { [BeginPop, LoadHead(t), ReadSlot(slot), StoreTail] }

  lemma TailReadable(o: Orders, s: State, n: nat)
    requires Rounds(o, s, n)
    ensures Readable(s.mem, s.producer, TAIL, n) && Next(Head(s), s.capacity) != s.mem[TAIL][n].value
    ensures Unseen(Load(o.tailAcquire, s.mem, s.producer, TAIL, n).cur, n)
  {
    FullCheck(s, n);
  }

  /** The push has been let through, and has seen no move. */
  lemma PushPasses(o: Orders, s: State, n: nat, item: nat) returns (t: State)
    requires Rounds(o, s, n)
    ensures t == Step(o, Step(o, s, BeginPush(item)), LoadTail(n))
    ensures t == s.(producer := t.producer, push := PushChecked(item)) && Turn(t, n, n) && Unseen(t.producer.cur, n)
  {
    TailReadable(o, s, n);
    var begun := Step(o, s, BeginPush(item));
    t := Step(o, begun, LoadTail(n));
    ProducerCounts(o, begun, LoadTail(n));
  }

  lemma SlotIsWritten(o: Orders, s: State, n: nat) returns (t: State)
    requires Turn(s, n, n) && n < s.capacity && s.push.PushChecked? && Unseen(s.producer.cur, n)
    ensures t == Step(o, s, WriteSlot) && Counts(t)
    ensures t.mem == Stored(s.mem, WRITES + n, s.push.item, s.producer.rel)
    ensures t == s.(mem := t.mem, producer := t.producer, push := PushWritten(s.push.item), writtenAt := t.writtenAt,
                    producerRaced := t.producerRaced)
    ensures t.producer.rel == s.producer.rel && Unseen(t.producer.cur, n + 1) && t.producer.cur[WRITES + n] == 1
  {
    RemainderIs(n, s.capacity, 0, n);
    t := Step(o, s, WriteSlot);
    ProducerCounts(o, s, WriteSlot);
  }

  lemma HeadIsStored(o: Orders, s: State) returns (t: State)
    requires Counts(s) && s.push.PushWritten?
    ensures t == Step(o, s, StoreHead) && Counts(t)
    ensures t.mem == Stored(s.mem, HEAD, Next(Head(s), s.capacity), Published(o.headRelease, s.producer))
    ensures t == s.(mem := t.mem, producer := AfterStore(s.mem, s.producer, HEAD), push := PushIdle,
                    pushed := s.pushed + [s.push.item])
  {
    t := Step(o, s, StoreHead);
    ProducerCounts(o, s, StoreHead);
  }

  lemma PushHalf(o: Orders, s: State, n: nat, item: nat) returns (t: State)
    requires Rounds(o, s, n) && n < s.capacity
    ensures t == Exec(Program(o), s, Push(item, n)) && HalfRound(o, t, n) && t.capacity == s.capacity
    ensures t.pushed == s.pushed + [item] && t.popped == s.popped && t.mem[WRITES + n][0] == s.mem[WRITES + n][0]
  {
    var s2 := PushPasses(o, s, n, item);
    var s3 := SlotIsWritten(o, s2, n);
    t := HeadIsStored(o, s3);
    FourSteps(Program(o), s, BeginPush(item), LoadTail(n), WriteSlot, StoreHead);
  }

  lemma HeadReadable(o: Orders, s: State, n: nat)
    requires HalfRound(o, s, n)
    ensures Readable(s.mem, s.consumer, HEAD, n + 1) && Tail(s) == n != s.mem[HEAD][n + 1].value
    ensures var cur := Load(o.headAcquire, s.mem, s.consumer, HEAD, n + 1).cur;
            && (forall l :: WRITES + n < l < Moves(s.capacity) ==> cur[l] == 0)
            && cur[WRITES + n] == if o.headRelease && o.headAcquire then 1 else 0
  {
    EmptyCheck(s, n + 1);
    RemainderIs(n, s.capacity, 0, n);
  }

  /** The pop has been let through; it has seen the write exactly if the head carried it. */
  lemma PopPasses(o: Orders, s: State, n: nat) returns (t: State)
    requires HalfRound(o, s, n)
    ensures t == Step(o, Step(o, s, BeginPop), LoadHead(n + 1)) && Counts(t) && Tail(t) == n
    ensures t == s.(consumer := t.consumer, pop := PopChecked) && t.consumer.rel == s.consumer.rel
    ensures forall l :: WRITES + n < l < Moves(s.capacity) ==> t.consumer.cur[l] == 0
    ensures t.consumer.cur[WRITES + n] == if o.headRelease && o.headAcquire then 1 else 0
  {
    HeadReadable(o, s, n);
    var begun := Step(o, s, BeginPop);
    t := Step(o, begun, LoadHead(n + 1));
    ConsumerCounts(o, begun, LoadHead(n + 1));
  }

  lemma SlotIsRead(o: Orders, s: State, k: nat) returns (t: State)
    requires Counts(s) && s.pop.PopChecked?
    requires Readable(s.mem, s.consumer, WRITES + Tail(s), k)
    ensures t == Step(o, s, ReadSlot(k)) && Counts(t)
    ensures t.mem == Stored(s.mem, Moves(s.capacity) + Tail(s), 0, s.consumer.rel)
    ensures t == s.(mem := t.mem, consumer := t.consumer, pop := PopRead(s.mem[WRITES + Tail(s)][k].value),
                    movedAt := t.movedAt,
                    consumerRaced := s.consumerRaced || Behind(s.mem, s.consumer, WRITES + Tail(s)))
    ensures t.consumer.rel == s.consumer.rel
    ensures forall l :: WRITES <= l < Moves(s.capacity) && l != WRITES + Tail(s) ==>
              t.consumer.cur[l] == s.consumer.cur[l]
  {
    t := Step(o, s, ReadSlot(k));
    ConsumerCounts(o, s, ReadSlot(k));
  }

  lemma TailIsStored(o: Orders, s: State) returns (t: State)
    requires Counts(s) && s.pop.PopRead?
    ensures t == Step(o, s, StoreTail) && Counts(t)
    ensures t.mem == Stored(s.mem, TAIL, Next(Tail(s), s.capacity), Published(o.tailRelease, s.consumer))
    ensures t == s.(mem := t.mem, consumer := AfterStore(s.mem, s.consumer, TAIL), pop := PopIdle,
                    popped := s.popped + [s.pop.out])
  {
    t := Step(o, s, StoreTail);
    ConsumerCounts(o, s, StoreTail);
  }

  /** The item has been moved out of its slot. */
  ghost predicate RoundRead(s: State, n: nat) {
    && Counts(s) && n < s.capacity && |s.pushed| == n + 1 && |s.popped| == n && s.push == PushIdle && s.pop.PopRead?
    && s.producer.rel == s.consumer.rel == Zeros(|s.mem|)
    && Moved(s.mem, n + 1, s.capacity) && Unwritten(s.mem, n + 1, s.capacity)
    && (forall l :: WRITES + n < l < Moves(s.capacity) ==> s.consumer.cur[l] == 0) && Unseen(s.producer.cur, n + 1)
  }

  lemma ReadsRound(o: Orders, s: State, n: nat) returns (t: State)
    requires HalfRound(o, s, n)
    ensures t == Step(o, Step(o, Step(o, s, BeginPop), LoadHead(n + 1)), ReadSlot(1))
    ensures RoundRead(t, n) && t.capacity == s.capacity
  {
    var s2 := PopPasses(o, s, n);
    t := SlotIsRead(o, s2, 1);
  }

  /** With a tail order missing the pop ends the round. */
  lemma EndsRound(o: Orders, s: State, n: nat) returns (t: State)
    requires RoundRead(s, n) && !(o.tailRelease && o.tailAcquire)
    ensures t == Step(o, s, StoreTail) && Rounds(o, t, n + 1) && t.capacity == s.capacity
  {
    t := TailIsStored(o, s);
  }

  lemma PopHalf(o: Orders, s: State, n: nat) returns (t: State)
    requires HalfRound(o, s, n) && !(o.tailRelease && o.tailAcquire)
    ensures t == Exec(Program(o), s, Pop(n + 1, 1)) && Rounds(o, t, n + 1) && t.capacity == s.capacity
  {
    var read := ReadsRound(o, s, n);
    t := EndsRound(o, read, n);
    FourSteps(Program(o), s, BeginPop, LoadHead(n + 1), ReadSlot(1), StoreTail);
  }

  lemma InitRounds(o: Orders, capacity: nat)
    requires capacity >= 2
    ensures Rounds(o, Init(capacity), 0)
  {
    InitCounts(capacity);
  }

  lemma OneRound(o: Orders, s: State, n: nat) returns (actions: seq<Action>, t: State)
    requires Rounds(o, s, n) && n < s.capacity && !(o.tailRelease && o.tailAcquire)
    ensures t == Exec(Program(o), s, actions) && Rounds(o, t, n + 1) && t.capacity == s.capacity
  {
    var half := PushHalf(o, s, n, 0);
    t := PopHalf(o, half, n);
    ExecAppend(Program(o), s, Push(0, n), Pop(n + 1, 1));
    actions := Push(0, n) + Pop(n + 1, 1);
  }

  lemma {:induction false} ManyRounds(o: Orders, capacity: nat, n: nat) returns (actions: seq<Action>, t: State)
    requires n <= capacity && capacity >= 2 && !(o.tailRelease && o.tailAcquire)
    ensures t == Run(o, capacity, actions) && Rounds(o, t, n) && t.capacity == capacity
    decreases n
  {
    if n == 0 {
      InitRounds(o, capacity);
      actions, t := [], Init(capacity);
    } else {
      var before, s := ManyRounds(o, capacity, n - 1);
      var more, next := OneRound(o, s, n - 1);
      ExecAppend(Program(o), Init(capacity), before, more);
      actions, t := before + more, next;
    }
  }

  function HalfPush(t: nat): seq<Action> { [BeginPush(0), LoadTail(t), WriteSlot] }

  /** The push that comes round to the first slot races with the move out of it. */
  lemma PushComesRound(o: Orders, s: State)
    requires Rounds(o, s, s.capacity)
    ensures Exec(Program(o), s, HalfPush(s.capacity)).producerRaced
  {
    var t := PushPasses(o, s, s.capacity, 0);
    RemainderIs(s.capacity, s.capacity, 1, 0);
    assert Head(t) == 0 && Behind(t.mem, t.producer, Moves(s.capacity));
    ThreeSteps(Program(o), s, BeginPush(0), LoadTail(s.capacity), WriteSlot);
  }

  lemma ProducerRaces(o: Orders, capacity: nat) returns (actions: seq<Action>)
    requires capacity >= 2 && !(o.tailRelease && o.tailAcquire)
    ensures Run(o, capacity, actions).producerRaced
  {
    var before, s := ManyRounds(o, capacity, capacity);
    PushComesRound(o, s);
    ExecAppend(Program(o), Init(capacity), before, HalfPush(capacity));
    actions := before + HalfPush(capacity);
  }

  lemma PopMisses(o: Orders, s: State) returns (t: State)
    requires HalfRound(o, s, 0) && !(o.headRelease && o.headAcquire) && s.mem[WRITES][0].value == 0
    ensures t == Exec(Program(o), s, Pop(1, 0))
    ensures t.consumerRaced && t.pushed == s.pushed && t.popped == s.popped + [0]
  {
    var s2 := PopPasses(o, s, 0);
    var s3 := SlotIsRead(o, s2, 0);
    t := TailIsStored(o, s3);
    FourSteps(Program(o), s, BeginPop, LoadHead(1), ReadSlot(0), StoreTail);
  }

  /** The first pop can miss the first push: it races, and hands out what was there before. */
  lemma ConsumerMisreads(o: Orders, capacity: nat) returns (actions: seq<Action>)
    requires capacity >= 2 && !(o.headRelease && o.headAcquire)
    ensures var s := Run(o, capacity, actions); s.consumerRaced && s.pushed == [1] && s.popped == [0]
  {
    InitRounds(o, capacity);
    var half := PushHalf(o, Init(capacity), 0, 1);
    var t := PopMisses(o, half);
    ExecAppend(Program(o), Init(capacity), Push(1, 0), Pop(1, 0));
    actions := Push(1, 0) + Pop(1, 0);
  }

  // ---- the theorem ---------------------------------------------------------------------------------

  /** In all runs pops hand out a prefix of what was pushed. */
  ghost predicate NeverMisreads(o: Orders, capacity: nat) {
    forall actions: seq<Action> :: Run(o, capacity, actions).popped <= Run(o, capacity, actions).pushed
  }

  ghost predicate ConsumerNeverRaces(o: Orders, capacity: nat) {
    forall actions: seq<Action> :: !Run(o, capacity, actions).consumerRaced
  }

  ghost predicate ProducerNeverRaces(o: Orders, capacity: nat) {
    forall actions: seq<Action> :: !Run(o, capacity, actions).producerRaced
  }

  /**
   * On a ring of any size, pops hand out what was pushed, in order, and read no slot whose write they have not seen,
   * exactly if the head is stored with release and loaded with acquire.
   */
  lemma HeadOrdersNeeded(o: Orders, capacity: nat)
    requires capacity >= 2
    ensures NeverMisreads(o, capacity) <==> o.headRelease && o.headAcquire
    ensures ConsumerNeverRaces(o, capacity) <==> o.headRelease && o.headAcquire
  {
    if o.headRelease && o.headAcquire {
      forall actions: seq<Action>
        ensures Run(o, capacity, actions).popped <= Run(o, capacity, actions).pushed
        ensures !Run(o, capacity, actions).consumerRaced
      {
        RunPopsRight(o, capacity, actions);
      }
    } else {
      var actions := ConsumerMisreads(o, capacity);
      var s := Run(o, capacity, actions);
      assert s.popped[0] != s.pushed[0];
    }
  }

  /** And no push overwrites a slot whose move it has not seen exactly if the tail is. */
  lemma TailOrdersNeeded(o: Orders, capacity: nat)
    requires capacity >= 2
    ensures ProducerNeverRaces(o, capacity) <==> o.tailRelease && o.tailAcquire
  {
    if o.tailRelease && o.tailAcquire {
      forall actions: seq<Action> ensures !Run(o, capacity, actions).producerRaced {
        RunWritesClear(o, capacity, actions);
      }
    } else {
      var actions := ProducerRaces(o, capacity);
    }
  }

  /** With the orders the ring has, over this memory: what SpscInterleaving shows with slots read as last written. */
  lemma FifoPrefix(capacity: nat, actions: seq<Action>)
    requires capacity >= 2
    ensures var s := Run(Orders(true, true, true, true), capacity, actions);
            && s.popped <= s.pushed && |s.pushed| <= |s.popped| + capacity - 1
            && !s.consumerRaced && !s.producerRaced
  {
    var o := Orders(true, true, true, true);
    RunCounts(o, capacity, actions);
    RunPopsRight(o, capacity, actions);
    RunWritesClear(o, capacity, actions);
  }

  // ---- what the actions alone say ------------------------------------------------------------

  /** The actions that are the producer's, in order. */
  function ProducerActions(actions: seq<Action>): seq<Action>
    decreases |actions|
  {
    if actions == [] then []
    else
      var last := actions[|actions| - 1];
      ProducerActions(actions[..|actions| - 1]) + if ByProducer(last) then [last] else []
  }

  /** The actions that are the consumer's. */
  function ConsumerActions(actions: seq<Action>): seq<Action>
    decreases |actions|
  {
    if actions == [] then []
    else
      var last := actions[|actions| - 1];
      ConsumerActions(actions[..|actions| - 1]) + if ByProducer(last) then [] else [last]
  }

  /** Where a push that passes its check is after k of its steps. */
  function Pushing(item: nat, k: nat): Producer {
    if k == 1 then PushStarted(item) else if k == 2 then PushChecked(item) else if k == 3 then PushWritten(item)
    else PushIdle
  }

  lemma FirstMore(all: seq<Action>, k: nat, before: seq<Action>, last: Action)
    requires k <= |all| && before + [last] == all[..k]
    ensures k > 0 && before == all[..k - 1] && last == all[k - 1]
  {
    assert (before + [last])[..|before|] == before && (before + [last])[|before|] == last;
  }

  /** A step of the producer that goes on with a push. */
  lemma PushStep(o: Orders, s: State, item: nat, t: nat, k: nat)
    requires Counts(s) && 0 < k <= 4 && s.push == Pushing(item, k - 1)
    requires k == 2 ==> s.producer.cur[TAIL] <= t <= |s.popped| && |s.pushed| - t < s.capacity - 1
    ensures var u := Step(o, s, Push(item, t)[k - 1]);
            && u.push == Pushing(item, k) && u.popped == s.popped && u.capacity == s.capacity
            && u.pushed == (if k == 4 then s.pushed + [item] else s.pushed)
            && (k < 2 ==> u.producer == s.producer)
  {
    if k == 2 { FullCheck(s, t); }
  }

  /** The consumer leaves the producer's side alone. */
  lemma ConsumerLeaves(o: Orders, s: State, a: Action)
    requires Counts(s) && !ByProducer(a)
    ensures var u := Step(o, s, a);
            && u.push == s.push && u.pushed == s.pushed && u.producer == s.producer && u.capacity == s.capacity
            && |s.popped| <= |u.popped|
  {
  }

  /** k steps into a push that finds a free slot, whatever the consumer does meanwhile. */
  lemma {:induction false} PushAdvances(o: Orders, s: State, actions: seq<Action>, item: nat, t: nat, k: nat)
    requires Counts(s) && s.push.PushIdle? && k <= 4
    requires s.producer.cur[TAIL] <= t <= |s.popped| && |s.pushed| - t < s.capacity - 1
    requires ProducerActions(actions) == Push(item, t)[..k]
    ensures var u := Exec(Program(o), s, actions);
            && Counts(u) && u.capacity == s.capacity && u.push == Pushing(item, k) && |s.popped| <= |u.popped|
            && (k < 2 ==> u.producer.cur[TAIL] == s.producer.cur[TAIL])
            && u.pushed == if k == 4 then s.pushed + [item] else s.pushed
    decreases |actions|
  {
    if actions != [] {
      var before, last := actions[..|actions| - 1], actions[|actions| - 1];
      var u := Exec(Program(o), s, before);
      if ByProducer(last) {
        FirstMore(Push(item, t), k, ProducerActions(before), last);
        PushAdvances(o, s, before, item, t, k - 1);
        PushStep(o, u, item, t, k);
      } else {
        PushAdvances(o, s, before, item, t, k);
        ConsumerLeaves(o, u, last);
      }
      StepCounts(o, u, last);
    }
  }

  /**
   * Under any orders a push that finds the ring short of full, as of the tail it loads, goes through: its own item is
   * what the ring gains, whatever the consumer does meanwhile.
   */
  lemma PushTakes(o: Orders, s: State, actions: seq<Action>, item: nat, t: nat)
    requires Counts(s) && s.push.PushIdle?
    requires s.producer.cur[TAIL] <= t <= |s.popped| && |s.pushed| - t < s.capacity - 1
    requires ProducerActions(actions) == [BeginPush(item), LoadTail(t), WriteSlot, StoreHead]
    ensures Exec(Program(o), s, actions).pushed == s.pushed + [item]
    ensures Exec(Program(o), s, actions).push.PushIdle?
  {
    PushAdvances(o, s, actions, item, t, 4);
  }

  lemma PopStep(o: Orders, s: State, t: nat, k: nat)
    requires Counts(s) && 0 < k <= 2 && (if k == 1 then s.pop.PopIdle? else s.pop.PopStarted?)
    requires k == 2 ==> s.consumer.cur[HEAD] <= t <= |s.pushed| && |s.popped| < t
    ensures var u := Step(o, s, if k == 1 then BeginPop else LoadHead(t));
            && (if k == 1 then u.pop.PopStarted? else u.pop.PopChecked?) && u.pushed == s.pushed
            && u.popped == s.popped && (k == 1 ==> u.consumer == s.consumer) && u.capacity == s.capacity
  {
    if k == 2 { EmptyCheck(s, t); }
  }

  /** The producer leaves the consumer's side alone. */
  lemma ProducerLeaves(o: Orders, s: State, a: Action)
    requires Counts(s) && ByProducer(a)
    ensures var u := Step(o, s, a);
            && u.pop == s.pop && u.popped == s.popped && u.consumer == s.consumer && u.capacity == s.capacity
            && |s.pushed| <= |u.pushed|
  {
  }

  /** A pop passes its check when the head it loads counts more pushes than there were pops. */
  lemma {:induction false} PopPassesCheck(o: Orders, s: State, actions: seq<Action>, t: nat, k: nat)
    requires Counts(s) && s.pop.PopIdle? && k <= 2 && s.consumer.cur[HEAD] <= t <= |s.pushed| && |s.popped| < t
    requires ConsumerActions(actions) == [BeginPop, LoadHead(t)][..k]
    ensures var u := Exec(Program(o), s, actions);
            && Counts(u) && u.capacity == s.capacity && u.popped == s.popped && |s.pushed| <= |u.pushed|
            && (if k == 0 then u.pop.PopIdle? else if k == 1 then u.pop.PopStarted? else u.pop.PopChecked?)
            && (k < 2 ==> u.consumer == s.consumer)
    decreases |actions|
  {
    if actions != [] {
      var before, last := actions[..|actions| - 1], actions[|actions| - 1];
      var u := Exec(Program(o), s, before);
      if ByProducer(last) {
        PopPassesCheck(o, s, before, t, k);
        ProducerLeaves(o, u, last);
      } else {
        FirstMore([BeginPop, LoadHead(t)], k, ConsumerActions(before), last);
        PopPassesCheck(o, s, before, t, k - 1);
        PopStep(o, u, t, k);
      }
      StepCounts(o, u, last);
    }
  }

  /** Past its check a pop hands out the message that its read of the slot picks. */
  lemma PopTakes(o: Orders, s: State, slot: nat)
    requires Counts(s) && s.pop.PopChecked? && Readable(s.mem, s.consumer, WRITES + Tail(s), slot)
    ensures var u := Step(o, Step(o, s, ReadSlot(slot)), StoreTail);
            u.pop.PopIdle? && u.popped == s.popped + [s.mem[2 + |s.popped| % s.capacity][slot].value]
  {
    StepCounts(o, s, ReadSlot(slot));
  }
}

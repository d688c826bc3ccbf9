/**
 * The ring with a live producer and a live consumer: every access to an index is a step, a slot is written in two
 * steps and read in two steps, and the load of the other side's index may return an old value, though never one older
 * than the same side has already seen.
 */
module SpscInterleaving {
  import opened Spsc

  /** A slot between the two halves of a write holds nothing one may rely on. */
  datatype Slot<T> = Blank | BeingWritten | Holds(item: T)

  datatype Producer<T> =
    | PushIdle
    | PushStarted(item: T)
    | PushChecked(item: T)
    | PushWriting(item: T)
    | PushWritten(item: T)

  datatype Consumer<T> =
    | PopIdle
    | PopStarted
    | PopChecked
    | PopReading
    | PopRead(out: Slot<T>)

  /**
   * pushed and popped list the items of all completed pushes and pops. seenTail and seenHead are the newest index
   * values either side has loaded from the other, counted without wrap-around.
   */
  datatype State<T> = State(
    head: nat, tail: nat, slots: seq<Slot<T>>,
    producer: Producer<T>, consumer: Consumer<T>,
    seenTail: nat, seenHead: nat,
    pushed: seq<T>, popped: seq<Slot<T>>)

  datatype Action<T> =
    | BeginPush(item: T)
    | LoadTail(count: nat)
    | BeginWrite
    | EndWrite
    | StoreHead
    | BeginPop
    | LoadHead(count: nat)
    | BeginRead
    | EndRead
    | StoreTail

  function Init<T>(capacity: nat): State<T> {
    State(0, 0, seq(capacity, _ => Blank), PushIdle, PopIdle, 0, 0, [], [])
  }

  function Next(i: nat, capacity: nat): nat
    requires capacity > 0
  {
    (i + 1) % capacity
  }

  predicate Sized<T>(s: State<T>) { |s.slots| >= 2 && s.head < |s.slots| && s.tail < |s.slots| }

  /** The tail index as it was stored after `count` pops. */
  predicate TailReadable<T>(s: State<T>, count: nat) { s.seenTail <= count <= |s.popped| }

  predicate HeadReadable<T>(s: State<T>, count: nat) { s.seenHead <= count <= |s.pushed| }

  /** The check in try_push, on the tail value loaded. */
  predicate LooksFull<T>(s: State<T>, count: nat)
    requires Sized(s)
  {
    Next(s.head, |s.slots|) == count % |s.slots|
  }

  /** The check in try_pop, on the head value loaded. */
  predicate LooksEmpty<T>(s: State<T>, count: nat)
    requires Sized(s)
  {
    s.tail == count % |s.slots|
  }

  function ProducerStep<T>(s: State<T>, a: Action<T>): State<T>
    requires Sized(s)
  {
    match (a, s.producer)
    case (BeginPush(item), PushIdle) => s.(producer := PushStarted(item))
    case (LoadTail(c), PushStarted(item)) =>
      if !TailReadable(s, c) then s
      else s.(seenTail := c, producer := if LooksFull(s, c) then PushIdle else PushChecked(item))
    case (BeginWrite, PushChecked(item)) =>
      s.(slots := s.slots[s.head := BeingWritten], producer := PushWriting(item))
    case (EndWrite, PushWriting(item)) =>
      s.(slots := s.slots[s.head := Holds(item)], producer := PushWritten(item))
    case (StoreHead, PushWritten(item)) =>
      s.(head := Next(s.head, |s.slots|), pushed := s.pushed + [item], producer := PushIdle)
    case _ => s
  }

  function ConsumerStep<T>(s: State<T>, a: Action<T>): State<T>
    requires Sized(s)
  {
    match (a, s.consumer)
    case (BeginPop, PopIdle) => s.(consumer := PopStarted)
    case (LoadHead(c), PopStarted) =>
      if !HeadReadable(s, c) then s
      else s.(seenHead := c, consumer := if LooksEmpty(s, c) then PopIdle else PopChecked)
    case (BeginRead, PopChecked) => s.(consumer := PopReading)
    case (EndRead, PopReading) => s.(consumer := PopRead(s.slots[s.tail]))
    case (StoreTail, PopRead(out)) =>
      s.(tail := Next(s.tail, |s.slots|), popped := s.popped + [out], consumer := PopIdle)
    case _ => s
  }

  predicate ByProducer<T>(a: Action<T>) { a.BeginPush? || a.LoadTail? || a.BeginWrite? || a.EndWrite? || a.StoreHead? }

  function Step<T>(s: State<T>, a: Action<T>): State<T> {
    if !Sized(s) then s else if ByProducer(a) then ProducerStep(s, a) else ConsumerStep(s, a)
  }

  function Exec<T>(s: State<T>, actions: seq<Action<T>>): State<T>
    decreases |actions|
  {
    if actions == [] then s else Step(Exec(s, actions[..|actions| - 1]), actions[|actions| - 1])
  }

  // ---- the invariant -------------------------------------------------------------------------

  /** Indices are the counts of completed operations modulo the capacity. */
  ghost predicate Counts<T>(s: State<T>) {
    && Sized(s)
    && s.head == |s.pushed| % |s.slots| && s.tail == |s.popped| % |s.slots|
    && s.seenTail <= |s.popped| <= |s.pushed| < s.seenTail + |s.slots|
    && |s.popped| <= s.seenHead <= |s.pushed|
  }

  /** The queued items sit in their slots. */
  ghost predicate Queued<T>(s: State<T>)
    requires Sized(s)
  {
    forall i {:trigger s.pushed[i]} :: |s.popped| <= i < |s.pushed| ==> s.slots[i % |s.slots|] == Holds(s.pushed[i])
  }

  /** Past its check the producer owns a free slot. */
  predicate OwnsSlot<T>(p: Producer<T>) { p.PushChecked? || p.PushWriting? || p.PushWritten? }

  /** Past its check the consumer owns a filled slot. */
  predicate OwnsItem<T>(c: Consumer<T>) { c.PopChecked? || c.PopReading? || c.PopRead? }

  ghost predicate Inv<T>(s: State<T>) {
    && Counts(s) && Queued(s)
    && |s.popped| <= |s.pushed| && (forall i :: 0 <= i < |s.popped| ==> s.popped[i] == Holds(s.pushed[i]))
    && (OwnsSlot(s.producer) ==> |s.pushed| + 1 < s.seenTail + |s.slots|)
    && (s.producer.PushWritten? ==> s.slots[s.head] == Holds(s.producer.item))
    && (OwnsItem(s.consumer) ==> |s.popped| < s.seenHead)
    && (s.consumer.PopRead? ==> |s.popped| < |s.pushed| && s.consumer.out == Holds(s.pushed[|s.popped|]))
  }

  /** try_push returns false exactly when the tail it loaded is a whole ring, less one slot, behind. */
  lemma FullCheck<T>(s: State<T>, count: nat)
    requires Counts(s) && TailReadable(s, count)
    ensures LooksFull(s, count) <==> |s.pushed| - count == |s.slots| - 1
  {
    NextMeets(|s.pushed|, count, |s.slots|);
  }

  /** try_pop returns false exactly when the head it loaded is where the tail is. */
  lemma EmptyCheck<T>(s: State<T>, count: nat)
    requires Counts(s) && HeadReadable(s, count)
    ensures LooksEmpty(s, count) <==> count == |s.popped|
  {
    if count != |s.popped| { DistinctIndices(|s.popped|, count, |s.slots|); }
  }

  /** The free slot at the head is none of the queued ones. */
  lemma HeadIsFree<T>(s: State<T>, i: nat)
    requires Counts(s) && |s.pushed| + 1 < s.seenTail + |s.slots| && |s.popped| <= i < |s.pushed|
    ensures i % |s.slots| != s.head
  {
    DistinctIndices(i, |s.pushed|, |s.slots|);
  }

  lemma WriteKeepsQueued<T>(s: State<T>, slot: Slot<T>)
    requires Counts(s) && Queued(s) && |s.pushed| + 1 < s.seenTail + |s.slots|
    ensures Queued(s.(slots := s.slots[s.head := slot]))
  {
    forall i | |s.popped| <= i < |s.pushed| ensures s.slots[s.head := slot][i % |s.slots|] == Holds(s.pushed[i]) {
      HeadIsFree(s, i);
    }
  }

  lemma ProducerKeeps<T>(s: State<T>, a: Action<T>)
    requires Inv(s)
    ensures Inv(ProducerStep(s, a)) && |ProducerStep(s, a).slots| == |s.slots|
  {
    match (a, s.producer)
    case (LoadTail(c), PushStarted(_)) =>
      if TailReadable(s, c) { FullCheck(s, c); }
    case (BeginWrite, PushChecked(_)) => WriteKeepsQueued(s, BeingWritten);
    case (EndWrite, PushWriting(item)) => WriteKeepsQueued(s, Holds(item));
    case (StoreHead, PushWritten(_)) => NextIndex(|s.pushed|, |s.slots|);
    case _ =>
  }

  lemma ConsumerKeeps<T>(s: State<T>, a: Action<T>)
    requires Inv(s)
    ensures Inv(ConsumerStep(s, a)) && |ConsumerStep(s, a).slots| == |s.slots|
  {
    match (a, s.consumer)
    case (LoadHead(c), PopStarted) =>
      if HeadReadable(s, c) { EmptyCheck(s, c); }
    case (EndRead, PopReading) => assert s.slots[s.tail] == Holds(s.pushed[|s.popped|]);
    case (StoreTail, PopRead(_)) => NextIndex(|s.popped|, |s.slots|);
    case _ =>
  }

  lemma {:induction false} RunKeeps<T>(capacity: nat, actions: seq<Action<T>>)
    requires capacity >= 2
    ensures var s := Exec(Init<T>(capacity), actions); Inv(s) && |s.slots| == capacity
    decreases |actions|
  {
    if actions != [] {
      var before := actions[..|actions| - 1];
      RunKeeps(capacity, before);
      var s := Exec(Init<T>(capacity), before);
      if ByProducer(actions[|actions| - 1]) { ProducerKeeps(s, actions[|actions| - 1]); }
      else { ConsumerKeeps(s, actions[|actions| - 1]); }
    }
  }

  // ---- the theorems --------------------------------------------------------------------------

  /** In every interleaving the pops hand out, in order, a prefix of what was pushed, and the ring is never overfull. */
  lemma FifoPrefix<T>(capacity: nat, actions: seq<Action<T>>)
    requires capacity >= 2
    ensures var s := Exec(Init<T>(capacity), actions);
            && |s.popped| <= |s.pushed| <= |s.popped| + capacity - 1
            && forall i :: 0 <= i < |s.popped| ==> s.popped[i] == Holds(s.pushed[i])
  {
    RunKeeps(capacity, actions);
  }

  /** The producer never writes the slot the consumer is reading. */
  lemma NoSlotRace<T>(capacity: nat, actions: seq<Action<T>>)
    requires capacity >= 2
    ensures var s := Exec(Init<T>(capacity), actions);
            OwnsSlot(s.producer) && OwnsItem(s.consumer) ==> s.head != s.tail
  {
    RunKeeps(capacity, actions);
    var s := Exec(Init<T>(capacity), actions);
    if OwnsSlot(s.producer) && OwnsItem(s.consumer) { HeadIsFree(s, |s.popped|); }
  }

  /**
   * A push fails at its index load exactly when the ring was full as of the tail it loaded, so when that load is
   * current it fails exactly when the ring is full; and a pop likewise on an empty ring.
   */
  lemma FailuresAreTrue<T>(capacity: nat, actions: seq<Action<T>>, count: nat)
    requires capacity >= 2
    ensures var s := Exec(Init<T>(capacity), actions);
            && (s.producer.PushStarted? && TailReadable(s, count) ==>
                  (Step(s, LoadTail(count)).producer.PushIdle? <==> |s.pushed| - count == capacity - 1))
            && (s.consumer.PopStarted? && HeadReadable(s, count) ==>
                  (Step(s, LoadHead(count)).consumer.PopIdle? <==> count == |s.popped|))
  {
    RunKeeps(capacity, actions);
    var s := Exec(Init<T>(capacity), actions);
    if TailReadable(s, count) { FullCheck(s, count); }
    if HeadReadable(s, count) { EmptyCheck(s, count); }
  }

  // ---- what the actions alone say ------------------------------------------------------------

  /** The actions that are the producer's, in order. */
  function ProducerActions<T>(actions: seq<Action<T>>): seq<Action<T>>
    decreases |actions|
  {
    if actions == [] then []
    else
      var last := actions[|actions| - 1];
      ProducerActions(actions[..|actions| - 1]) + if ByProducer(last) then [last] else []
  }

  /** The actions that are the consumer's. */
  function ConsumerActions<T>(actions: seq<Action<T>>): seq<Action<T>>
    decreases |actions|
  {
    if actions == [] then []
    else
      var last := actions[|actions| - 1];
      ConsumerActions(actions[..|actions| - 1]) + if ByProducer(last) then [] else [last]
  }

  function PushActions<T>(item: T, count: nat): seq<Action<T>> {
    [BeginPush(item), LoadTail(count), BeginWrite, EndWrite, StoreHead]
  }

  function PopActions<T>(count: nat): seq<Action<T>> { [BeginPop, LoadHead(count), BeginRead, EndRead, StoreTail] }

  /** Where a push that passes its check is after k of its steps. */
  function Pushing<T>(item: T, k: nat): Producer<T> {
    if k == 1 then PushStarted(item) else if k == 2 then PushChecked(item) else if k == 3 then PushWriting(item)
    else if k == 4 then PushWritten(item) else PushIdle
  }

  predicate PoppingAt<T>(c: Consumer<T>, k: nat) {
    if k == 1 then c.PopStarted? else if k == 2 then c.PopChecked? else if k == 3 then c.PopReading?
    else if k == 4 then c.PopRead? else c.PopIdle?
  }

  lemma StepKeeps<T>(s: State<T>, a: Action<T>)
    requires Inv(s)
    ensures Inv(Step(s, a)) && |Step(s, a).slots| == |s.slots|
  {
    if ByProducer(a) { ProducerKeeps(s, a); } else { ConsumerKeeps(s, a); }
  }

  lemma FirstMore<T>(all: seq<Action<T>>, k: nat, before: seq<Action<T>>, last: Action<T>)
    requires k <= |all| && before + [last] == all[..k]
    ensures k > 0 && before == all[..k - 1] && last == all[k - 1]
  {
    assert (before + [last])[..|before|] == before && (before + [last])[|before|] == last;
  }

  /** A step of the producer that goes on with a push. */
  lemma PushStep<T>(s: State<T>, item: T, count: nat, k: nat)
    requires Inv(s) && 0 < k <= 5 && s.producer == Pushing(item, k - 1)
    requires k == 2 ==> s.seenTail <= count <= |s.popped| && |s.pushed| - count < |s.slots| - 1
    ensures var t := Step(s, PushActions(item, count)[k - 1]);
            && t.producer == Pushing(item, k) && t.popped == s.popped && (k < 2 ==> t.seenTail == s.seenTail)
            && t.pushed == if k == 5 then s.pushed + [item] else s.pushed
  {
    if k == 2 { FullCheck(s, count); }
  }

  lemma ConsumerLeaves<T>(s: State<T>, a: Action<T>)
    requires Inv(s) && !ByProducer(a)
    ensures var t := Step(s, a);
            && t.producer == s.producer && t.pushed == s.pushed && t.seenTail == s.seenTail && s.popped <= t.popped
  {
  }

  /** k steps into a push that finds a free slot, whatever the consumer does meanwhile. */
  lemma {:induction false} PushAdvances<T>(s: State<T>, actions: seq<Action<T>>, item: T, count: nat, k: nat)
    requires Inv(s) && s.producer.PushIdle? && k <= 5
    requires s.seenTail <= count <= |s.popped| && |s.pushed| - count < |s.slots| - 1
    requires ProducerActions(actions) == PushActions(item, count)[..k]
    ensures var t := Exec(s, actions);
            && Inv(t) && |t.slots| == |s.slots| && t.producer == Pushing(item, k) && |s.popped| <= |t.popped|
            && (k < 2 ==> t.seenTail == s.seenTail) && t.pushed == if k == 5 then s.pushed + [item] else s.pushed
    decreases |actions|
  {
    if actions != [] {
      var before, last := actions[..|actions| - 1], actions[|actions| - 1];
      var t := Exec(s, before);
      if ByProducer(last) {
        FirstMore(PushActions(item, count), k, ProducerActions(before), last);
        PushAdvances(s, before, item, count, k - 1);
        PushStep(t, item, count, k);
      } else {
        PushAdvances(s, before, item, count, k);
        ConsumerLeaves(t, last);
      }
      StepKeeps(t, last);
    }
  }

  /**
   * A push that finds the ring short of full, as of the tail it loads, goes through: its own item is what the ring
   * gains, whatever the consumer does meanwhile.
   */
  lemma PushTakes<T>(s: State<T>, actions: seq<Action<T>>, item: T, count: nat)
    requires Inv(s) && s.producer.PushIdle?
    requires s.seenTail <= count <= |s.popped| && |s.pushed| - count < |s.slots| - 1
    requires ProducerActions(actions) == [BeginPush(item), LoadTail(count), BeginWrite, EndWrite, StoreHead]
    ensures Exec(s, actions).pushed == s.pushed + [item] && Exec(s, actions).producer.PushIdle?
  {
    PushAdvances(s, actions, item, count, 5);
  }

  lemma PopStep<T>(s: State<T>, count: nat, k: nat)
    requires Inv(s) && 0 < k <= 5 && PoppingAt(s.consumer, k - 1)
    requires k == 2 ==> s.seenHead <= count <= |s.pushed| && count != |s.popped|
    ensures var t := Step(s, PopActions<T>(count)[k - 1]);
            && PoppingAt(t.consumer, k) && t.pushed == s.pushed && (k < 2 ==> t.seenHead == s.seenHead)
            && s.popped <= t.popped && |t.popped| == |s.popped| + if k == 5 then 1 else 0
  {
    if k == 2 { EmptyCheck(s, count); }
  }

  lemma ProducerLeaves<T>(s: State<T>, a: Action<T>)
    requires Inv(s) && ByProducer(a)
    ensures var t := Step(s, a);
            && t.consumer == s.consumer && t.popped == s.popped && t.seenHead == s.seenHead && s.pushed <= t.pushed
  {
  }

  /** k steps into a pop that finds an item, whatever the producer does meanwhile. */
  lemma {:induction false} PopAdvances<T>(s: State<T>, actions: seq<Action<T>>, count: nat, k: nat)
    requires Inv(s) && s.consumer.PopIdle? && k <= 5
    requires s.seenHead <= count <= |s.pushed| && count != |s.popped|
    requires ConsumerActions(actions) == PopActions(count)[..k]
    ensures var t := Exec(s, actions);
            && Inv(t) && |t.slots| == |s.slots| && PoppingAt(t.consumer, k) && s.pushed <= t.pushed
            && (k < 2 ==> t.seenHead == s.seenHead)
            && |t.popped| == |s.popped| + (if k == 5 then 1 else 0) && s.popped <= t.popped
    decreases |actions|
  {
    if actions != [] {
      var before, last := actions[..|actions| - 1], actions[|actions| - 1];
      var t := Exec(s, before);
      if !ByProducer(last) {
        FirstMore(PopActions(count), k, ConsumerActions(before), last);
        PopAdvances(s, before, count, k - 1);
        PopStep(t, count, k);
      } else {
        PopAdvances(s, before, count, k);
        ProducerLeaves(t, last);
      }
      StepKeeps(t, last);
    }
  }

  /** A pop that finds an item, as of the head it loads, hands out the oldest one queued. */
  lemma PopTakes<T>(s: State<T>, actions: seq<Action<T>>, count: nat)
    requires Inv(s) && s.consumer.PopIdle?
    requires s.seenHead <= count <= |s.pushed| && |s.popped| < count
    requires ConsumerActions(actions) == [BeginPop, LoadHead(count), BeginRead, EndRead, StoreTail]
    ensures Exec(s, actions).popped == s.popped + [Holds(s.pushed[|s.popped|])]
    ensures Exec(s, actions).consumer.PopIdle?
  {
    PopAdvances(s, actions, count, 5);
    assert Exec(s, actions).popped[|s.popped|] == Holds(s.pushed[|s.popped|]);
  }
}

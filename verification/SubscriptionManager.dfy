/**
 * The subscription manager on its ring: the callback captures frames under a backpressure policy and the send timer
 * takes them out. The two run in turn, a call at a time; a callback blocked on a full ring waits with its frame.
 */
module Subscriptions {
  import opened Bytes
  import opened Spsc

  datatype SensorFrame = SensorFrame(data: seq<byte>, sequence: nat, timestampNs: u64)

  datatype SensorType = Unknown | Lidar | Camera | Imu | Gps | Can | Control

  datatype Policy = OverwriteOldest | DropNewest | BatchAccumulate | NeverDropBlock

  function DefaultPolicyFor(t: SensorType): Policy {
    match t
    case Camera => OverwriteOldest
    case Lidar => DropNewest
    case Imu => BatchAccumulate
    case Gps => DropNewest
    case Can => NeverDropBlock
    case _ => DropNewest
  }

  /** Waiting is the blocking policy between two of its attempts. */
  datatype PushResult = Enqueued | DroppedNewest | Overwrote | BlockedThenEnqueued | Waiting

  // ---- the manager as a step system ------------------------------------------------------------

  /** enqueued, dropped and overwritten are the counters; popped lists what the consumer has taken out. */
  datatype Manager = Manager(
    capacity: nat, ring: seq<SensorFrame>, waiting: Option<SensorFrame>,
    received: bool, stale: bool, publishStale: bool, current: SensorFrame,
    captured: nat, enqueued: nat, dropped: nat, overwritten: nat,
    popped: seq<SensorFrame>)

  datatype Action =
    | Callback(data: seq<byte>, timestampNs: u64, policy: Policy)
    | Retry
    | GetData

  function Init(capacity: nat, publishStale: bool): Manager {
    Manager(capacity, [], None, false, true, publishStale, SensorFrame([], 0, 0), 0, 0, 0, 0, [])
  }

  predicate Full(m: Manager) { |m.ring| >= m.capacity }

  function Pushed(m: Manager, f: SensorFrame): Manager { m.(ring := m.ring + [f], enqueued := m.enqueued + 1) }

  /** What becomes of the captured frame. */
  function Applied(m: Manager, f: SensorFrame, policy: Policy): Manager {
    if !Full(m) then Pushed(m, f)
    else
      match policy
      case OverwriteOldest =>
        Pushed(m.(ring := if m.ring == [] then [] else m.ring[1..], overwritten := m.overwritten + 1), f)
      case DropNewest => m.(dropped := m.dropped + 1)
      case BatchAccumulate => m.(dropped := m.dropped + 1)
      case NeverDropBlock => m.(waiting := Some(f))
  }

  function Captured(m: Manager, data: seq<byte>, timestampNs: u64, policy: Policy): Manager {
    Applied(m.(received := true, stale := false, captured := m.captured + 1),
            SensorFrame(data, m.captured, timestampNs), policy)
  }

  /** Another attempt of a blocked callback. */
  function Retried(m: Manager): Manager {
    if m.waiting.None? || Full(m) then m else Pushed(m, m.waiting.value).(waiting := None)
  }

  predicate DataQueued(m: Manager) { m.received && (m.ring != [] || m.publishStale) }

  /** Whether get_data hands out a frame; the frame is the new current one. */
  predicate DataValid(m: Manager) {
    m.received && (m.ring != [] || (m.publishStale && m.current.data != []))
  }

  function Taken(m: Manager): Manager {
    if !m.received then m
    else if m.ring != [] then
      m.(ring := m.ring[1..], current := m.ring[0], stale := |m.ring| == 1, popped := m.popped + [m.ring[0]])
    else if m.publishStale && m.current.data != [] then m
    else m.(stale := true)
  }

  /** A callback cannot begin while the last one is blocked. */
  function Step(m: Manager, a: Action): Manager {
    match a
    case Callback(data, t, policy) => if m.waiting.Some? then m else Captured(m, data, t, policy)
    case Retry => Retried(m)
    case GetData => Taken(m)
  }

  function Exec(m: Manager, actions: seq<Action>): Manager
    decreases |actions|
  {
    if actions == [] then m else Step(Exec(m, actions[..|actions| - 1]), actions[|actions| - 1])
  }

  // ---- what every run keeps --------------------------------------------------------------------

  function One(w: Option<SensorFrame>): nat { if w.Some? then 1 else 0 }

  /** Sequence numbers strictly increase and stay below n. */
  ghost predicate Increasing(s: seq<SensorFrame>, n: nat) {
    && (forall i, j :: 0 <= i < j < |s| ==> s[i].sequence < s[j].sequence)
    && (forall i :: 0 <= i < |s| ==> s[i].sequence < n)
  }

  /** The counters account for every captured frame and for every enqueued one. */
  ghost predicate Accounted(m: Manager) {
    && |m.ring| <= m.capacity && m.capacity > 0
    && m.captured == m.enqueued + m.dropped + One(m.waiting)
    && m.enqueued == |m.popped| + |m.ring| + m.overwritten
  }

  /** What has been taken out and what is queued was captured in that order; a waiting frame is the newest. */
  ghost predicate InOrder(m: Manager) {
    && (m.waiting.Some? ==> m.waiting.value.sequence + 1 == m.captured)
    && One(m.waiting) <= m.captured
    && Increasing(m.popped + m.ring, m.captured - One(m.waiting))
  }

  /** Once a message has come there is something queued or something taken out, the latter being the current frame. */
  ghost predicate Current(m: Manager) {
    && (m.received ==> m.ring != [] || m.popped != [])
    && (m.popped != [] ==> m.current == m.popped[|m.popped| - 1])
  }

  ghost predicate Inv(m: Manager) { Accounted(m) && InOrder(m) && Current(m) }

  lemma PushInOrder(popped: seq<SensorFrame>, ring: seq<SensorFrame>, f: SensorFrame)
    requires Increasing(popped + ring, f.sequence)
    ensures Increasing(popped + (ring + [f]), f.sequence + 1)
  {
    assert popped + (ring + [f]) == popped + ring + [f];
  }

  lemma OverwriteInOrder(popped: seq<SensorFrame>, ring: seq<SensorFrame>, n: nat)
    requires Increasing(popped + ring, n) && ring != []
    ensures Increasing(popped + ring[1..], n)
  {
    var all, less := popped + ring, popped + ring[1..];
    assert forall i :: 0 <= i < |less| ==> less[i] == all[if i < |popped| then i else i + 1];
  }

  lemma PopInOrder(popped: seq<SensorFrame>, ring: seq<SensorFrame>)
    requires ring != []
    ensures popped + [ring[0]] + ring[1..] == popped + ring
  {
  }

  lemma CallbackInOrder(m: Manager, data: seq<byte>, t: u64, policy: Policy)
    requires Inv(m) && m.waiting.None?
    ensures InOrder(Captured(m, data, t, policy))
  {
    var f := SensorFrame(data, m.captured, t);
    PushInOrder(m.popped, m.ring, f);
    if Full(m) {
      OverwriteInOrder(m.popped, m.ring, m.captured);
      PushInOrder(m.popped, m.ring[1..], f);
    }
  }

  lemma CallbackKeeps(m: Manager, data: seq<byte>, t: u64, policy: Policy)
    requires Inv(m) && m.waiting.None?
    ensures Inv(Captured(m, data, t, policy))
  {
    CallbackInOrder(m, data, t, policy);
  }

  lemma StepKeeps(m: Manager, a: Action)
    requires Inv(m)
    ensures Inv(Step(m, a))
  {
    match a
    case Callback(data, t, policy) => if m.waiting.None? { CallbackKeeps(m, data, t, policy); }
    case Retry => if m.waiting.Some? { PushInOrder(m.popped, m.ring, m.waiting.value); }
    case GetData => if m.ring != [] { PopInOrder(m.popped, m.ring); }
  }

  lemma {:induction false} RunKeeps(capacity: nat, publishStale: bool, actions: seq<Action>)
    requires capacity > 0
    ensures Inv(Exec(Init(capacity, publishStale), actions))
    decreases |actions|
  {
    if actions != [] {
      var before := actions[..|actions| - 1];
      RunKeeps(capacity, publishStale, before);
      StepKeeps(Exec(Init(capacity, publishStale), before), actions[|actions| - 1]);
    }
  }

  /** Under every policy the counters add up, and what is taken out is strictly increasing in sequence. */
  lemma CountersAddUp(capacity: nat, publishStale: bool, actions: seq<Action>)
    requires capacity > 0
    ensures var m := Exec(Init(capacity, publishStale), actions);
            && m.captured == m.enqueued + m.dropped + One(m.waiting)
            && m.enqueued == |m.popped| + |m.ring| + m.overwritten
            && forall i, j :: 0 <= i < j < |m.popped| ==> m.popped[i].sequence < m.popped[j].sequence
  {
    RunKeeps(capacity, publishStale, actions);
    var m := Exec(Init(capacity, publishStale), actions);
    assert forall i :: 0 <= i < |m.popped| ==> (m.popped + m.ring)[i] == m.popped[i];
  }

  // ---- what comes out is what came in --------------------------------------------------------------

  /** The messages, with their times, of the callbacks that were not refused because one was waiting. */
  function CameIn(m: Manager, actions: seq<Action>): seq<(seq<byte>, u64)>
    decreases |actions|
  {
    if actions == [] then []
    else
      var before, a := actions[..|actions| - 1], actions[|actions| - 1];
      CameIn(m, before)
      + if a.Callback? && Exec(m, before).waiting.None? then [(a.data, a.timestampNs)] else []
  }

  /** The frame is the message its sequence number stands for, whole. */
  ghost predicate IsMessage(f: SensorFrame, messages: seq<(seq<byte>, u64)>) {
    f.sequence < |messages| && (f.data, f.timestampNs) == messages[f.sequence]
  }

  ghost predicate AreMessages(m: Manager, messages: seq<(seq<byte>, u64)>) {
    && m.captured == |messages|
    && (forall i :: 0 <= i < |m.popped| ==> IsMessage(m.popped[i], messages))
    && (forall i :: 0 <= i < |m.ring| ==> IsMessage(m.ring[i], messages))
    && (m.waiting.Some? ==> IsMessage(m.waiting.value, messages))
  }

  lemma MoreMessages(m: Manager, messages: seq<(seq<byte>, u64)>, data: seq<byte>, t: u64, policy: Policy)
    requires AreMessages(m, messages) && m.waiting.None?
    ensures AreMessages(Captured(m, data, t, policy), messages + [(data, t)])
  {
    assert IsMessage(SensorFrame(data, m.captured, t), messages + [(data, t)]);
    assert forall i :: 0 <= i < |m.popped| ==> IsMessage(m.popped[i], messages + [(data, t)]);
    assert forall i :: 0 <= i < |m.ring| ==> IsMessage(m.ring[i], messages + [(data, t)]);
  }

  lemma {:induction false} RunOfMessages(capacity: nat, publishStale: bool, actions: seq<Action>)
    ensures var init := Init(capacity, publishStale); AreMessages(Exec(init, actions), CameIn(init, actions))
    decreases |actions|
  {
    if actions != [] {
      var init, before, a := Init(capacity, publishStale), actions[..|actions| - 1], actions[|actions| - 1];
      RunOfMessages(capacity, publishStale, before);
      var m := Exec(init, before);
      if a.Callback? && m.waiting.None? { MoreMessages(m, CameIn(init, before), a.data, a.timestampNs, a.policy); }
    }
  }

  /**
   * Every frame that was taken out, is queued or waits is one of the messages that came in, unchanged: the one its
   * sequence number stands for. What get_data shows is the last one taken out.
   */
  lemma MessagesUnchanged(capacity: nat, publishStale: bool, actions: seq<Action>)
    requires capacity > 0
    ensures var init := Init(capacity, publishStale);
            var m, messages := Exec(init, actions), CameIn(init, actions);
            && m.captured == |messages|
            && (forall f :: f in m.popped + m.ring ==>
                  f.sequence < |messages| && (f.data, f.timestampNs) == messages[f.sequence])
            && (m.waiting.Some? ==>
                  var f := m.waiting.value;
                  f.sequence < |messages| && (f.data, f.timestampNs) == messages[f.sequence])
            && (if m.popped == [] then m.current.data == [] else m.current == m.popped[|m.popped| - 1])
  {
    RunKeeps(capacity, publishStale, actions);
    RunOfMessages(capacity, publishStale, actions);
    NothingTakenOut(capacity, publishStale, actions);
  }

  lemma {:induction false} NothingTakenOut(capacity: nat, publishStale: bool, actions: seq<Action>)
    ensures var m := Exec(Init(capacity, publishStale), actions); m.popped == [] ==> m.current.data == []
    decreases |actions|
  {
    if actions != [] { NothingTakenOut(capacity, publishStale, actions[..|actions| - 1]); }
  }

  /** What a callback does to the ring and the counters, by policy. */
  lemma CapturedExactly(m: Manager, data: seq<byte>, t: u64, policy: Policy)
    requires |m.ring| <= m.capacity && m.capacity > 0
    ensures var n, f := Captured(m, data, t, policy), SensorFrame(data, m.captured, t);
            && n.received && !n.stale && n.captured == m.captured + 1 && n.current == m.current && n.popped == m.popped
            && (|m.ring| < m.capacity ==>
                  && n.ring == m.ring + [f] && n.enqueued == m.enqueued + 1 && n.overwritten == m.overwritten
                  && n.dropped == m.dropped && n.waiting == m.waiting)
            && (|m.ring| == m.capacity && policy == OverwriteOldest ==>
                  && n.ring == m.ring[1..] + [f] && n.enqueued == m.enqueued + 1 && n.overwritten == m.overwritten + 1
                  && n.dropped == m.dropped && n.waiting == m.waiting)
            && (|m.ring| == m.capacity && (policy == DropNewest || policy == BatchAccumulate) ==>
                  && n.ring == m.ring && n.enqueued == m.enqueued && n.overwritten == m.overwritten
                  && n.dropped == m.dropped + 1 && n.waiting == m.waiting)
            && (|m.ring| == m.capacity && policy == NeverDropBlock ==>
                  && n.ring == m.ring && n.enqueued == m.enqueued && n.overwritten == m.overwritten
                  && n.dropped == m.dropped && n.waiting == Some(f))
  {
  }

  // ---- overwriting -----------------------------------------------------------------------------

  /** The ring holds the newest captures, without a gap. */
  ghost predicate NewestRun(m: Manager) {
    m.waiting.None? && forall i :: 0 <= i < |m.ring| ==> m.ring[i].sequence == m.captured - |m.ring| + i
  }

  predicate Overwrites(a: Action) { a.Callback? ==> a.policy == OverwriteOldest }

  /** Under overwriting the ring holds a contiguous run that ends at the newest capture, and nothing is dropped. */
  lemma {:induction false} OverwriteKeepsNewest(capacity: nat, publishStale: bool, actions: seq<Action>)
    requires capacity > 0 && forall i :: 0 <= i < |actions| ==> Overwrites(actions[i])
    ensures var m := Exec(Init(capacity, publishStale), actions);
            NewestRun(m) && m.dropped == 0 && (m.ring != [] ==> m.ring[|m.ring| - 1].sequence + 1 == m.captured)
    decreases |actions|
  {
    if actions != [] {
      var before := actions[..|actions| - 1];
      OverwriteKeepsNewest(capacity, publishStale, before);
      assert Overwrites(actions[|actions| - 1]);
      RunKeeps(capacity, publishStale, before);
    }
  }

  // ---- has_data and get_data ---------------------------------------------------------------------

  predicate NonEmpty(a: Action) { a.Callback? ==> a.data != [] }

  ghost predicate AllNonEmpty(m: Manager) {
    && (forall i :: 0 <= i < |m.ring| ==> m.ring[i].data != [])
    && (forall i :: 0 <= i < |m.popped| ==> m.popped[i].data != [])
    && (m.waiting.Some? ==> m.waiting.value.data != [])
  }

  lemma {:induction false} RunNonEmpty(capacity: nat, publishStale: bool, actions: seq<Action>)
    requires forall i :: 0 <= i < |actions| ==> NonEmpty(actions[i])
    ensures AllNonEmpty(Exec(Init(capacity, publishStale), actions))
    decreases |actions|
  {
    if actions != [] {
      RunNonEmpty(capacity, publishStale, actions[..|actions| - 1]);
      assert NonEmpty(actions[|actions| - 1]);
    }
  }

  /** Callbacks take nothing away from the consumer. */
  lemma {:induction false} HasDataStays(m: Manager, actions: seq<Action>)
    requires m.capacity > 0 && DataQueued(m) && forall i :: 0 <= i < |actions| ==> !actions[i].GetData?
    ensures DataQueued(Exec(m, actions)) && Exec(m, actions).capacity == m.capacity
    decreases |actions|
  {
    if actions != [] {
      HasDataStays(m, actions[..|actions| - 1]);
      assert !actions[|actions| - 1].GetData?;
    }
  }

  /**
   * If no message is empty, then whenever has_data holds the next get_data, whatever callbacks come between, hands
   * out a frame with data in it.
   */
  lemma HasDataMeansValid(capacity: nat, publishStale: bool, before: seq<Action>, between: seq<Action>)
    requires capacity > 0
    requires forall i :: 0 <= i < |before| ==> NonEmpty(before[i])
    requires forall i :: 0 <= i < |between| ==> NonEmpty(between[i]) && !between[i].GetData?
    ensures var m := Exec(Init(capacity, publishStale), before);
            var n := Exec(m, between);
            DataQueued(m) ==> DataValid(n) && Taken(n).current.data != []
  {
    var init := Init(capacity, publishStale);
    var m := Exec(init, before);
    if DataQueued(m) {
      RunCapacity(init, before);
      HasDataStays(m, between);
      ExecAppend(init, before, between);
      RunKeeps(capacity, publishStale, before + between);
      RunNonEmpty(capacity, publishStale, before + between);
    }
  }

  lemma {:induction false} RunCapacity(m: Manager, actions: seq<Action>)
    ensures Exec(m, actions).capacity == m.capacity && Exec(m, actions).publishStale == m.publishStale
    decreases |actions|
  {
    if actions != [] { RunCapacity(m, actions[..|actions| - 1]); }
  }

  lemma {:induction false} ExecAppend(m: Manager, a: seq<Action>, b: seq<Action>)
    ensures Exec(m, a + b) == Exec(Exec(m, a), b)
    decreases |b|
  {
    if b == [] {
      assert a + b == a;
    } else {
      ExecAppend(m, a, b[..|b| - 1]);
      assert (a + b)[..|a + b| - 1] == a + b[..|b| - 1];
    }
  }

  lemma ExecOne(m: Manager, a: Action)
    ensures Exec(m, [a]) == Step(m, a)
  {
    assert [a][..0] == [];
  }

  /** An empty message is handed out as valid, under every policy: has_data holds and there is no data. */
  lemma EmptyMessageHandedOut(capacity: nat, publishStale: bool, t: u64, policy: Policy)
    requires capacity > 0
    ensures var m := Exec(Init(capacity, publishStale), [Callback([], t, policy)]);
            DataQueued(m) && DataValid(m) && Taken(m).current.data == []
  {
    ExecOne(Init(capacity, publishStale), Callback([], t, policy));
  }

  /** If stale data is published, an empty message that has been taken out makes has_data hold and get_data fail. */
  lemma EmptyMessageRefused(capacity: nat, t: u64, policy: Policy)
    requires capacity > 0
    ensures var m := Exec(Init(capacity, true), [Callback([], t, policy), GetData]);
            DataQueued(m) && !DataValid(m)
  {
    var init, c := Init(capacity, true), Callback([], t, policy);
    ExecAppend(init, [c], [GetData]);
    assert [c] + [GetData] == [c, GetData];
    ExecOne(init, c);
    ExecOne(Step(init, c), GetData);
  }

  /** Which messages come in. */
  type Kind = seq<byte> -> bool

  ghost predicate Brings(kind: Kind, actions: seq<Action>) {
    forall i :: 0 <= i < |actions| && actions[i].Callback? ==> kind(actions[i].data)
  }

  ghost predicate OnlyCallbacks(actions: seq<Action>) { forall i :: 0 <= i < |actions| ==> !actions[i].GetData? }

  /** In all runs on such messages, has_data means that the next get_data hands out data. */
  ghost predicate HasDataIsKept(capacity: nat, publishStale: bool, kind: Kind) {
    forall before: seq<Action>, between: seq<Action>
      {:trigger Exec(Exec(Init(capacity, publishStale), before), between)} ::
      Brings(kind, before) && Brings(kind, between) && OnlyCallbacks(between) ==>
        var m := Exec(Init(capacity, publishStale), before);
        var n := Exec(m, between);
        DataQueued(m) ==> DataValid(n) && Taken(n).current.data != []
  }

  /** That is so exactly for the kinds of messages that leave out the empty one. */
  lemma HasDataExactly(capacity: nat, publishStale: bool, kind: Kind)
    requires capacity > 0
    ensures HasDataIsKept(capacity, publishStale, kind) <==> !kind([])
  {
    var init := Init(capacity, publishStale);
    if kind([]) {
      EmptyMessageHandedOut(capacity, publishStale, 0, DropNewest);
      var before := [Callback([], 0, DropNewest)];
      assert Brings(kind, before) && Brings(kind, []) && OnlyCallbacks([]);
      assert Exec(Exec(init, before), []) == Exec(init, before);
    } else {
      forall before: seq<Action>, between: seq<Action>
        | Brings(kind, before) && Brings(kind, between) && OnlyCallbacks(between)
        ensures var m := Exec(init, before);
                var n := Exec(m, between);
                DataQueued(m) ==> DataValid(n) && Taken(n).current.data != []
      {
        HasDataMeansValid(capacity, publishStale, before, between);
      }
    }
  }

  // ---- staleness ---------------------------------------------------------------------------------

  ghost predicate Under(policies: set<Policy>, actions: seq<Action>) {
    forall i :: 0 <= i < |actions| && actions[i].Callback? ==> actions[i].policy in policies
  }

  lemma StaleStep(m: Manager, a: Action)
    requires Accounted(m) && (!m.stale ==> m.ring != [])
    ensures var t := Step(m, a);
            && (!t.stale ==> t.ring != [])
            && (m.waiting.None? && (m.stale <==> m.ring == []) && !(a.Callback? && a.policy == NeverDropBlock) ==>
                  t.waiting.None? && (t.stale <==> t.ring == []))
  {
  }

  /** Data that is not stale is queued; and without the blocking policy nothing queued is called stale. */
  lemma {:induction false} StaleMeansEmpty(capacity: nat, publishStale: bool, policies: set<Policy>,
                                           actions: seq<Action>)
    requires capacity > 0 && Under(policies, actions)
    ensures var m := Exec(Init(capacity, publishStale), actions);
            && (!m.stale ==> m.ring != [])
            && (NeverDropBlock !in policies ==> m.waiting.None? && (m.stale <==> m.ring == []))
    decreases |actions|
  {
    if actions != [] {
      var before := actions[..|actions| - 1];
      StaleMeansEmpty(capacity, publishStale, policies, before);
      RunKeeps(capacity, publishStale, before);
      StaleStep(Exec(Init(capacity, publishStale), before), actions[|actions| - 1]);
    }
  }

  function Times(n: nat, a: Action): (s: seq<Action>)
    ensures |s| == n && forall i :: 0 <= i < n ==> s[i] == a
  {
    seq(n, _ => a)
  }

  lemma OnceMore(m: Manager, n: nat, a: Action)
    requires n > 0
    ensures Exec(m, Times(n, a)) == Step(Exec(m, Times(n - 1, a)), a)
  {
    assert Times(n, a)[..n - 1] == Times(n - 1, a);
  }

  /** Blocking callbacks fill the ring, and one more waits. */
  lemma {:induction false} Filled(capacity: nat, publishStale: bool, c: Action, n: nat)
    requires c.Callback? && c.policy == NeverDropBlock && capacity > 0 && n <= capacity + 1
    ensures var m := Exec(Init(capacity, publishStale), Times(n, c));
            && m.capacity == capacity && (n > 0 ==> m.received)
            && |m.ring| == (if n <= capacity then n else capacity) && (m.waiting.Some? <==> n > capacity)
    decreases n
  {
    if n > 0 {
      Filled(capacity, publishStale, c, n - 1);
      OnceMore(Init(capacity, publishStale), n, c);
    }
  }

  /** Taking out all that is queued leaves the ring empty, the flag set and the blocked frame waiting. */
  lemma {:induction false} Drained(m: Manager, n: nat)
    requires m.received && n <= |m.ring|
    ensures var t := Exec(m, Times(n, GetData));
            && t.received && t.waiting == m.waiting && t.capacity == m.capacity && |t.ring| == |m.ring| - n
            && (0 < n == |m.ring| ==> t.stale)
    decreases n
  {
    if n > 0 {
      Drained(m, n - 1);
      OnceMore(m, n, GetData);
    }
  }

  /** Fill the ring and block, drain it, let the blocked callback in. */
  function DrainedWhileBlocked(capacity: nat, c: Action): seq<Action> {
    Times(capacity + 1, c) + Times(capacity, GetData) + [Retry]
  }

  /** On a ring of any size, a frame that was blocked until the ring had been drained is queued but called stale. */
  lemma BlockedFrameLooksStale(capacity: nat, publishStale: bool, c: Action)
    requires capacity > 0 && c.Callback? && c.policy == NeverDropBlock
    ensures var m := Exec(Init(capacity, publishStale), DrainedWhileBlocked(capacity, c)); m.stale && |m.ring| == 1
  {
    var init := Init(capacity, publishStale);
    var full := Exec(init, Times(capacity + 1, c));
    Filled(capacity, publishStale, c, capacity + 1);
    Drained(full, capacity);
    ExecAppend(init, Times(capacity + 1, c), Times(capacity, GetData));
    ExecAppend(init, Times(capacity + 1, c) + Times(capacity, GetData), [Retry]);
    ExecOne(Exec(full, Times(capacity, GetData)), Retry);
  }

  /** In all runs under these policies, stale means that nothing is queued. */
  ghost predicate StaleIsEmpty(capacity: nat, publishStale: bool, policies: set<Policy>) {
    forall actions: seq<Action> :: Under(policies, actions) ==>
      var m := Exec(Init(capacity, publishStale), actions); m.stale <==> m.ring == []
  }

  /** That is so, on a ring of any size, exactly if the blocking policy is not among them. */
  lemma StaleExactly(capacity: nat, publishStale: bool, policies: set<Policy>)
    requires capacity > 0
    ensures StaleIsEmpty(capacity, publishStale, policies) <==> NeverDropBlock !in policies
  {
    if NeverDropBlock in policies {
      var c := Callback([], 0, NeverDropBlock);
      BlockedFrameLooksStale(capacity, publishStale, c);
      assert Under(policies, DrainedWhileBlocked(capacity, c));
    } else {
      forall actions: seq<Action> | Under(policies, actions)
        ensures var m := Exec(Init(capacity, publishStale), actions); m.stale <==> m.ring == []
      {
        StaleMeansEmpty(capacity, publishStale, policies, actions);
      }
    }
  }

  // ---- the class ---------------------------------------------------------------------------------

  /** One attempt to push under a policy; the blocking policy's loop is the retries that follow. */
  method ApplyPolicy(ring: SpscRing<SensorFrame>, item: SensorFrame, policy: Policy) returns (result: PushResult)
    requires ring.Valid()
    modifies ring, ring.buffer
    ensures ring.Valid()
    ensures var before, full := old(ring.Contents()), |old(ring.Contents())| == ring.Capacity();
            && (!full ==> result == Enqueued && ring.Contents() == before + [item])
            && (full && policy == OverwriteOldest ==> result == Overwrote && ring.Contents() == before[1..] + [item])
            && (full && (policy == DropNewest || policy == BatchAccumulate) ==>
                  result == DroppedNewest && ring.Contents() == before)
            && (full && policy == NeverDropBlock ==> result == Waiting && ring.Contents() == before)
  {
    var ok := ring.TryPush(item);
    if ok {
      return Enqueued;
    }
    match policy
    case OverwriteOldest =>
      ok := ring.ForcePushOverwrite(item);
      result := Overwrote;
    case DropNewest =>
      result := DroppedNewest;
    case BatchAccumulate =>
      result := DroppedNewest;
    case NeverDropBlock =>
      result := Waiting;
  }

  class SubscriptionManager {
    const publishStaleData: bool
    const ring: SpscRing<SensorFrame>
    var policy: Policy
    var receivedMsg: bool
    var isStale: bool
    var currentFrame: SensorFrame
    var captureSequence: nat
    var enqueuedCount: nat
    var droppedCount: nat
    var overwrittenCount: nat
    /** The frame of a callback that is blocked on a full ring. */
    var waiting: Option<SensorFrame>
    ghost var popped: seq<SensorFrame>

    ghost predicate Valid()
      reads this, ring
    {
      ring.Valid()
    }

    ghost function State(): Manager
      requires Valid()
      reads this, ring, ring.buffer
    {
      Manager(ring.Capacity(), ring.Contents(), waiting, receivedMsg, isStale, publishStaleData, currentFrame,
              captureSequence, enqueuedCount, droppedCount, overwrittenCount, popped)
    }

    constructor (publishStaleData: bool, exponent: nat)
      requires 1 <= exponent <= 64
      ensures Valid() && fresh(ring) && fresh(ring.buffer) && policy == DropNewest
      ensures State() == Init(ring.Capacity(), publishStaleData)
    {
      var blank := SensorFrame([], 0, 0);
      var r := new SpscRing<SensorFrame>(exponent, blank);
      this.publishStaleData := publishStaleData;
      ring := r;
      policy := DropNewest;
      receivedMsg, isStale, currentFrame := false, true, blank;
      captureSequence, enqueuedCount, droppedCount, overwrittenCount := 0, 0, 0, 0;
      waiting := None;
      popped := [];
    }

    method SetSensorType(t: SensorType)
      modifies this`policy
      ensures policy == DefaultPolicyFor(t)
      ensures policy == if t == Camera then OverwriteOldest else if t == Imu then BatchAccumulate
                        else if t == Can then NeverDropBlock else DropNewest
    {
      policy := DefaultPolicyFor(t);
    }

    /** Make a message the next frame. */
    method Capture(message: seq<byte>, now: u64) returns (frame: SensorFrame)
      requires Valid()
      modifies this`receivedMsg, this`isStale, this`captureSequence
      ensures Valid() && frame == SensorFrame(message, old(captureSequence), now)
      ensures State() == old(State()).(received := true, stale := false, captured := old(captureSequence) + 1)
    {
      receivedMsg := true;
      isStale := false;
      frame := SensorFrame(message, captureSequence, now);
      captureSequence := captureSequence + 1;
    }

    /** Capture a message and push it under the policy. */
    method Callback(message: seq<byte>, now: u64)
      requires Valid() && waiting.None?
      modifies this, ring, ring.buffer
      ensures Valid() && policy == old(policy)
      ensures State() == Captured(old(State()), message, now, policy)
    {
      var frame := Capture(message, now);
      Push(frame);
    }

    /** Push under the policy and count the outcome. */
    method Push(frame: SensorFrame)
      requires Valid() && waiting.None?
      modifies this`enqueuedCount, this`droppedCount, this`overwrittenCount, this`waiting, ring, ring.buffer
      ensures Valid() && State() == Applied(old(State()), frame, policy)
    {
      var result := ApplyPolicy(ring, frame, policy);
      if result == Enqueued || result == BlockedThenEnqueued {
        enqueuedCount := enqueuedCount + 1;
      } else if result == Overwrote {
        overwrittenCount := overwrittenCount + 1;
        enqueuedCount := enqueuedCount + 1;
      } else if result == DroppedNewest {
        droppedCount := droppedCount + 1;
      } else {
        waiting := Some(frame);
      }
    }

    /** One more attempt of a blocked callback. */
    method RetryBlocked() returns (result: PushResult)
      requires Valid() && waiting.Some?
      modifies this, ring, ring.buffer
      ensures Valid() && policy == old(policy)
      ensures State() == Retried(old(State()))
      ensures result == if waiting.None? then BlockedThenEnqueued else Waiting
      ensures |old(ring.Contents())| < ring.Capacity() ==>
                waiting.None? && ring.Contents() == old(ring.Contents()) + [old(waiting).value]
      ensures |old(ring.Contents())| == ring.Capacity() ==>
                waiting == old(waiting) && ring.Contents() == old(ring.Contents())
    {
      var ok := ring.TryPush(waiting.value);
      if !ok {
        return Waiting;
      }
      waiting := None;
      enqueuedCount := enqueuedCount + 1;
      return BlockedThenEnqueued;
    }

    method HasData() returns (has: bool)
      requires Valid()
      ensures has <==> DataQueued(State())
      ensures has <==> receivedMsg && (ring.Contents() != [] || publishStaleData)
    {
      if !receivedMsg {
        return false;
      }
      var empty := ring.EmptyApprox();
      if !empty {
        return true;
      }
      return publishStaleData;
    }

    /** Take the next queued frame out, if there is one, and say whether it was the last. */
    method PopQueued() returns (out: Option<SensorFrame>, last: bool)
      requires Valid()
      modifies ring`tail
      ensures Valid()
      ensures old(ring.Contents()) == [] ==> out.None? && ring.Contents() == []
      ensures old(ring.Contents()) != [] ==>
                && out == Some(old(ring.Contents())[0]) && ring.Contents() == old(ring.Contents())[1..]
                && (last <==> |old(ring.Contents())| == 1)
    {
      out := ring.TryPop();
      last := ring.EmptyApprox();
    }

    /** Make a frame taken from the ring the current one. */
    method Deliver(frame: SensorFrame, last: bool)
      requires Valid()
      modifies this`currentFrame, this`isStale, this`popped
      ensures Valid()
      ensures State() == old(State()).(current := frame, stale := last, popped := old(popped) + [frame])
    {
      currentFrame := frame;
      popped := popped + [frame];
      isStale := last;
    }

    method TakeQueued() returns (taken: bool)
      requires Valid() && receivedMsg
      modifies this`currentFrame, this`isStale, this`popped, ring`tail
      ensures Valid() && (taken <==> old(ring.Contents()) != [])
      ensures State() == if taken then Taken(old(State())) else old(State())
    {
      var out, last := PopQueued();
      taken := out.Some?;
      if taken {
        Deliver(out.value, last);
      }
    }

    /** The next queued frame, or the last one again if stale data is published. */
    method GetData() returns (data: seq<byte>, valid: bool)
      requires Valid()
      modifies this, ring
      ensures Valid() && policy == old(policy)
      ensures State() == Taken(old(State()))
      ensures (valid <==> DataValid(old(State()))) && data == State().current.data
      ensures old(receivedMsg) && old(ring.Contents()) != [] ==>
                && valid && data == old(ring.Contents())[0].data && currentFrame == old(ring.Contents())[0]
                && ring.Contents() == old(ring.Contents())[1..] && (isStale <==> |old(ring.Contents())| == 1)
      ensures !old(receivedMsg) || old(ring.Contents()) == [] ==>
                && data == old(currentFrame).data && ring.Contents() == old(ring.Contents())
                && (valid <==> old(receivedMsg) && publishStaleData && data != [])
    {
      if !receivedMsg {
        return currentFrame.data, false;
      }
      var taken := TakeQueued();
      if taken {
        return currentFrame.data, true;
      }
      if publishStaleData && currentFrame.data != [] {
        return currentFrame.data, true;
      }
      isStale := true;
      return currentFrame.data, false;
    }
  }
}

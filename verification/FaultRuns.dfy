/** What holds over every run of the fault engine: conservation, untampered payloads and the order of releases. */
module FaultRuns {
  import opened Bytes
  import opened FaultTypes
  import opened FaultPipeline

  // ---- conservation ----------------------------------------------------------------------------

  function Held(f: Option<Frame>): nat { if f.Some? then 1 else 0 }

  /** Frames a call to process still has to dispatch, other than copies. */
  function Undispatched(pending: seq<Send>): (n: nat)
    ensures n == |PendingIds(pending)|
    decreases |pending|
  {
    if pending == [] then 0 else Undispatched(pending[1..]) + if pending[0].kind == Copy then 0 else 1
  }

  lemma AccountIsEqual(e: Engine)
    requires Accounted(e)
    ensures Numbers(|e.ledger.inputs|) + e.ledger.copies == Ids(e.ledger.written) + e.ledger.lost + Inside(e)
  {
    var given, gone := Numbers(|e.ledger.inputs|) + e.ledger.copies, Ids(e.ledger.written) + e.ledger.lost + Inside(e);
    forall n: nat ensures given[n] == gone[n] { }
    assert given == gone;
  }

  lemma InsideCount(e: Engine)
    ensures |Inside(e)| == |e.queue| + Held(e.worker) + Held(e.flusher) + Held(e.held) + Undispatched(e.pending)
  {
  }

  /**
   * In every run, input by input: what came in and what was copied is what has been written, what has been dropped and
   * what is still inside; and so the counters add up.
   */
  lemma Conservation(rules: seq<FaultRule>, clock: real, actions: seq<Action>)
    ensures var e := Exec(rules, Fresh(clock), actions);
            && Numbers(|e.ledger.inputs|) + e.ledger.copies == Ids(e.ledger.written) + e.ledger.lost + Inside(e)
            && |e.ledger.inputs| + e.stats.duplicated
               == e.stats.forwarded + e.stats.dropped + |e.queue| + Held(e.worker) + Held(e.flusher) + Held(e.held)
                  + Undispatched(e.pending)
            && e.stats.forwarded == |e.ledger.written|
  {
    RunConserves(rules, clock, actions);
    var e := Exec(rules, Fresh(clock), actions);
    AccountIsEqual(e);
    InsideCount(e);
    assert |Ids(e.ledger.written) + e.ledger.lost + Inside(e)|
        == |Ids(e.ledger.written)| + |e.ledger.lost| + |Inside(e)|;
  }

  // ---- payloads --------------------------------------------------------------------------------

  predicate MayCorrupt(rules: seq<FaultRule>) { HasKind(rules, Corrupt) }

  /** A frame comes from an input: of the same length, and the same payload unless some rule corrupts. */
  ghost predicate Genuine(corrupting: bool, inputs: seq<Payload>, f: Frame) {
    f.id < |inputs| && |f.payload| == |inputs[f.id]| && (!corrupting ==> f.payload == inputs[f.id])
  }

  ghost predicate AllGenuine(corrupting: bool, e: Engine) {
    var inputs := e.ledger.inputs;
    && (e.held.Some? ==> Genuine(corrupting, inputs, e.held.value))
    && (e.worker.Some? ==> Genuine(corrupting, inputs, e.worker.value))
    && (e.flusher.Some? ==> Genuine(corrupting, inputs, e.flusher.value))
    && (forall i :: 0 <= i < |e.pending| ==> Genuine(corrupting, inputs, e.pending[i].frame))
    && (forall i :: 0 <= i < |e.queue| ==> Genuine(corrupting, inputs, e.queue[i].frame))
    && (forall i :: 0 <= i < |e.ledger.written| ==> Genuine(corrupting, inputs, e.ledger.written[i]))
  }

  lemma {:induction false} ActiveAreRules(rules: seq<FaultRule>, k: nat, stream: string, t: real)
    requires k <= |rules| && !MayCorrupt(rules)
    ensures !HasKind(Active(rules, k, stream, t), Corrupt)
    decreases k
  {
    if k > 0 {
      ActiveAreRules(rules, k - 1, stream, t);
      var before, r := Active(rules, k - 1, stream, t), rules[k - 1];
      assert r.kind != Corrupt;
      forall i | 0 <= i < |before + [r]| ensures (before + [r])[i].kind != Corrupt {
        if i < |before| { assert before[i].kind != Corrupt; }
      }
    }
  }

  lemma TakeInGenuine(corrupting: bool, e: Engine, front: Front, data: Payload, lost: bool)
    requires AllGenuine(corrupting, e)
    ensures AllGenuine(corrupting, TakeIn(e.(front := front), data, lost))
  {
  }

  lemma OrderedGenuine(corrupting: bool, e: Engine, active: seq<FaultRule>, f: Frame)
    requires AllGenuine(corrupting, e) && Genuine(corrupting, e.ledger.inputs, f)
    ensures AllGenuine(corrupting, Ordered(e, active, f))
  {
  }

  lemma BeginGenuine(rules: seq<FaultRule>, e: Engine, c: Call)
    requires AllGenuine(MayCorrupt(rules), e)
    ensures AllGenuine(MayCorrupt(rules), Begin(e, rules, c))
  {
    var corrupting, active := MayCorrupt(rules), Active(rules, |rules|, c.stream, c.t);
    if !corrupting { ActiveAreRules(rules, |rules|, c.stream, c.t); }
    var f := Frame(|e.ledger.inputs|, Corrupted(active, |active|, c.data, c.draws));
    var n := if c.data == [] then 0 else CountKind(active, |active|, Corrupt);
    GoOnGenuine(corrupting, e, active, Pass(e.front, active, c), c.data, n, f);
  }

  lemma GoOnGenuine(corrupting: bool, e: Engine, active: seq<FaultRule>, p: Passed, data: Payload, n: nat, f: Frame)
    requires AllGenuine(corrupting, e) && Genuine(corrupting, e.ledger.inputs + [data], f)
    ensures AllGenuine(corrupting, GoOn(e, active, p, data, n, f))
  {
    TakeInGenuine(corrupting, e, p.front, data, !p.passed);
    if p.passed {
      assert AllGenuine(corrupting, Survived(e, p.front, data, n));
      OrderedGenuine(corrupting, Survived(e, p.front, data, n), active, f);
    }
  }

  lemma UnpendedGenuine(corrupting: bool, e: Engine)
    requires AllGenuine(corrupting, e) && e.pending != []
    ensures AllGenuine(corrupting, Unpended(e)) && Unpended(e).ledger.inputs == e.ledger.inputs
  {
  }

  lemma DispatchOrDelayGenuine(corrupting: bool, e: Engine, f: Frame, active: seq<FaultRule>, now: real)
    requires AllGenuine(corrupting, e) && Genuine(corrupting, e.ledger.inputs, f)
    ensures AllGenuine(corrupting, DispatchOrDelay(e, f, active, now))
  {
  }

  lemma DispatchedGenuine(corrupting: bool, e: Engine, now: real)
    requires AllGenuine(corrupting, e)
    ensures AllGenuine(corrupting, Dispatched(e, now))
  {
    if e.pending != [] && now >= e.clock {
      UnpendedGenuine(corrupting, e);
      DispatchOrDelayGenuine(corrupting, Unpended(e), e.pending[0].frame, e.active, now);
    }
  }

  lemma PoppedGenuine(corrupting: bool, e: Engine, k: nat, now: real)
    requires AllGenuine(corrupting, e) && k < |e.queue|
    ensures AllGenuine(corrupting, Popped(e, k, now)) && Genuine(corrupting, e.ledger.inputs, e.queue[k].frame)
  {
  }

  lemma StepGenuine(rules: seq<FaultRule>, e: Engine, a: Action)
    requires AllGenuine(MayCorrupt(rules), e)
    ensures AllGenuine(MayCorrupt(rules), Step(rules, e, a))
  {
    match a
    case Process(c) => if e.pending == [] { BeginGenuine(rules, e, c); }
    case Dispatch(now) => DispatchedGenuine(MayCorrupt(rules), e, now);
    case WorkerPop(k, now) => if IsTop(e.queue, k) { PoppedGenuine(MayCorrupt(rules), e, k, now); }
    case FlushPop(k) => if IsTop(e.queue, k) { PoppedGenuine(MayCorrupt(rules), e, k, e.clock); }
    case WorkerWrite =>
    case FlushWrite =>
  }

  /** Every payload written has its input's length, and is its input unless some rule corrupts. */
  lemma {:induction false} PayloadsKept(rules: seq<FaultRule>, clock: real, actions: seq<Action>)
    ensures AllGenuine(MayCorrupt(rules), Exec(rules, Fresh(clock), actions))
    decreases |actions|
  {
    if actions != [] {
      var before := actions[..|actions| - 1];
      PayloadsKept(rules, clock, before);
      StepGenuine(rules, Exec(rules, Fresh(clock), before), actions[|actions| - 1]);
    }
  }

  // ---- payloads are conserved --------------------------------------------------------------------

  /** The payloads of the inputs with these numbers, as often as the numbers occur. */
  function Image(m: multiset<nat>, inputs: seq<Payload>): multiset<Payload>
    decreases |inputs|
  {
    if inputs == [] then multiset{}
    else
      var n := |inputs| - 1;
      Image(m, inputs[..n]) + multiset{}[inputs[n] := m[n]]
  }

  lemma {:induction false} ImageOfSum(a: multiset<nat>, b: multiset<nat>, inputs: seq<Payload>)
    ensures Image(a + b, inputs) == Image(a, inputs) + Image(b, inputs)
    decreases |inputs|
  {
    if inputs != [] {
      var n := |inputs| - 1;
      ImageOfSum(a, b, inputs[..n]);
      SumOfUpdates(inputs[n], a[n], b[n]);
    }
  }

  lemma SumOfUpdates(p: Payload, a: nat, b: nat)
    ensures multiset{}[p := a + b] == multiset{}[p := a] + multiset{}[p := b]
  {
  }

  lemma {:induction false} ImageOfOne(id: nat, inputs: seq<Payload>)
    ensures Image(multiset{id}, inputs) == if id < |inputs| then multiset{inputs[id]} else multiset{}
    decreases |inputs|
  {
    if inputs != [] { ImageOfOne(id, inputs[..|inputs| - 1]); }
  }

  lemma {:induction false} ImageOfNone(inputs: seq<Payload>)
    ensures Image(multiset{}, inputs) == multiset{}
    decreases |inputs|
  {
    if inputs != [] { ImageOfNone(inputs[..|inputs| - 1]); }
  }

  lemma {:induction false} OnceEach(n: nat, i: nat)
    ensures Numbers(n)[i] == if i < n then 1 else 0
    decreases n
  {
    if n > 0 { OnceEach(n - 1, i); }
  }

  lemma {:induction false} ImageOfAll(n: nat, inputs: seq<Payload>)
    requires |inputs| <= n
    ensures Image(Numbers(n), inputs) == multiset(inputs)
    decreases |inputs|
  {
    if inputs != [] {
      var k := |inputs| - 1;
      ImageOfAll(n, inputs[..k]);
      OnceEach(n, k);
      assert inputs == inputs[..k] + [inputs[k]];
    }
  }

  function Payloads(frames: seq<Frame>): (m: multiset<Payload>)
    decreases |frames|
  {
    if frames == [] then multiset{}
    else Payloads(frames[..|frames| - 1]) + multiset{frames[|frames| - 1].payload}
  }

  /** Untampered frames carry the payloads of their inputs. */
  lemma {:induction false} PayloadsOfFrames(frames: seq<Frame>, inputs: seq<Payload>)
    requires forall i :: 0 <= i < |frames| ==> Genuine(false, inputs, frames[i])
    ensures Payloads(frames) == Image(Ids(frames), inputs)
    decreases |frames|
  {
    if frames == [] {
      ImageOfNone(inputs);
    } else {
      var init, last := frames[..|frames| - 1], frames[|frames| - 1];
      PayloadsOfFrames(init, inputs);
      ImageOfSum(Ids(init), multiset{last.id}, inputs);
      ImageOfOne(last.id, inputs);
    }
  }

  function PayloadOf(f: Option<Frame>): multiset<Payload> { if f.Some? then multiset{f.value.payload} else multiset{} }

  function QueuedPayloads(queue: seq<Delayed>): multiset<Payload>
    decreases |queue|
  {
    if queue == [] then multiset{}
    else QueuedPayloads(queue[..|queue| - 1]) + multiset{queue[|queue| - 1].frame.payload}
  }

  /** Copies count once they have been dispatched. */
  function PendingPayloads(pending: seq<Send>): multiset<Payload>
    decreases |pending|
  {
    if pending == [] then multiset{}
    else
      PendingPayloads(pending[1..])
      + if pending[0].kind == Copy then multiset{} else multiset{pending[0].frame.payload}
  }

  /** The payloads inside the engine. */
  function InsidePayloads(e: Engine): multiset<Payload> {
    PayloadOf(e.held) + PendingPayloads(e.pending) + QueuedPayloads(e.queue) + PayloadOf(e.worker)
    + PayloadOf(e.flusher)
  }

  lemma PayloadOfOne(f: Option<Frame>, inputs: seq<Payload>)
    requires f.Some? ==> Genuine(false, inputs, f.value)
    ensures PayloadOf(f) == Image(One(f), inputs)
  {
    if f.Some? { ImageOfOne(f.value.id, inputs); } else { ImageOfNone(inputs); }
  }

  lemma {:induction false} PayloadsQueued(queue: seq<Delayed>, inputs: seq<Payload>)
    requires forall i :: 0 <= i < |queue| ==> Genuine(false, inputs, queue[i].frame)
    ensures QueuedPayloads(queue) == Image(QueuedIds(queue), inputs)
    decreases |queue|
  {
    if queue == [] {
      ImageOfNone(inputs);
    } else {
      var init, last := queue[..|queue| - 1], queue[|queue| - 1].frame;
      PayloadsQueued(init, inputs);
      ImageOfSum(QueuedIds(init), multiset{last.id}, inputs);
      ImageOfOne(last.id, inputs);
    }
  }

  lemma {:induction false} PayloadsPending(pending: seq<Send>, inputs: seq<Payload>)
    requires forall i :: 0 <= i < |pending| ==> Genuine(false, inputs, pending[i].frame)
    ensures PendingPayloads(pending) == Image(PendingIds(pending), inputs)
    decreases |pending|
  {
    if pending == [] {
      ImageOfNone(inputs);
    } else {
      var rest, first := PendingIds(pending[1..]), pending[0];
      PayloadsPending(pending[1..], inputs);
      if first.kind == Copy {
        ImageOfSum(rest, multiset{}, inputs);
        ImageOfNone(inputs);
      } else {
        ImageOfSum(rest, multiset{first.frame.id}, inputs);
        ImageOfOne(first.frame.id, inputs);
      }
    }
  }

  lemma PayloadsInside(e: Engine)
    requires AllGenuine(false, e)
    ensures InsidePayloads(e) == Image(Inside(e), e.ledger.inputs)
  {
    var inputs := e.ledger.inputs;
    PayloadOfOne(e.held, inputs); PayloadOfOne(e.worker, inputs); PayloadOfOne(e.flusher, inputs);
    PayloadsPending(e.pending, inputs);
    PayloadsQueued(e.queue, inputs);
    FiveImages(One(e.held), PendingIds(e.pending), QueuedIds(e.queue), One(e.worker), One(e.flusher), inputs);
  }

  lemma FiveImages(a: multiset<nat>, b: multiset<nat>, c: multiset<nat>, d: multiset<nat>, e: multiset<nat>,
                   inputs: seq<Payload>)
    ensures Image(a + b + c + d + e, inputs)
            == Image(a, inputs) + Image(b, inputs) + Image(c, inputs) + Image(d, inputs) + Image(e, inputs)
  {
    ImageOfSum(a, b, inputs);
    ImageOfSum(a + b, c, inputs);
    ImageOfSum(a + b + c, d, inputs);
    ImageOfSum(a + b + c + d, e, inputs);
  }

  /**
   * In every run without corrupt rules, payload by payload: what came in and what was copied is what has been written,
   * what has been dropped and what is still inside.
   */
  lemma PayloadConservation(rules: seq<FaultRule>, clock: real, actions: seq<Action>)
    requires !MayCorrupt(rules)
    ensures var e := Exec(rules, Fresh(clock), actions);
            multiset(e.ledger.inputs) + Image(e.ledger.copies, e.ledger.inputs)
            == Payloads(e.ledger.written) + Image(e.ledger.lost, e.ledger.inputs) + InsidePayloads(e)
  {
    Conservation(rules, clock, actions);
    PayloadsKept(rules, clock, actions);
    ImageOfAccount(Exec(rules, Fresh(clock), actions));
  }

  lemma ImageOfAccount(e: Engine)
    requires Numbers(|e.ledger.inputs|) + e.ledger.copies == Ids(e.ledger.written) + e.ledger.lost + Inside(e)
    requires AllGenuine(false, e)
    ensures multiset(e.ledger.inputs) + Image(e.ledger.copies, e.ledger.inputs)
            == Payloads(e.ledger.written) + Image(e.ledger.lost, e.ledger.inputs) + InsidePayloads(e)
  {
    var inputs := e.ledger.inputs;
    ImageOfAll(|inputs|, inputs);
    ImageOfSum(Numbers(|inputs|), e.ledger.copies, inputs);
    PayloadsOfFrames(e.ledger.written, inputs);
    PayloadsInside(e);
    ImageOfSum(Ids(e.ledger.written), e.ledger.lost, inputs);
    ImageOfSum(Ids(e.ledger.written) + e.ledger.lost, Inside(e), inputs);
  }

  // ---- release order ---------------------------------------------------------------------------

  ghost predicate InDueOrder(releases: seq<Release>) {
    forall i, j :: 0 <= i <= j < |releases| ==> releases[i].due <= releases[j].due
  }

  /** Releases so far are in due order, and nothing queued is due before any of them. */
  ghost predicate Sorted(e: Engine) {
    && InDueOrder(e.ledger.releases)
    && forall i, d :: 0 <= i < |e.ledger.releases| && 0 <= d < |e.queue| ==> e.ledger.releases[i].due <= e.queue[d].due
  }

  /** No release has come before its time, and the clock has passed them all. */
  ghost predicate Timely(e: Engine) {
    forall i :: 0 <= i < |e.ledger.releases| ==>
      e.ledger.releases[i].due <= e.ledger.releases[i].at && e.ledger.releases[i].due <= e.clock
  }

  lemma PoppedSorted(e: Engine, k: nat, now: real)
    requires Sorted(e) && IsTop(e.queue, k)
    ensures Sorted(Popped(e, k, now))
  {
    var p := Popped(e, k, now);
    forall d | 0 <= d < |p.queue| ensures e.queue[k].due <= p.queue[d].due {
      assert p.queue[d] == if d < k then e.queue[d] else e.queue[d + 1];
    }
    forall i, d | 0 <= i < |p.ledger.releases| && 0 <= d < |p.queue|
      ensures p.ledger.releases[i].due <= p.queue[d].due
    {
      assert p.queue[d] == if d < k then e.queue[d] else e.queue[d + 1];
    }
  }

  lemma WorkerPoppedOrder(e: Engine, k: nat, now: real)
    requires Sorted(e)
    ensures Sorted(WorkerPopped(e, k, now)) && (Timely(e) ==> Timely(WorkerPopped(e, k, now)))
  {
    if IsTop(e.queue, k) { PoppedSorted(e, k, now); }
  }

  /** A new entry is due after everything released, if that was in time. */
  lemma DispatchTimely(e: Engine, now: real)
    requires Sorted(e) && Timely(e)
    ensures Sorted(Dispatched(e, now)) && Timely(Dispatched(e, now))
  {
    if e.pending != [] && now >= e.clock && DelayMs(e.active, |e.active|) > 0.0 {
      var t := Unpended(e);
      assert t.queue == e.queue && t.ledger.releases == e.ledger.releases && t.clock == e.clock;
      assert DelayMs(e.active, |e.active|) * MILLISECOND > 0.0;
    }
  }

  lemma ProcessOrder(rules: seq<FaultRule>, e: Engine, c: Call)
    ensures var t := Begin(e, rules, c);
            t.queue == e.queue && t.ledger.releases == e.ledger.releases && t.clock == e.clock
  {
  }

  /** Without a flush nothing is released before its time, and releases stay in order. */
  lemma StepTimely(rules: seq<FaultRule>, e: Engine, a: Action)
    requires Sorted(e) && Timely(e) && !a.FlushPop?
    ensures Sorted(Step(rules, e, a)) && Timely(Step(rules, e, a))
  {
    match a
    case Process(c) => if e.pending == [] { ProcessOrder(rules, e, c); }
    case Dispatch(now) => DispatchTimely(e, now);
    case WorkerPop(k, now) => WorkerPoppedOrder(e, k, now);
    case WorkerWrite =>
    case FlushWrite =>
  }

  /** Once frames are only taken out, by a flush or by the worker, the order goes on. */
  lemma StepSorted(rules: seq<FaultRule>, e: Engine, a: Action)
    requires Sorted(e) && !a.Dispatch?
    ensures Sorted(Step(rules, e, a))
  {
    match a
    case Process(c) => if e.pending == [] { ProcessOrder(rules, e, c); }
    case WorkerPop(k, now) => WorkerPoppedOrder(e, k, now);
    case FlushPop(k) => if IsTop(e.queue, k) { PoppedSorted(e, k, e.clock); }
    case WorkerWrite =>
    case FlushWrite =>
  }

  lemma {:induction false} RunTimely(rules: seq<FaultRule>, clock: real, actions: seq<Action>)
    requires forall i :: 0 <= i < |actions| ==> !actions[i].FlushPop?
    ensures var e := Exec(rules, Fresh(clock), actions); Sorted(e) && Timely(e)
    decreases |actions|
  {
    if actions != [] {
      var before := actions[..|actions| - 1];
      RunTimely(rules, clock, before);
      StepTimely(rules, Exec(rules, Fresh(clock), before), actions[|actions| - 1]);
    }
  }

  lemma {:induction false} RunSorted(rules: seq<FaultRule>, e: Engine, actions: seq<Action>)
    requires Sorted(e) && forall i :: 0 <= i < |actions| ==> !actions[i].Dispatch?
    ensures Sorted(Exec(rules, e, actions))
    decreases |actions|
  {
    if actions != [] {
      var before := actions[..|actions| - 1];
      RunSorted(rules, e, before);
      StepSorted(rules, Exec(rules, e, before), actions[|actions| - 1]);
    }
  }

  /** What a step has written. */
  function WrittenBy(before: Engine, after: Engine): seq<Frame> {
    if |before.ledger.written| <= |after.ledger.written| then after.ledger.written[|before.ledger.written|..] else []
  }

  /** What the worker's write steps have written, in order. */
  ghost function WorkerWrites(rules: seq<FaultRule>, e: Engine, actions: seq<Action>): seq<Frame>
    decreases |actions|
  {
    if actions == [] then []
    else
      var before := actions[..|actions| - 1];
      WorkerWrites(rules, e, before)
      + if actions[|actions| - 1].WorkerWrite? then WrittenBy(Exec(rules, e, before), Exec(rules, e, actions)) else []
  }

  function InHand(f: Option<Frame>): seq<Frame> { if f.Some? then [f.value] else [] }

  function Frames(releases: seq<Release>): (frames: seq<Frame>)
    ensures |frames| == |releases|
  {
    seq(|releases|, i requires 0 <= i < |releases| => releases[i].frame)
  }

  lemma WriteStep(e: Engine)
    ensures WrittenBy(e, WorkerWrote(e)) == InHand(e.worker) && WorkerWrote(e).worker == None
    ensures WorkerWrote(e).ledger.releases == e.ledger.releases
  {
  }

  lemma PopStep(e: Engine, k: nat, now: real)
    ensures var t := WorkerPopped(e, k, now);
            Frames(t.ledger.releases) + InHand(e.worker) == Frames(e.ledger.releases) + InHand(t.worker)
  {
    if e.worker.None? && IsTop(e.queue, k) {
      var r := Released(e.queue[k], now);
      assert Frames(e.ledger.releases + [r]) == Frames(e.ledger.releases) + [r.frame];
    }
  }

  lemma OtherStep(rules: seq<FaultRule>, e: Engine, a: Action)
    requires a.Process? || a.Dispatch? || a.FlushWrite?
    ensures var t := Step(rules, e, a); t.worker == e.worker && t.ledger.releases == e.ledger.releases
  {
  }

  /** Without a flush, what the worker has written and what it holds is what has been released, in that order. */
  lemma {:induction false} WorkerWritesReleases(rules: seq<FaultRule>, clock: real, actions: seq<Action>)
    requires forall i :: 0 <= i < |actions| ==> !actions[i].FlushPop?
    ensures var e := Exec(rules, Fresh(clock), actions);
            WorkerWrites(rules, Fresh(clock), actions) + InHand(e.worker) == Frames(e.ledger.releases)
    decreases |actions|
  {
    if actions != [] {
      var before, a := actions[..|actions| - 1], actions[|actions| - 1];
      var e := Exec(rules, Fresh(clock), before);
      WorkerWritesReleases(rules, clock, before);
      match a
      case WorkerPop(k, now) => PopStep(e, k, now);
      case WorkerWrite => WriteStep(e);
      case _ => OtherStep(rules, e, a);
    }
  }

  /**
   * Until a flush, every delayed frame is released at or after its due time, releases come in due order, and the worker
   * writes the released frames in that order; a flush that no dispatch interrupts releases the rest in due order too.
   */
  lemma ReleaseOrder(rules: seq<FaultRule>, clock: real, before: seq<Action>, after: seq<Action>)
    requires forall i :: 0 <= i < |before| ==> !before[i].FlushPop?
    requires forall i :: 0 <= i < |after| ==> !after[i].Dispatch?
    ensures var e := Exec(rules, Fresh(clock), before);
            && (forall i :: 0 <= i < |e.ledger.releases| ==> e.ledger.releases[i].due <= e.ledger.releases[i].at)
            && InDueOrder(e.ledger.releases)
            && WorkerWrites(rules, Fresh(clock), before) + InHand(e.worker) == Frames(e.ledger.releases)
            && InDueOrder(Exec(rules, e, after).ledger.releases)
  {
    RunTimely(rules, clock, before);
    WorkerWritesReleases(rules, clock, before);
    RunSorted(rules, Exec(rules, Fresh(clock), before), after);
  }
}

/**
 * What the delay rules promise, read off the actions of a run: which dispatches are delayed, until when, and that
 * without a flush no delayed frame is written before.
 */
module FaultDelays {
  import opened FaultTypes
  import opened FaultPipeline
  import opened FaultRuns

  /** Some active rule delays. */
  ghost predicate Delays(active: seq<FaultRule>) {
    exists r :: r in active && r.kind == Delay && r.delayMs > 0.0
  }

  /** The rules active for the last call that a run has made. */
  ghost predicate LastCallActive(rules: seq<FaultRule>, clock: real, actions: seq<Action>, active: seq<FaultRule>) {
    var calls := CallsTaken(rules, Fresh(clock), actions);
    calls != [] && active == ActiveFor(rules, calls[|calls| - 1])
  }

  /** What is pending is dispatched under the rules of the call it belongs to. */
  lemma {:induction false} PendingUnder(rules: seq<FaultRule>, clock: real, actions: seq<Action>)
    ensures var e := Exec(rules, Fresh(clock), actions);
            e.pending != [] ==> LastCallActive(rules, clock, actions, e.active)
    decreases |actions|
  {
    if actions != [] {
      var before, a := actions[..|actions| - 1], actions[|actions| - 1];
      var e := Exec(rules, Fresh(clock), before);
      PendingUnder(rules, clock, before);
      if a.Process? && e.pending == [] {
        BeginUnder(rules, e, a.call);
      } else {
        assert CallsTaken(rules, Fresh(clock), actions) == CallsTaken(rules, Fresh(clock), before);
        OtherUnder(rules, e, a);
      }
    }
  }

  lemma BeginUnder(rules: seq<FaultRule>, e: Engine, c: Call)
    requires e.pending == []
    ensures var t := Begin(e, rules, c); t.pending != [] ==> t.active == ActiveFor(rules, c)
  {
  }

  lemma OtherUnder(rules: seq<FaultRule>, e: Engine, a: Action)
    requires !(a.Process? && e.pending == [])
    ensures var t := Step(rules, e, a); t.active == e.active && (t.pending != [] ==> e.pending != [])
  {
  }

  // ---- one dispatch ----------------------------------------------------------------------------

  lemma DispatchWrites(e: Engine, f: Frame, active: seq<FaultRule>, now: real)
    requires !Delays(active)
    ensures var t := DispatchOrDelay(e, f, active, now);
            t.queue == e.queue && t.ledger.written == e.ledger.written + [f] && t.stats.delayed == e.stats.delayed
  {
  }

  /** The rule whose delay counts: none of the active ones delays longer. */
  lemma Longest(active: seq<FaultRule>) returns (r: FaultRule)
    requires Delays(active)
    ensures r in active && r.kind == Delay && r.delayMs > 0.0 && DelayMs(active, |active|) == r.delayMs
    ensures forall q :: q in active && q.kind == Delay ==> q.delayMs <= r.delayMs
  {
    var j :| 0 <= j < |active| && active[j].kind == Delay && active[j].delayMs > 0.0;
    assert DelayMs(active, |active|) >= active[j].delayMs;
    var i :| 0 <= i < |active| && active[i].kind == Delay && DelayMs(active, |active|) == active[i].delayMs;
    r := active[i];
  }

  lemma DispatchQueues(e: Engine, f: Frame, active: seq<FaultRule>, now: real) returns (r: FaultRule)
    requires Delays(active)
    ensures r in active && r.kind == Delay && r.delayMs > 0.0
    ensures forall q :: q in active && q.kind == Delay ==> q.delayMs <= r.delayMs
    ensures var t := DispatchOrDelay(e, f, active, now);
            && t.queue == e.queue + [Delayed(now + 1_000_000.0 * r.delayMs, f, now, active)]
            && t.ledger.written == e.ledger.written && t.stats.delayed == e.stats.delayed + 1
  {
    r := Longest(active);
  }

  /** With no rule that delays the frame is written at once, and otherwise queued for the longest of the delays. */
  ghost predicate SentUnder(active: seq<FaultRule>, e: Engine, t: Engine, f: Frame, now: real) {
    && (!Delays(active) ==> t.queue == e.queue && t.ledger.written == e.ledger.written + [f])
    && (Delays(active) ==>
          t.ledger.written == e.ledger.written && t.stats.delayed == e.stats.delayed + 1
          && exists r :: r in active && r.kind == Delay && r.delayMs > 0.0
                         && (forall q :: q in active && q.kind == Delay ==> q.delayMs <= r.delayMs)
                         && t.queue == e.queue + [Delayed(now + 1_000_000.0 * r.delayMs, f, now, active)])
  }

  lemma OneDispatch(e: Engine, now: real)
    requires e.pending != [] && now >= e.clock
    ensures var t := Dispatched(e, now);
            SentUnder(e.active, e, t, e.pending[0].frame, now) && t.pending == e.pending[1..]
  {
    var u, f := Unpended(e), e.pending[0].frame;
    UnpendedLeaves(e);
    if Delays(e.active) {
      var r := DispatchQueues(u, f, e.active, now);
    } else {
      DispatchWrites(u, f, e.active, now);
    }
  }

  lemma UnpendedLeaves(e: Engine)
    requires e.pending != []
    ensures var u := Unpended(e);
            && u.queue == e.queue && u.ledger.written == e.ledger.written && u.stats.delayed == e.stats.delayed
            && u.pending == e.pending[1..]
  {
  }

  /**
   * A dispatch in any run, at reading now, under the rules active for the call it belongs to: with no rule that delays
   * the frame is written at once, and otherwise it is queued, due at now plus the longest of the delays.
   */
  lemma DispatchExactly(rules: seq<FaultRule>, clock: real, before: seq<Action>, now: real)
    requires var e := Exec(rules, Fresh(clock), before); e.pending != [] && now >= e.clock
    ensures var e, t := Exec(rules, Fresh(clock), before), Exec(rules, Fresh(clock), before + [Dispatch(now)]);
            var f, calls := e.pending[0].frame, CallsTaken(rules, Fresh(clock), before);
            && calls != [] && t.pending == e.pending[1..]
            && var active := ActiveFor(rules, calls[|calls| - 1]);
               && ((forall r :: r in active && r.kind == Delay ==> r.delayMs <= 0.0) ==>
                     t.queue == e.queue && t.ledger.written == e.ledger.written + [f])
               && ((exists r :: r in active && r.kind == Delay && r.delayMs > 0.0) ==>
                     t.ledger.written == e.ledger.written && t.stats.delayed == e.stats.delayed + 1
                     && exists r :: r in active && r.kind == Delay
                                    && (forall q :: q in active && q.kind == Delay ==> q.delayMs <= r.delayMs)
                                    && t.queue == e.queue + [Delayed(now + 1_000_000.0 * r.delayMs, f, now, active)])
  {
    var e := Exec(rules, Fresh(clock), before);
    PendingUnder(rules, clock, before);
    DispatchAfter(rules, clock, before, now);
    OneDispatch(e, now);
    SentLiterally(e.active, e, Dispatched(e, now), e.pending[0].frame, now);
  }

  lemma SentLiterally(active: seq<FaultRule>, e: Engine, t: Engine, f: Frame, now: real)
    requires SentUnder(active, e, t, f, now)
    ensures (forall r :: r in active && r.kind == Delay ==> r.delayMs <= 0.0) ==>
              t.queue == e.queue && t.ledger.written == e.ledger.written + [f]
    ensures (exists r :: r in active && r.kind == Delay && r.delayMs > 0.0) ==>
              t.ledger.written == e.ledger.written && t.stats.delayed == e.stats.delayed + 1
              && exists r :: r in active && r.kind == Delay
                             && (forall q :: q in active && q.kind == Delay ==> q.delayMs <= r.delayMs)
                             && t.queue == e.queue + [Delayed(now + 1_000_000.0 * r.delayMs, f, now, active)]
  {
  }

  lemma DispatchAfter(rules: seq<FaultRule>, clock: real, before: seq<Action>, now: real)
    ensures Exec(rules, Fresh(clock), before + [Dispatch(now)]) == Dispatched(Exec(rules, Fresh(clock), before), now)
  {
    assert (before + [Dispatch(now)])[..|before|] == before;
  }

  // ---- what is queued and what is released -------------------------------------------------------

  /** Due the longest of these delays after it was sent, which is more than nothing. */
  ghost predicate DueAfter(due: real, sent: real, active: seq<FaultRule>) {
    && (forall r :: r in active && r.kind == Delay ==> due >= sent + 1_000_000.0 * r.delayMs)
    && exists r :: r in active && r.kind == Delay && r.delayMs > 0.0 && due == sent + 1_000_000.0 * r.delayMs
  }

  /** One of the actions dispatched the frame at that reading, for a call that found these rules active. */
  ghost predicate SentBy(rules: seq<FaultRule>, clock: real, actions: seq<Action>, f: Frame, sent: real,
                         active: seq<FaultRule>)
  {
    exists i :: 0 <= i < |actions| && actions[i] == Dispatch(sent) && SentAt(rules, clock, actions[..i], f, active)
  }

  ghost predicate SentAt(rules: seq<FaultRule>, clock: real, before: seq<Action>, f: Frame, active: seq<FaultRule>) {
    var e := Exec(rules, Fresh(clock), before);
    e.pending != [] && e.pending[0].frame == f && LastCallActive(rules, clock, before, active)
  }

  /** So it is with everything queued and everything released. */
  ghost predicate Explained(rules: seq<FaultRule>, clock: real, actions: seq<Action>, e: Engine) {
    && (forall d :: d in e.queue ==>
          DueAfter(d.due, d.sent, d.active) && SentBy(rules, clock, actions, d.frame, d.sent, d.active))
    && (forall r :: r in e.ledger.releases ==>
          DueAfter(r.due, r.sent, r.active) && SentBy(rules, clock, actions, r.frame, r.sent, r.active))
  }

  lemma SentByMore(rules: seq<FaultRule>, clock: real, actions: seq<Action>, a: Action, f: Frame, sent: real,
                   active: seq<FaultRule>)
    requires SentBy(rules, clock, actions, f, sent, active)
    ensures SentBy(rules, clock, actions + [a], f, sent, active)
  {
    var i :| 0 <= i < |actions| && actions[i] == Dispatch(sent) && SentAt(rules, clock, actions[..i], f, active);
    assert (actions + [a])[..i] == actions[..i];
  }

  lemma SentNow(rules: seq<FaultRule>, clock: real, before: seq<Action>, f: Frame, now: real, active: seq<FaultRule>)
    requires SentAt(rules, clock, before, f, active)
    ensures SentBy(rules, clock, before + [Dispatch(now)], f, now, active)
  {
    assert (before + [Dispatch(now)])[..|before|] == before && (before + [Dispatch(now)])[|before|] == Dispatch(now);
  }

  lemma ExplainedMore(rules: seq<FaultRule>, clock: real, actions: seq<Action>, a: Action, e: Engine)
    requires Explained(rules, clock, actions, e)
    ensures Explained(rules, clock, actions + [a], e)
  {
    forall d | d in e.queue ensures SentBy(rules, clock, actions + [a], d.frame, d.sent, d.active) {
      SentByMore(rules, clock, actions, a, d.frame, d.sent, d.active);
    }
    forall r | r in e.ledger.releases ensures SentBy(rules, clock, actions + [a], r.frame, r.sent, r.active) {
      SentByMore(rules, clock, actions, a, r.frame, r.sent, r.active);
    }
  }

  lemma PoppedExplained(rules: seq<FaultRule>, clock: real, actions: seq<Action>, e: Engine, k: nat, now: real)
    requires Explained(rules, clock, actions, e) && k < |e.queue|
    ensures Explained(rules, clock, actions, Popped(e, k, now))
  {
    var p := Popped(e, k, now);
    assert forall d :: d in p.queue ==> d in e.queue;
    assert e.queue[k] in e.queue;
  }

  /** A step other than a dispatch explains itself. */
  lemma StepExplained(rules: seq<FaultRule>, clock: real, actions: seq<Action>, e: Engine, a: Action)
    requires Explained(rules, clock, actions, e) && !a.Dispatch?
    ensures Explained(rules, clock, actions, Step(rules, e, a))
  {
    match a
    case Process(c) => if e.pending == [] { BeginLeaves(rules, e, c); }
    case WorkerPop(k, now) => if IsTop(e.queue, k) { PoppedExplained(rules, clock, actions, e, k, now); }
    case FlushPop(k) => if IsTop(e.queue, k) { PoppedExplained(rules, clock, actions, e, k, e.clock); }
    case WorkerWrite =>
    case FlushWrite =>
  }

  lemma BeginLeaves(rules: seq<FaultRule>, e: Engine, c: Call)
    ensures var t := Begin(e, rules, c); t.queue == e.queue && t.ledger.releases == e.ledger.releases
  {
  }

  lemma DispatchedLeaves(e: Engine, now: real)
    ensures Dispatched(e, now).ledger.releases == e.ledger.releases
    ensures e.pending == [] || now < e.clock ==> Dispatched(e, now) == e
  {
  }

  lemma QueueOneMore(rules: seq<FaultRule>, clock: real, actions: seq<Action>, e: Engine, t: Engine, d: Delayed)
    requires Explained(rules, clock, actions, e) && DueAfter(d.due, d.sent, d.active)
    requires SentBy(rules, clock, actions, d.frame, d.sent, d.active)
    requires t.queue == e.queue + [d] && t.ledger.releases == e.ledger.releases
    ensures Explained(rules, clock, actions, t)
  {
  }

  lemma DispatchExplained(rules: seq<FaultRule>, clock: real, before: seq<Action>, now: real)
    requires Explained(rules, clock, before, Exec(rules, Fresh(clock), before))
    ensures var actions := before + [Dispatch(now)];
            Explained(rules, clock, actions, Exec(rules, Fresh(clock), actions))
  {
    var actions := before + [Dispatch(now)];
    var e, t := Exec(rules, Fresh(clock), before), Exec(rules, Fresh(clock), actions);
    DispatchAfter(rules, clock, before, now);
    ExplainedMore(rules, clock, before, Dispatch(now), e);
    DispatchedLeaves(e, now);
    if e.pending != [] && now >= e.clock {
      PendingUnder(rules, clock, before);
      SentNow(rules, clock, before, e.pending[0].frame, now, e.active);
      OneDispatch(e, now);
      SentExplained(rules, clock, actions, e, t, e.active, e.pending[0].frame, now);
    }
  }

  lemma SentExplained(rules: seq<FaultRule>, clock: real, actions: seq<Action>, e: Engine, t: Engine,
                      active: seq<FaultRule>, f: Frame, now: real)
    requires Explained(rules, clock, actions, e) && SentUnder(active, e, t, f, now)
    requires SentBy(rules, clock, actions, f, now, active) && t.ledger.releases == e.ledger.releases
    ensures Explained(rules, clock, actions, t)
  {
    if Delays(active) {
      var r :| r in active && r.kind == Delay && r.delayMs > 0.0
               && (forall q :: q in active && q.kind == Delay ==> q.delayMs <= r.delayMs)
               && t.queue == e.queue + [Delayed(now + 1_000_000.0 * r.delayMs, f, now, active)];
      QueueOneMore(rules, clock, actions, e, t, Delayed(now + 1_000_000.0 * r.delayMs, f, now, active));
    }
  }

  lemma {:induction false} RunExplained(rules: seq<FaultRule>, clock: real, actions: seq<Action>)
    ensures Explained(rules, clock, actions, Exec(rules, Fresh(clock), actions))
    decreases |actions|
  {
    if actions != [] {
      var before, a := actions[..|actions| - 1], actions[|actions| - 1];
      assert actions == before + [a];
      RunExplained(rules, clock, before);
      if a.Dispatch? {
        DispatchExplained(rules, clock, before, a.now);
      } else {
        var e := Exec(rules, Fresh(clock), before);
        StepExplained(rules, clock, before, e, a);
        ExplainedMore(rules, clock, before, a, Step(rules, e, a));
      }
    }
  }

  // ---- the theorems ----------------------------------------------------------------------------

  /**
   * In every run without a flush, every frame that has been released was dispatched by one of the actions, for a call
   * that found rules active; it was due one of their delays after that dispatch, and has been released no earlier than
   * every one of them says.
   */
  lemma DelaysKept(rules: seq<FaultRule>, clock: real, actions: seq<Action>)
    requires forall i :: 0 <= i < |actions| ==> !actions[i].FlushPop?
    ensures var e := Exec(rules, Fresh(clock), actions);
            forall p :: p in e.ledger.releases ==>
              && (forall r :: r in p.active && r.kind == Delay ==> p.at >= p.sent + 1_000_000.0 * r.delayMs)
              && (exists r :: r in p.active && r.kind == Delay && r.delayMs > 0.0
                              && p.due == p.sent + 1_000_000.0 * r.delayMs)
              && exists i :: 0 <= i < |actions| && actions[i] == Dispatch(p.sent)
                             && SentAt(rules, clock, actions[..i], p.frame, p.active)
  {
    var e := Exec(rules, Fresh(clock), actions);
    RunExplained(rules, clock, actions);
    RunTimely(rules, clock, actions);
    forall p | p in e.ledger.releases
      ensures forall r :: r in p.active && r.kind == Delay ==> p.at >= p.sent + 1_000_000.0 * r.delayMs
    {
      assert DueAfter(p.due, p.sent, p.active) && p.due <= p.at;
    }
    assert forall p :: p in e.ledger.releases ==>
      DueAfter(p.due, p.sent, p.active) && SentBy(rules, clock, actions, p.frame, p.sent, p.active);
  }

  /** Released once it was due. */
  ghost predicate ReleasedInTime(e: Engine, d: Delayed) {
    exists p :: p in e.ledger.releases && p == Release(d.due, p.at, d.frame, d.sent, d.active) && p.at >= d.due
  }

  lemma EntryStep(rules: seq<FaultRule>, e: Engine, a: Action, d: Delayed)
    requires (d in e.queue || ReleasedInTime(e, d)) && !a.FlushPop?
    ensures var t := Step(rules, e, a); d in t.queue || ReleasedInTime(t, d)
  {
    match a
    case Process(c) => if e.pending == [] { BeginLeaves(rules, e, c); }
    case Dispatch(now) => DispatchKeeps(e, now, d);
    case WorkerPop(k, now) => PopKeeps(e, k, now, d);
    case WorkerWrite =>
    case FlushWrite =>
  }

  lemma DispatchKeeps(e: Engine, now: real, d: Delayed)
    requires d in e.queue || ReleasedInTime(e, d)
    ensures var t := Dispatched(e, now); d in t.queue || ReleasedInTime(t, d)
  {
    DispatchedLeaves(e, now);
    if e.pending != [] && now >= e.clock { OneDispatch(e, now); }
  }

  lemma PopKeeps(e: Engine, k: nat, now: real, d: Delayed)
    requires d in e.queue || ReleasedInTime(e, d)
    ensures var t := WorkerPopped(e, k, now); d in t.queue || ReleasedInTime(t, d)
  {
    var t := WorkerPopped(e, k, now);
    if t != e {
      var p := Released(e.queue[k], now);
      assert t.ledger.releases == e.ledger.releases + [p];
      if d in e.queue && d != e.queue[k] {
        var j :| 0 <= j < |e.queue| && e.queue[j] == d;
        assert RemoveAt(e.queue, k)[if j < k then j else j - 1] == d;
      } else if d in e.queue {
        assert p in t.ledger.releases && p == Release(d.due, p.at, d.frame, d.sent, d.active);
      } else {
        var q :| q in e.ledger.releases && q == Release(d.due, q.at, d.frame, d.sent, d.active) && q.at >= d.due;
        assert q in t.ledger.releases;
      }
    }
  }

  /** What has been queued stays queued, until it is released once it is due. */
  lemma {:induction false} EntryStays(rules: seq<FaultRule>, e: Engine, actions: seq<Action>, d: Delayed)
    requires d in e.queue && forall i :: 0 <= i < |actions| ==> !actions[i].FlushPop?
    ensures var t := Exec(rules, e, actions); d in t.queue || ReleasedInTime(t, d)
    decreases |actions|
  {
    if actions != [] {
      var before := actions[..|actions| - 1];
      EntryStays(rules, e, before, d);
      EntryStep(rules, Exec(rules, e, before), actions[|actions| - 1], d);
    }
  }

  /**
   * A frame dispatched at reading now, for a call that found a rule active that delays, is still queued after any
   * actions without a flush, or has been released, and then later than now by no less than the delay of any rule that
   * was active.
   */
  lemma DelayedUntil(rules: seq<FaultRule>, clock: real, before: seq<Action>, now: real, after: seq<Action>)
    requires var e := Exec(rules, Fresh(clock), before); e.pending != [] && now >= e.clock && Delays(e.active)
    requires forall i :: 0 <= i < |after| ==> !after[i].FlushPop?
    ensures var e, t := Exec(rules, Fresh(clock), before), Exec(rules, Fresh(clock), before + [Dispatch(now)] + after);
            var f := e.pending[0].frame;
            (exists d :: d in t.queue && d.frame == f && d.sent == now && d.active == e.active)
            || exists p :: p in t.ledger.releases && p.frame == f && p.sent == now && p.active == e.active
                           && forall r :: r in e.active && r.kind == Delay ==> p.at >= now + 1_000_000.0 * r.delayMs
  {
    var e := Exec(rules, Fresh(clock), before);
    var mid := Exec(rules, Fresh(clock), before + [Dispatch(now)]);
    DispatchAfter(rules, clock, before, now);
    OneDispatch(e, now);
    var f := e.pending[0].frame;
    var r :| r in e.active && r.kind == Delay && r.delayMs > 0.0
             && (forall q :: q in e.active && q.kind == Delay ==> q.delayMs <= r.delayMs)
             && mid.queue == e.queue + [Delayed(now + 1_000_000.0 * r.delayMs, f, now, e.active)];
    var d := Delayed(now + 1_000_000.0 * r.delayMs, f, now, e.active);
    EntryStays(rules, mid, after, d);
    ExecAppend(rules, Fresh(clock), before + [Dispatch(now)], after);
    var t := Exec(rules, mid, after);
    if ReleasedInTime(t, d) {
      var p :| p in t.ledger.releases && p == Release(d.due, p.at, d.frame, d.sent, d.active) && p.at >= d.due;
      assert forall q :: q in e.active && q.kind == Delay ==> p.at >= now + 1_000_000.0 * q.delayMs;
    }
  }

  /** A dispatch is counted for what it sends: a copy as duplicated, a frame held back before as reordered. */
  lemma DispatchCounted(e: Engine, now: real)
    requires e.pending != [] && now >= e.clock
    ensures var t, kind := Dispatched(e, now), e.pending[0].kind;
            && t.stats.duplicated == e.stats.duplicated + (if kind == Copy then 1 else 0)
            && t.stats.reordered == e.stats.reordered + (if kind == HeldBefore then 1 else 0)
            && t.stats.dropped == e.stats.dropped && t.stats.corrupted == e.stats.corrupted
            && t.stats.forwarded + t.stats.delayed == e.stats.forwarded + e.stats.delayed + 1
  {
    CountedExactly(e.(pending := e.pending[1..]), e.pending[0]);
  }

  lemma CountedExactly(e: Engine, s: Send)
    ensures var t := Counted(e, s).stats;
            t == e.stats.(duplicated := e.stats.duplicated + (if s.kind == Copy then 1 else 0),
                          reordered := e.stats.reordered + (if s.kind == HeldBefore then 1 else 0))
  {
  }

  /** Once the frame on top is due the worker can take it, and then writes it. */
  lemma WorkerTakes(rules: seq<FaultRule>, e: Engine, k: nat, now: real)
    requires e.worker.None? && now >= e.clock && k < |e.queue| && e.queue[k].due <= now
    requires forall j :: 0 <= j < |e.queue| ==> e.queue[k].due <= e.queue[j].due
    ensures var t := Exec(rules, e, [WorkerPop(k, now), WorkerWrite]);
            && t.queue == e.queue[..k] + e.queue[k + 1..] && t.worker.None?
            && t.ledger.written == e.ledger.written + [e.queue[k].frame]
            && t.stats == e.stats.(forwarded := e.stats.forwarded + 1)
  {
    assert [WorkerPop(k, now), WorkerWrite][..1] == [WorkerPop(k, now)];
    assert [WorkerPop(k, now)][..0] == [];
    assert Exec(rules, e, [WorkerPop(k, now)]) == WorkerPopped(e, k, now);
  }

  /** A flush takes it before that. */
  lemma FlushTakes(rules: seq<FaultRule>, e: Engine, k: nat)
    requires e.flusher.None? && k < |e.queue|
    requires forall j :: 0 <= j < |e.queue| ==> e.queue[k].due <= e.queue[j].due
    ensures var t := Exec(rules, e, [FlushPop(k), FlushWrite]);
            && t.queue == e.queue[..k] + e.queue[k + 1..] && t.flusher.None?
            && t.ledger.written == e.ledger.written + [e.queue[k].frame]
            && t.stats == e.stats.(forwarded := e.stats.forwarded + 1)
  {
    assert [FlushPop(k), FlushWrite][..1] == [FlushPop(k)];
    assert [FlushPop(k)][..0] == [];
    assert Exec(rules, e, [FlushPop(k)]) == FlushPopped(e, k);
  }

  lemma DelayedStep(rules: seq<FaultRule>, e: Engine, a: Action)
    ensures var t := Step(rules, e, a);
            t.stats.delayed - |t.queue| - |t.ledger.releases| == e.stats.delayed - |e.queue| - |e.ledger.releases|
  {
    match a
    case Process(c) => if e.pending == [] { BeginLeaves(rules, e, c); BeginCounts(rules, e, c); }
    case Dispatch(now) => if e.pending != [] && now >= e.clock { DispatchCounts(e, now); }
    case WorkerPop(k, now) =>
    case FlushPop(k) =>
    case WorkerWrite =>
    case FlushWrite =>
  }

  lemma BeginCounts(rules: seq<FaultRule>, e: Engine, c: Call)
    ensures Begin(e, rules, c).stats.delayed == e.stats.delayed
  {
  }

  lemma DispatchCounts(e: Engine, now: real)
    requires e.pending != [] && now >= e.clock
    ensures var t := Dispatched(e, now);
            t.ledger.releases == e.ledger.releases && t.stats.delayed - |t.queue| == e.stats.delayed - |e.queue|
  {
    DispatchedLeaves(e, now);
    UnpendedLeaves(e);
  }

  /** In every run, flush included, the counter of delayed frames is the number queued and released. */
  lemma {:induction false} DelayedCounted(rules: seq<FaultRule>, clock: real, actions: seq<Action>)
    ensures var e := Exec(rules, Fresh(clock), actions); e.stats.delayed == |e.queue| + |e.ledger.releases|
    decreases |actions|
  {
    if actions != [] {
      var before := actions[..|actions| - 1];
      DelayedCounted(rules, clock, before);
      DelayedStep(rules, Exec(rules, Fresh(clock), before), actions[|actions| - 1]);
    }
  }
}

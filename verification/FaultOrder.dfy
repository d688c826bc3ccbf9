/**
 * What a reader of the output sees of the ordering stage, in every run: pairs swapped, frames repeated, or nothing
 * changed.
 */
module FaultOrder {
  import opened Bytes
  import opened FaultTypes
  import opened FaultPipeline
  import opened BandwidthRuns

  predicate OnlyKind(active: seq<FaultRule>, kind: FaultKind) {
    forall i :: 0 <= i < |active| ==> active[i].kind == kind
  }

  /** Rules that only reorder or only duplicate let a frame through to the ordering stage as it is. */
  lemma NothingElse(e: Engine, rules: seq<FaultRule>, c: Call, kind: FaultKind)
    requires OnlyKind(ActiveFor(rules, c), kind) && (kind == Reorder || kind == Duplicate)
    ensures var active := ActiveFor(rules, c);
            && Pass(e.front, active, c).passed && Corrupted(active, |active|, c.data, c.draws) == c.data
            && DelayMs(active, |active|) == 0.0
            && HasKind(active, Reorder) == (kind == Reorder && active != [])
  {
    var active := ActiveFor(rules, c);
    assert NoLimits(active);
    NoLimit(active, |active|, Restart(e.front, active, c.stream).bucket, |c.data|, c.clock);
    if kind == Reorder && active != [] { assert active[0].kind == Reorder; }
  }

  /** The front half of such a call. */
  lemma SuchCallBegins(e: Engine, rules: seq<FaultRule>, c: Call, kind: FaultKind)
    requires e.pending == [] && OnlyKind(ActiveFor(rules, c), kind) && (kind == Reorder || kind == Duplicate)
    ensures var active := ActiveFor(rules, c);
            var f := Frame(|e.ledger.inputs|, c.data);
            var b := Begin(e, rules, c);
            && DelayMs(b.active, |b.active|) == 0.0 && b.ledger.written == e.ledger.written
            && |b.ledger.inputs| == |e.ledger.inputs| + 1
            && (kind == Reorder && active != [] ==>
                  && b.held == (if e.held.None? then Some(f) else None)
                  && b.pending == if e.held.None? then [] else [Send(Itself, f), Send(HeldBefore, e.held.value)])
            && (kind == Duplicate ==>
                  && b.held == e.held
                  && b.pending == [Send(Itself, f)] + Copies(CountKind(active, |active|, Duplicate), f))
  {
    NothingElse(e, rules, c, kind);
  }

  /** The positions among the first k of the rules of a kind. */
  function OfKind(active: seq<FaultRule>, k: nat, kind: FaultKind): set<nat>
    requires k <= |active|
  {
    set i: nat | i < k && active[i].kind == kind
  }

  lemma OneMoreOfKind(active: seq<FaultRule>, k: nat, kind: FaultKind)
    requires k < |active|
    ensures OfKind(active, k + 1, kind) == OfKind(active, k, kind) + if active[k].kind == kind then {k} else {}
  {
  }

  lemma {:induction false} CountKindExactly(active: seq<FaultRule>, k: nat, kind: FaultKind)
    requires k <= |active|
    ensures CountKind(active, k, kind) == |OfKind(active, k, kind)|
    decreases k
  {
    if k > 0 {
      CountKindExactly(active, k - 1, kind);
      OneMoreOfKind(active, k - 1, kind);
    }
  }

  /** The link is cut, a burst loss is on, a drop rule draws below its rate, or the bandwidth stage refuses. */
  ghost predicate Stopped(active: seq<FaultRule>, c: Call, bucket: Bucket) {
    || (exists r :: r in active && (r.kind == EcuDisconnect || r.kind == BurstLoss))
    || (exists i :: 0 <= i < |active| && active[i].kind == Drop && active[i].dropRate > 0.0
                    && c.draws.uniform(i) < active[i].dropRate)
    || !Admit(active, |active|, bucket, |c.data|, c.clock).admitted
  }

  /** Frame n was lost: nothing is sent, what was held stays. */
  ghost predicate LostAt(e: Engine, b: Engine, n: nat) {
    && b.pending == [] && b.held == e.held && b.stats == e.stats.(dropped := e.stats.dropped + 1)
    && b.ledger.lost == e.ledger.lost + multiset{n}
  }

  /**
   * Frame f went on. With a reorder rule active it is held back or, if one is held back, goes out before that; else it
   * goes out with a copy for every duplicate rule, and a held frame stays.
   */
  ghost predicate WentOn(e: Engine, b: Engine, active: seq<FaultRule>, f: Frame) {
    && b.ledger.lost == e.ledger.lost && b.stats.dropped == e.stats.dropped
    && ((exists r :: r in active && r.kind == Reorder) ==>
          if e.held.None? then b.held == Some(f) && b.pending == []
          else b.held == None && b.pending == [Send(Itself, f), Send(HeldBefore, e.held.value)])
    && ((forall r :: r in active ==> r.kind != Reorder) ==>
          b.held == e.held
          && b.pending == [Send(Itself, f)] + seq(|OfKind(active, |active|, Duplicate)|, _ => Send(Copy, f)))
  }

  lemma HasKindExactly(active: seq<FaultRule>, kind: FaultKind)
    ensures HasKind(active, kind) <==> exists r :: r in active && r.kind == kind
  {
    if r :| r in active && r.kind == kind {
      var i :| 0 <= i < |active| && active[i] == r;
    }
  }

  lemma PassExactly(f: Front, active: seq<FaultRule>, c: Call)
    ensures Pass(f, active, c).passed <==> !Stopped(active, c, f.bucket)
  {
    HasKindExactly(active, EcuDisconnect);
    HasKindExactly(active, BurstLoss);
    assert Restart(f, active, c.stream).bucket == f.bucket;
  }

  lemma OrderedExactly(e: Engine, active: seq<FaultRule>, f: Frame)
    requires e.pending == []
    ensures WentOn(e, Ordered(e, active, f), active, f)
    ensures Ordered(e, active, f).stats == e.stats && Ordered(e, active, f).ledger == e.ledger
  {
    HasKindExactly(active, Reorder);
    CountKindExactly(active, |active|, Duplicate);
  }

  lemma GoesOn(e: Engine, active: seq<FaultRule>, front: Front, data: Payload, n: nat, f: Frame)
    requires e.pending == []
    ensures var b := Ordered(Survived(e, front, data, n), active, f);
            WentOn(e, b, active, f) && b.stats.corrupted == e.stats.corrupted + n
            && b.ledger.inputs == e.ledger.inputs + [data] && b.ledger.written == e.ledger.written
  {
    OrderedExactly(Survived(e, front, data, n), active, f);
  }

  lemma IsLost(e: Engine, front: Front, data: Payload)
    requires e.pending == []
    ensures var b := TakeIn(e.(front := front), data, true);
            LostAt(e, b, |e.ledger.inputs|)
            && b.ledger.inputs == e.ledger.inputs + [data] && b.ledger.written == e.ledger.written
  {
  }

  /**
   * The front half of any call: the frame is lost exactly if one of the dropping stages stops it, and otherwise goes on
   * under its own number, corrupted, each corrupt rule counted if there is anything to corrupt.
   */
  lemma CallBegins(e: Engine, rules: seq<FaultRule>, c: Call)
    requires e.pending == []
    ensures var active, b, n := ActiveFor(rules, c), Begin(e, rules, c), |e.ledger.inputs|;
            && b.ledger.inputs == e.ledger.inputs + [c.data] && b.ledger.written == e.ledger.written
            && (Stopped(active, c, e.front.bucket) ==> LostAt(e, b, n))
            && (!Stopped(active, c, e.front.bucket) ==>
                  && WentOn(e, b, active, Frame(n, Corrupted(active, |active|, c.data, c.draws)))
                  && b.stats.corrupted
                     == e.stats.corrupted + if c.data == [] then 0 else |OfKind(active, |active|, Corrupt)|)
  {
    var active := ActiveFor(rules, c);
    var p := Pass(e.front, active, c);
    PassExactly(e.front, active, c);
    CountKindExactly(active, |active|, Corrupt);
    if p.passed {
      GoesOn(e, active, p.front, c.data, if c.data == [] then 0 else CountKind(active, |active|, Corrupt),
             Frame(|e.ledger.inputs|, Corrupted(active, |active|, c.data, c.draws)));
    } else {
      IsLost(e, p.front, c.data);
    }
  }

  // ---- runs without delays -----------------------------------------------------------------------

  /** Nothing is queued or on its way from the queue. */
  predicate Direct(e: Engine) {
    e.queue == [] && e.worker == None && e.flusher == None && DelayMs(e.active, |e.active|) == 0.0
  }

  function Frames(pending: seq<Send>): seq<Frame> { seq(|pending|, i requires 0 <= i < |pending| => pending[i].frame) }

  /** What has been written, and what the call in progress still has to write. */
  function Output(e: Engine): seq<Frame> { e.ledger.written + Frames(e.pending) }

  lemma DispatchWrites(e: Engine, now: real)
    requires Direct(e)
    ensures var t := Dispatched(e, now);
            Direct(t) && Output(t) == Output(e) && t.held == e.held && t.ledger.inputs == e.ledger.inputs
  {
    if e.pending != [] && now >= e.clock {
      var f := e.pending[0].frame;
      assert Frames(e.pending) == [f] + Frames(e.pending[1..]);
      assert Dispatched(e, now).ledger.written == e.ledger.written + [f];
    }
  }

  /** Where nothing is delayed, all that happens between calls is that what they left is written. */
  lemma StepWrites(rules: seq<FaultRule>, e: Engine, a: Action)
    requires Direct(e) && !(a.Process? && e.pending == [])
    ensures var t := Step(rules, e, a);
            Direct(t) && Output(t) == Output(e) && t.held == e.held && t.ledger.inputs == e.ledger.inputs
  {
    if a.Dispatch? { DispatchWrites(e, a.now); }
  }

  // ---- reordering --------------------------------------------------------------------------------

  predicate Reordering(rules: seq<FaultRule>, c: Call) {
    ActiveFor(rules, c) != [] && OnlyKind(ActiveFor(rules, c), Reorder)
  }

  /** Every second frame goes out before the one that came before it. */
  function Swapped(calls: seq<Call>, n: nat): seq<Frame>
    requires 2 * n <= |calls|
    decreases n
  {
    if n == 0 then []
    else Swapped(calls, n - 1) + [Frame(2 * n - 1, calls[2 * n - 1].data), Frame(2 * n - 2, calls[2 * n - 2].data)]
  }

  lemma {:induction false} SwappedPrefix(calls: seq<Call>, c: Call, n: nat)
    requires 2 * n <= |calls|
    ensures Swapped(calls + [c], n) == Swapped(calls, n)
    decreases n
  {
    if n > 0 { SwappedPrefix(calls, c, n - 1); }
  }

  /** The last frame of an odd number of calls is held back. */
  function HeldOf(calls: seq<Call>): Option<Frame> {
    if |calls| % 2 == 0 then None else Some(Frame(|calls| - 1, calls[|calls| - 1].data))
  }

  ghost predicate PairsOut(e: Engine, calls: seq<Call>) {
    && Direct(e) && |e.ledger.inputs| == |calls|
    && Output(e) == Swapped(calls, |calls| / 2) && e.held == HeldOf(calls)
  }

  /** One more frame has come in, and was held back or has gone out before the one held back. */
  ghost predicate OneReordered(e: Engine, c: Call, t: Engine) {
    var f := Frame(|e.ledger.inputs|, c.data);
    && Direct(t) && |t.ledger.inputs| == |e.ledger.inputs| + 1
    && (e.held.None? ==> t.held == Some(f) && Output(t) == Output(e))
    && (e.held.Some? ==> t.held == None && Output(t) == Output(e) + [f, e.held.value])
  }

  lemma ReorderOne(rules: seq<FaultRule>, e: Engine, c: Call)
    requires Direct(e) && e.pending == [] && Reordering(rules, c)
    ensures OneReordered(e, c, Begin(e, rules, c))
  {
    SuchCallBegins(e, rules, c, Reorder);
    var t := Begin(e, rules, c);
    if e.held.Some? { assert Frames(t.pending) == [Frame(|e.ledger.inputs|, c.data), e.held.value]; }
  }

  lemma SwappedMore(calls: seq<Call>, c: Call)
    ensures var more := calls + [c];
            && (|calls| % 2 == 0 ==> Swapped(more, |more| / 2) == Swapped(calls, |calls| / 2))
            && (|calls| % 2 == 1 ==>
                  Swapped(more, |more| / 2)
                  == Swapped(calls, |calls| / 2) + [Frame(|calls|, c.data), HeldOf(calls).value])
  {
    var n := |calls| / 2;
    SwappedPrefix(calls, c, n);
    assert |calls| % 2 == 1 ==> |calls| == 2 * n + 1 && |calls + [c]| / 2 == n + 1;
  }

  lemma PairsGrow(e: Engine, calls: seq<Call>, c: Call, t: Engine)
    requires PairsOut(e, calls) && OneReordered(e, c, t)
    ensures PairsOut(t, calls + [c])
  {
    SwappedMore(calls, c);
    assert (calls + [c])[|calls|] == c;
  }

  lemma PairsKept(rules: seq<FaultRule>)
    ensures KeptBy(rules, c => Reordering(rules, c), (e, calls) => PairsOut(e, calls))
  {
    forall e: Engine, calls: seq<Call>, c: Call | e.pending == [] && PairsOut(e, calls) && Reordering(rules, c)
      ensures PairsOut(Begin(e, rules, c), calls + [c])
    {
      ReorderOne(rules, e, c);
      PairsGrow(e, calls, c, Begin(e, rules, c));
    }
    forall e: Engine, calls: seq<Call>, a: Action | PairsOut(e, calls) && !(a.Process? && e.pending == [])
      ensures PairsOut(Step(rules, e, a), calls)
    {
      StepWrites(rules, e, a);
    }
  }

  /**
   * In every run, worker and flush included, in which only reorder rules are active: what has been written, and the
   * rest of the call in progress, is the frames that came in, every pair of them swapped, and an odd last one is held
   * back.
   */
  lemma ReorderSwapsPairs(rules: seq<FaultRule>, clock: real, actions: seq<Action>)
    requires forall c :: c in CallsTaken(rules, Fresh(clock), actions) ==> Reordering(rules, c)
    ensures PairsOut(Exec(rules, Fresh(clock), actions), CallsTaken(rules, Fresh(clock), actions))
  {
    PairsKept(rules);
    var good := (e: Engine, calls: seq<Call>) => PairsOut(e, calls);
    assert good(Fresh(clock), []);
    RunKeepsBy(rules, c => Reordering(rules, c), good, clock, actions);
  }

  // ---- duplicating -------------------------------------------------------------------------------

  predicate Duplicating(rules: seq<FaultRule>, c: Call) { OnlyKind(ActiveFor(rules, c), Duplicate) }

  /** Every frame, once and once more for every duplicate rule active for it. */
  function Repeated(rules: seq<FaultRule>, calls: seq<Call>): seq<Frame>
    decreases |calls|
  {
    if calls == [] then []
    else
      var n := |calls| - 1;
      Repeated(rules, calls[..n]) + seq(1 + |ActiveFor(rules, calls[n])|, _ => Frame(n, calls[n].data))
  }

  lemma {:induction false} CountAll(active: seq<FaultRule>, k: nat, kind: FaultKind)
    requires k <= |active| && OnlyKind(active, kind)
    ensures CountKind(active, k, kind) == k
    decreases k
  {
    if k > 0 { CountAll(active, k - 1, kind); }
  }

  ghost predicate FramesOut(rules: seq<FaultRule>, e: Engine, calls: seq<Call>) {
    && Direct(e) && |e.ledger.inputs| == |calls|
    && Output(e) == Repeated(rules, calls) && e.held == None
  }

  lemma FramesOfCopies(f: Frame, n: nat)
    ensures Frames([Send(Itself, f)] + Copies(n, f)) == seq(1 + n, _ => f)
  {
  }

  lemma DuplicateOne(rules: seq<FaultRule>, e: Engine, c: Call)
    requires Direct(e) && e.pending == [] && Duplicating(rules, c)
    ensures var t := Begin(e, rules, c);
            && Direct(t) && |t.ledger.inputs| == |e.ledger.inputs| + 1 && t.held == e.held
            && Output(t) == Output(e) + seq(1 + |ActiveFor(rules, c)|, _ => Frame(|e.ledger.inputs|, c.data))
  {
    SuchCallBegins(e, rules, c, Duplicate);
    CountAll(ActiveFor(rules, c), |ActiveFor(rules, c)|, Duplicate);
    FramesOfCopies(Frame(|e.ledger.inputs|, c.data), |ActiveFor(rules, c)|);
    assert Output(e) == e.ledger.written;
  }

  lemma FramesGrow(rules: seq<FaultRule>, e: Engine, calls: seq<Call>, c: Call)
    requires FramesOut(rules, e, calls) && e.pending == [] && Duplicating(rules, c)
    ensures FramesOut(rules, Begin(e, rules, c), calls + [c])
  {
    DuplicateOne(rules, e, c);
    assert (calls + [c])[..|calls|] == calls;
  }

  lemma FramesKept(rules: seq<FaultRule>)
    ensures KeptBy(rules, c => Duplicating(rules, c), (e, calls) => FramesOut(rules, e, calls))
  {
    forall e: Engine, calls: seq<Call>, c: Call | e.pending == [] && FramesOut(rules, e, calls) && Duplicating(rules, c)
      ensures FramesOut(rules, Begin(e, rules, c), calls + [c])
    {
      FramesGrow(rules, e, calls, c);
    }
    forall e: Engine, calls: seq<Call>, a: Action | FramesOut(rules, e, calls) && !(a.Process? && e.pending == [])
      ensures FramesOut(rules, Step(rules, e, a), calls)
    {
      StepWrites(rules, e, a);
    }
  }

  /**
   * In every run in which no rule but duplicate rules is active every frame goes out in turn, repeated, and with no
   * rule active at all exactly once.
   */
  lemma DuplicatesInTurn(rules: seq<FaultRule>, clock: real, actions: seq<Action>)
    requires forall c :: c in CallsTaken(rules, Fresh(clock), actions) ==> Duplicating(rules, c)
    ensures FramesOut(rules, Exec(rules, Fresh(clock), actions), CallsTaken(rules, Fresh(clock), actions))
  {
    FramesKept(rules);
    var good := (e: Engine, calls: seq<Call>) => FramesOut(rules, e, calls);
    assert good(Fresh(clock), []);
    RunKeepsBy(rules, c => Duplicating(rules, c), good, clock, actions);
  }
}

/**
 * The fault engine as a step system: one thread calls process, a worker releases delayed frames, and flush may run at
 * any time. A step is what one of them does while it holds a lock, or one write. Frames carry the number of the input
 * they come from, so that what becomes of every input can be accounted for.
 */
module FaultPipeline {
  import opened Bytes
  import opened FaultTypes

  datatype Frame = Frame(id: nat, payload: Payload)

  /** A queued frame: when it is due, and the reading at which it was dispatched and the rules then active for it. */
  datatype Delayed = Delayed(due: real, frame: Frame, sent: real, active: seq<FaultRule>)

  datatype Stats = Stats(forwarded: nat, dropped: nat, duplicated: nat, corrupted: nat, reordered: nat, delayed: nat)

  /** What a call to process still has to dispatch: the frame itself, the one held before it, or a second copy. */
  datatype SendKind = Itself | HeldBefore | Copy

  datatype Send = Send(kind: SendKind, frame: Frame)

  /** When a delayed frame was due, when it was popped, the frame, and how it had been dispatched. */
  datatype Release = Release(due: real, at: real, frame: Frame, sent: real, active: seq<FaultRule>)

  /** What the stages before ordering keep: the token bucket, and which streams the restart hook has fired for. */
  datatype Front = Front(bucket: Bucket, restarted: seq<string>, restarts: seq<string>)

  /**
   * What has happened so far: every input, and the numbers of the inputs that were copied and of those that were
   * lost.
   */
  datatype Ledger = Ledger(inputs: seq<Payload>, copies: multiset<nat>, lost: multiset<nat>, written: seq<Frame>,
                           releases: seq<Release>)

  /**
   * pending and active belong to the call to process in progress: what it has to dispatch, under which rules. worker
   * and flusher hold a frame popped but not yet written; clock is the last reading taken under the lock.
   */
  datatype Engine = Engine(
    front: Front, held: Option<Frame>, pending: seq<Send>, active: seq<FaultRule>,
    queue: seq<Delayed>, worker: Option<Frame>, flusher: Option<Frame>, clock: real,
    stats: Stats, ledger: Ledger)

  function Fresh(clock: real): Engine {
    Engine(Front(Bucket(0.0, 0.0), [], []), None, [], [], [], None, None, clock,
           Stats(0, 0, 0, 0, 0, 0), Ledger([], multiset{}, multiset{}, [], []))
  }

  /** One call to process; clock gives the readings its bandwidth stage takes. */
  datatype Call = Call(data: Payload, t: real, stream: string, draws: Draws, clock: nat -> real)

  // ---- the stages of process -------------------------------------------------------------------

  /** The restart hook fires for a stream once, until a frame of the stream finds no rule active. */
  function Restart(f: Front, active: seq<FaultRule>, stream: string): Front {
    if HasKind(active, ProcessRestart) && stream !in f.restarted then
      f.(restarted := f.restarted + [stream], restarts := f.restarts + [stream])
    else if active == [] then f.(restarted := Without(f.restarted, |f.restarted|, stream))
    else f
  }

  /** The first k entries, less those equal to x. */
  function Without(s: seq<string>, k: nat, x: string): seq<string>
    requires k <= |s|
    decreases k
  {
    if k == 0 then [] else Without(s, k - 1, x) + if s[k - 1] == x then [] else [s[k - 1]]
  }

  /** Disconnect and burst loss drop everything. */
  predicate Suppressed(active: seq<FaultRule>) { HasKind(active, EcuDisconnect) || HasKind(active, BurstLoss) }

  function Copies(n: nat, f: Frame): seq<Send> { seq(n, _ => Send(Copy, f)) }

  /** Hold the frame back, or send it before the one held back; without reordering send it and its copies. */
  function Ordered(e: Engine, active: seq<FaultRule>, f: Frame): Engine {
    var t := e.(active := active);
    if HasKind(active, Reorder) then
      if e.held.None? then t.(held := Some(f))
      else t.(held := None, pending := [Send(Itself, f), Send(HeldBefore, e.held.value)])
    else t.(pending := [Send(Itself, f)] + Copies(CountKind(active, |active|, Duplicate), f))
  }

  /** What gets through the dropping stages, and the state they leave. */
  datatype Passed = Passed(front: Front, passed: bool)

  function Pass(f: Front, active: seq<FaultRule>, c: Call): Passed {
    var f1 := Restart(f, active, c.stream);
    if Suppressed(active) || DropHit(active, |active|, c.draws) then Passed(f1, false)
    else
      var a := Admit(active, |active|, f1.bucket, |c.data|, c.clock);
      Passed(f1.(bucket := a.bucket), a.admitted)
  }

  /** A frame comes in and is lost, or goes on. */
  function TakeIn(e: Engine, data: Payload, lost: bool): Engine {
    var l := e.ledger.(inputs := e.ledger.inputs + [data]);
    if lost then
      e.(stats := e.stats.(dropped := e.stats.dropped + 1), ledger := l.(lost := l.lost + multiset{|e.ledger.inputs|}))
    else e.(ledger := l)
  }

  /** A frame has got through the dropping stages, and the corrupt rules have counted n corruptions. */
  function Survived(e: Engine, front: Front, data: Payload, n: nat): Engine {
    var e1 := TakeIn(e.(front := front), data, false);
    e1.(stats := e1.stats.(corrupted := e1.stats.corrupted + n))
  }

  /** What the remaining stages make of a frame, which comes out as f after n corruptions. */
  function GoOn(e: Engine, active: seq<FaultRule>, p: Passed, data: Payload, n: nat, f: Frame): Engine {
    if p.passed then Ordered(Survived(e, p.front, data, n), active, f)
    else TakeIn(e.(front := p.front), data, true)
  }

  /** Everything process does before it dispatches. */
  function Begin(e: Engine, rules: seq<FaultRule>, c: Call): Engine {
    var active := Active(rules, |rules|, c.stream, c.t);
    GoOn(e, active, Pass(e.front, active, c), c.data,
         if c.data == [] then 0 else CountKind(active, |active|, Corrupt),
         Frame(|e.ledger.inputs|, Corrupted(active, |active|, c.data, c.draws)))
  }

  function Emit(e: Engine, f: Frame): Engine {
    e.(stats := e.stats.(forwarded := e.stats.forwarded + 1), ledger := e.ledger.(written := e.ledger.written + [f]))
  }

  /** The counter that goes with a send. */
  function Counted(e: Engine, s: Send): Engine {
    match s.kind
    case Itself => e
    case HeldBefore => e.(stats := e.stats.(reordered := e.stats.reordered + 1))
    case Copy =>
      e.(stats := e.stats.(duplicated := e.stats.duplicated + 1),
         ledger := e.ledger.(copies := e.ledger.copies + multiset{s.frame.id}))
  }

  function Unpended(e: Engine): Engine
    requires e.pending != []
  {
    Counted(e.(pending := e.pending[1..]), e.pending[0])
  }

  const MILLISECOND := 1_000_000.0

  /** Write at once, or queue until the delay has passed. */
  function DispatchOrDelay(e: Engine, f: Frame, active: seq<FaultRule>, now: real): Engine {
    var delayMs := DelayMs(active, |active|);
    if delayMs <= 0.0 then Emit(e, f)
    else e.(queue := e.queue + [Delayed(now + delayMs * MILLISECOND, f, now, active)],
            stats := e.stats.(delayed := e.stats.delayed + 1), clock := now)
  }

  // ---- steps -----------------------------------------------------------------------------------

  datatype Action =
    | Process(call: Call)
    | Dispatch(now: real)
    | WorkerPop(k: nat, now: real)
    | WorkerWrite
    | FlushPop(k: nat)
    | FlushWrite

  /** A top of the priority queue: nothing queued is due before it. Equal due times leave a choice. */
  ghost predicate IsTop(queue: seq<Delayed>, k: nat) {
    k < |queue| && forall j :: 0 <= j < |queue| ==> queue[k].due <= queue[j].due
  }

  function RemoveAt<T>(s: seq<T>, k: nat): seq<T>
    requires k < |s|
  {
    s[..k] + s[k + 1..]
  }

  function Released(d: Delayed, at: real): Release { Release(d.due, at, d.frame, d.sent, d.active) }

  function Popped(e: Engine, k: nat, now: real): Engine
    requires k < |e.queue|
  {
    e.(queue := RemoveAt(e.queue, k), clock := now,
       ledger := e.ledger.(releases := e.ledger.releases + [Released(e.queue[k], now)]))
  }

  function Dispatched(e: Engine, now: real): Engine {
    if e.pending == [] || now < e.clock then e
    else DispatchOrDelay(Unpended(e), e.pending[0].frame, e.active, now)
  }

  /** The worker takes the top of the queue once it is due. */
  ghost function WorkerPopped(e: Engine, k: nat, now: real): Engine {
    if e.worker.None? && now >= e.clock && IsTop(e.queue, k) && e.queue[k].due <= now
    then Popped(e, k, now).(worker := Some(e.queue[k].frame))
    else e
  }

  function WorkerWrote(e: Engine): Engine {
    if e.worker.Some? then Emit(e.(worker := None), e.worker.value) else e
  }

  /** Flush takes the top of the queue whether it is due or not. */
  ghost function FlushPopped(e: Engine, k: nat): Engine {
    if e.flusher.None? && IsTop(e.queue, k) then Popped(e, k, e.clock).(flusher := Some(e.queue[k].frame)) else e
  }

  function FlushWrote(e: Engine): Engine {
    if e.flusher.Some? then Emit(e.(flusher := None), e.flusher.value) else e
  }

  /** An action out of turn, or with a clock reading older than the last, changes nothing. */
  ghost function Step(rules: seq<FaultRule>, e: Engine, a: Action): Engine {
    match a
    case Process(c) => if e.pending == [] then Begin(e, rules, c) else e
    case Dispatch(now) => Dispatched(e, now)
    case WorkerPop(k, now) => WorkerPopped(e, k, now)
    case WorkerWrite => WorkerWrote(e)
    case FlushPop(k) => FlushPopped(e, k)
    case FlushWrite => FlushWrote(e)
  }

  ghost function Exec(rules: seq<FaultRule>, e: Engine, actions: seq<Action>): Engine
    decreases |actions|
  {
    if actions == [] then e else Step(rules, Exec(rules, e, actions[..|actions| - 1]), actions[|actions| - 1])
  }

  // ---- the calls of a run ----------------------------------------------------------------------

  function ActiveFor(rules: seq<FaultRule>, c: Call): seq<FaultRule> { Active(rules, |rules|, c.stream, c.t) }

  /** The front state after some calls. */
  function FrontAfter(rules: seq<FaultRule>, calls: seq<Call>): Front
    decreases |calls|
  {
    if calls == [] then Front(Bucket(0.0, 0.0), [], [])
    else
      var c := calls[|calls| - 1];
      Pass(FrontAfter(rules, calls[..|calls| - 1]), ActiveFor(rules, c), c).front
  }

  /** The calls to process that a run makes: an action out of turn is none. */
  ghost function CallsTaken(rules: seq<FaultRule>, e: Engine, actions: seq<Action>): seq<Call>
    decreases |actions|
  {
    if actions == [] then []
    else
      var before, a := actions[..|actions| - 1], actions[|actions| - 1];
      CallsTaken(rules, e, before) + if a.Process? && Exec(rules, e, before).pending == [] then [a.call] else []
  }

  lemma StepFront(rules: seq<FaultRule>, e: Engine, a: Action)
    ensures Step(rules, e, a).front
            == if a.Process? && e.pending == [] then Pass(e.front, ActiveFor(rules, a.call), a.call).front else e.front
  {
  }

  /** In every run the front state is that of the calls it makes, whatever else goes on. */
  lemma {:induction false} FrontOfRun(rules: seq<FaultRule>, clock: real, actions: seq<Action>)
    ensures Exec(rules, Fresh(clock), actions).front == FrontAfter(rules, CallsTaken(rules, Fresh(clock), actions))
    decreases |actions|
  {
    if actions != [] {
      var before, a := actions[..|actions| - 1], actions[|actions| - 1];
      FrontOfRun(rules, clock, before);
      StepFront(rules, Exec(rules, Fresh(clock), before), a);
      var taken := CallsTaken(rules, Fresh(clock), before);
      if a.Process? && Exec(rules, Fresh(clock), before).pending == [] {
        assert (taken + [a.call])[..|taken|] == taken;
      } else {
        assert CallsTaken(rules, Fresh(clock), actions) == taken;
      }
    }
  }

  /** Kept by a call that is ok, with the call added to those made, and by every other step with those calls. */
  ghost predicate KeptBy(rules: seq<FaultRule>, ok: Call -> bool, good: (Engine, seq<Call>) -> bool) {
    && (forall e: Engine, calls: seq<Call>, c: Call {:trigger good(Begin(e, rules, c), calls + [c])} ::
          e.pending == [] && good(e, calls) && ok(c) ==> good(Begin(e, rules, c), calls + [c]))
    && (forall e: Engine, calls: seq<Call>, a: Action {:trigger good(Step(rules, e, a), calls)} ::
          good(e, calls) && !(a.Process? && e.pending == []) ==> good(Step(rules, e, a), calls))
  }

  lemma StepKeepsBy(rules: seq<FaultRule>, ok: Call -> bool, good: (Engine, seq<Call>) -> bool, e: Engine,
                    calls: seq<Call>, a: Action)
    requires KeptBy(rules, ok, good) && good(e, calls)
    requires a.Process? && e.pending == [] ==> ok(a.call)
    ensures good(Step(rules, e, a), if a.Process? && e.pending == [] then calls + [a.call] else calls)
  {
    if a.Process? && e.pending == [] { assert good(Begin(e, rules, a.call), calls + [a.call]); }
  }

  /** It holds of every run whose calls are all ok, and of those calls. */
  lemma {:induction false} RunKeepsBy(rules: seq<FaultRule>, ok: Call -> bool, good: (Engine, seq<Call>) -> bool,
                                      clock: real, actions: seq<Action>)
    requires KeptBy(rules, ok, good) && good(Fresh(clock), [])
    requires forall c :: c in CallsTaken(rules, Fresh(clock), actions) ==> ok(c)
    ensures good(Exec(rules, Fresh(clock), actions), CallsTaken(rules, Fresh(clock), actions))
    decreases |actions|
  {
    if actions != [] {
      var before, a := actions[..|actions| - 1], actions[|actions| - 1];
      var e, calls := Exec(rules, Fresh(clock), before), CallsTaken(rules, Fresh(clock), before);
      var all := CallsTaken(rules, Fresh(clock), actions);
      assert all == if a.Process? && e.pending == [] then calls + [a.call] else calls;
      RunKeepsBy(rules, ok, good, clock, before);
      StepKeepsBy(rules, ok, good, e, calls, a);
    }
  }

  /** What one action makes of a state. */
  type Machine = (Engine, Action) -> Engine

  ghost function Program(rules: seq<FaultRule>): Machine { (e: Engine, a: Action) => Step(rules, e, a) }

  ghost function RunOf(m: Machine, e: Engine, actions: seq<Action>): Engine
    decreases |actions|
  {
    if actions == [] then e else m(RunOf(m, e, actions[..|actions| - 1]), actions[|actions| - 1])
  }

  ghost function CallsOf(m: Machine, e: Engine, actions: seq<Action>): seq<Call>
    decreases |actions|
  {
    if actions == [] then []
    else
      var before, a := actions[..|actions| - 1], actions[|actions| - 1];
      CallsOf(m, e, before) + if a.Process? && RunOf(m, e, before).pending == [] then [a.call] else []
  }

  lemma {:induction false} ExecIsRun(rules: seq<FaultRule>, e: Engine, actions: seq<Action>)
    ensures Exec(rules, e, actions) == RunOf(Program(rules), e, actions)
    ensures CallsTaken(rules, e, actions) == CallsOf(Program(rules), e, actions)
    decreases |actions|
  {
    if actions != [] { ExecIsRun(rules, e, actions[..|actions| - 1]); }
  }

  lemma {:induction false} RunAppend(m: Machine, e: Engine, a: seq<Action>, b: seq<Action>)
    ensures RunOf(m, e, a + b) == RunOf(m, RunOf(m, e, a), b)
    ensures CallsOf(m, e, a + b) == CallsOf(m, e, a) + CallsOf(m, RunOf(m, e, a), b)
    decreases |b|
  {
    if b == [] {
      assert a + b == a;
    } else {
      RunAppend(m, e, a, b[..|b| - 1]);
      assert (a + b)[..|a + b| - 1] == a + b[..|b| - 1];
    }
  }

  lemma ExecAppend(rules: seq<FaultRule>, e: Engine, a: seq<Action>, b: seq<Action>)
    ensures Exec(rules, e, a + b) == Exec(rules, Exec(rules, e, a), b)
    ensures CallsTaken(rules, e, a + b) == CallsTaken(rules, e, a) + CallsTaken(rules, Exec(rules, e, a), b)
  {
    ExecIsRun(rules, e, a);
    ExecIsRun(rules, e, a + b);
    ExecIsRun(rules, Exec(rules, e, a), b);
    RunAppend(Program(rules), e, a, b);
  }

  /** A call's dispatches can all be made, at the clock's present reading. */
  lemma {:induction false} Drain(rules: seq<FaultRule>, e: Engine, n: nat)
    requires n <= |e.pending|
    ensures var dispatches := seq(n, _ => Dispatch(e.clock));
            && |Exec(rules, e, dispatches).pending| == |e.pending| - n && Exec(rules, e, dispatches).clock == e.clock
            && CallsTaken(rules, e, dispatches) == []
    decreases n
  {
    if n > 0 {
      Drain(rules, e, n - 1);
      var dispatches := seq(n, _ => Dispatch(e.clock));
      assert dispatches[..n - 1] == seq(n - 1, _ => Dispatch(e.clock));
      DispatchTakesOne(Exec(rules, e, dispatches[..n - 1]));
    }
  }

  lemma DispatchTakesOne(e: Engine)
    requires e.pending != []
    ensures |Dispatched(e, e.clock).pending| == |e.pending| - 1 && Dispatched(e, e.clock).clock == e.clock
  {
  }

  /** A call can be made and all of it dispatched. */
  lemma TakeCall(rules: seq<FaultRule>, e: Engine, c: Call) returns (actions: seq<Action>)
    requires e.pending == []
    ensures CallsTaken(rules, e, actions) == [c] && Exec(rules, e, actions).pending == []
  {
    var b := Begin(e, rules, c);
    var dispatches := seq(|b.pending|, _ => Dispatch(b.clock));
    OneCallTaken(rules, e, c);
    Drain(rules, b, |b.pending|);
    ExecAppend(rules, e, [Process(c)], dispatches);
    actions := [Process(c)] + dispatches;
  }

  lemma TakeAfter(rules: seq<FaultRule>, e: Engine, first: seq<Action>, c: Call) returns (actions: seq<Action>)
    requires Exec(rules, e, first).pending == []
    ensures CallsTaken(rules, e, actions) == CallsTaken(rules, e, first) + [c] && Exec(rules, e, actions).pending == []
  {
    var more := TakeCall(rules, Exec(rules, e, first), c);
    ExecAppend(rules, e, first, more);
    actions := first + more;
  }

  /** Any calls at all are the calls of some run. */
  lemma {:induction false} CallsAreTaken(rules: seq<FaultRule>, clock: real, calls: seq<Call>)
    returns (actions: seq<Action>)
    ensures CallsTaken(rules, Fresh(clock), actions) == calls && Exec(rules, Fresh(clock), actions).pending == []
    decreases |calls|
  {
    if calls == [] {
      actions := [];
      assert Exec(rules, Fresh(clock), []) == Fresh(clock);
    } else {
      var before, c := calls[..|calls| - 1], calls[|calls| - 1];
      var first := CallsAreTaken(rules, clock, before);
      actions := TakeAfter(rules, Fresh(clock), first, c);
      assert calls == before + [c];
    }
  }

  lemma OneCallTaken(rules: seq<FaultRule>, e: Engine, c: Call)
    requires e.pending == []
    ensures Exec(rules, e, [Process(c)]) == Begin(e, rules, c) && CallsTaken(rules, e, [Process(c)]) == [c]
  {
    assert [Process(c)][..0] == [];
  }

  // ---- conservation ----------------------------------------------------------------------------

  /** The numbers of the first n inputs. */
  function Numbers(n: nat): (m: multiset<nat>)
    ensures |m| == n
    decreases n
  {
    if n == 0 then multiset{} else Numbers(n - 1) + multiset{n - 1}
  }

  function One(f: Option<Frame>): multiset<nat> {
    if f.Some? then multiset{f.value.id} else multiset{}
  }

  function Ids(frames: seq<Frame>): (m: multiset<nat>)
    ensures |m| == |frames|
    decreases |frames|
  {
    if frames == [] then multiset{} else Ids(frames[..|frames| - 1]) + multiset{frames[|frames| - 1].id}
  }

  function QueuedIds(queue: seq<Delayed>): (m: multiset<nat>)
    ensures |m| == |queue|
    decreases |queue|
  {
    if queue == [] then multiset{} else QueuedIds(queue[..|queue| - 1]) + multiset{queue[|queue| - 1].frame.id}
  }

  /** Copies count once they have been dispatched. */
  function PendingIds(pending: seq<Send>): multiset<nat>
    decreases |pending|
  {
    if pending == [] then multiset{}
    else PendingIds(pending[1..]) + if pending[0].kind == Copy then multiset{} else multiset{pending[0].frame.id}
  }

  /** What is still inside the engine. */
  function Inside(e: Engine): multiset<nat> {
    One(e.held) + PendingIds(e.pending) + QueuedIds(e.queue) + One(e.worker) + One(e.flusher)
  }

  /** Number by number: what came in and what was copied is what was written, what was lost and what is inside. */
  ghost predicate Balanced(given: multiset<nat>, copies: multiset<nat>, written: multiset<nat>, lost: multiset<nat>,
                           inside: multiset<nat>)
  {
    forall n: nat :: given[n] + copies[n] == written[n] + lost[n] + inside[n]
  }

  lemma BalanceKept(given: multiset<nat>, copies: multiset<nat>, written: multiset<nat>, lost: multiset<nat>,
                    inside: multiset<nat>, x: multiset<nat>)
    ensures Balanced(given, copies, written, lost, inside) ==>
              && Balanced(given + x, copies, written, lost + x, inside)
              && Balanced(given + x, copies, written, lost, inside + x)
              && Balanced(given, copies + x, written, lost, inside + x)
              && Balanced(given, copies + x, written + x, lost, inside)
    ensures Balanced(given, copies, written, lost, inside + x) ==> Balanced(given, copies, written + x, lost, inside)
  {
  }

  /** Every input and every copy has been written, has been dropped, or is still inside. */
  ghost predicate Conserved(e: Engine) { BalancedWith(e, Inside(e)) }

  ghost predicate BalancedWith(e: Engine, inside: multiset<nat>) {
    Balanced(Numbers(|e.ledger.inputs|), e.ledger.copies, Ids(e.ledger.written), e.ledger.lost, inside)
  }

  ghost predicate Counters(e: Engine) {
    && e.stats.forwarded == |e.ledger.written| && e.stats.dropped == |e.ledger.lost|
    && e.stats.duplicated == |e.ledger.copies|
  }

  lemma {:induction false} CopiesAreNotCounted(n: nat, f: Frame)
    ensures PendingIds(Copies(n, f)) == multiset{}
    decreases n
  {
    if n > 0 {
      assert Copies(n, f)[1..] == Copies(n - 1, f);
      CopiesAreNotCounted(n - 1, f);
    }
  }

  lemma PendingOfFirst(s: Send, rest: seq<Send>)
    ensures PendingIds([s] + rest) == PendingIds(rest) + if s.kind == Copy then multiset{} else multiset{s.frame.id}
  {
    assert ([s] + rest)[1..] == rest;
  }

  lemma QueueLast(queue: seq<Delayed>, d: Delayed)
    ensures QueuedIds(queue + [d]) == QueuedIds(queue) + multiset{d.frame.id}
  {
    assert (queue + [d])[..|queue + [d]| - 1] == queue;
  }

  lemma {:induction false} QueueWithout(queue: seq<Delayed>, k: nat)
    requires k < |queue|
    ensures QueuedIds(queue) == QueuedIds(RemoveAt(queue, k)) + multiset{queue[k].frame.id}
    decreases |queue|
  {
    var n := |queue| - 1;
    var init, last := queue[..n], queue[n];
    if k == n {
      assert RemoveAt(queue, k) == init;
    } else {
      QueueWithout(init, k);
      assert RemoveAt(queue, k) == RemoveAt(init, k) + [last];
      QueueLast(RemoveAt(init, k), last);
    }
  }

  /** What is inside changes with what the first two places hold. */
  lemma FirstPlaces(e: Engine, t: Engine, x: multiset<nat>)
    requires One(t.held) + PendingIds(t.pending) == One(e.held) + PendingIds(e.pending) + x
    requires t.queue == e.queue && t.worker == e.worker && t.flusher == e.flusher
    ensures Inside(t) == Inside(e) + x
  {
    var a, b := One(e.held) + PendingIds(e.pending), QueuedIds(e.queue);
    assert (a + x) + b == (a + b) + x;
    var c := One(e.worker);
    assert (a + b) + x + c == (a + b + c) + x;
    var d := One(e.flusher);
    assert (a + b + c) + x + d == (a + b + c + d) + x;
  }

  /** What comes out of the ordering stage is what went in and the new frame. */
  lemma OrderedConserves(e: Engine, active: seq<FaultRule>, f: Frame)
    requires e.pending == []
    ensures var o := Ordered(e, active, f);
            Inside(o) == Inside(e) + multiset{f.id} && o.ledger == e.ledger && o.stats == e.stats
  {
    var o := Ordered(e, active, f);
    assert PendingIds(e.pending) == multiset{};
    if !HasKind(active, Reorder) {
      var n := CountKind(active, |active|, Duplicate);
      PendingOfFirst(Send(Itself, f), Copies(n, f));
      CopiesAreNotCounted(n, f);
    } else if e.held.Some? {
      PendingOfTwo(f, e.held.value);
    }
    assert One(o.held) + PendingIds(o.pending) == One(e.held) + PendingIds(e.pending) + multiset{f.id};
    FirstPlaces(e, o, multiset{f.id});
  }

  lemma PendingOfTwo(f: Frame, g: Frame)
    ensures PendingIds([Send(Itself, f), Send(HeldBefore, g)]) == multiset{g.id} + multiset{f.id}
  {
    PendingOfFirst(Send(Itself, f), [Send(HeldBefore, g)]);
    PendingOfFirst(Send(HeldBefore, g), []);
    assert [Send(HeldBefore, g)] + [] == [Send(HeldBefore, g)];
    assert [Send(Itself, f)] + [Send(HeldBefore, g)] == [Send(Itself, f), Send(HeldBefore, g)];
  }

  /** Conservation, and the counters that go with it. */
  ghost predicate Accounted(e: Engine) { Conserved(e) && Counters(e) }

  lemma TakeInConserves(e: Engine, data: Payload, lost: bool)
    requires Accounted(e)
    ensures var t := TakeIn(e, data, lost);
            && Counters(t) && Inside(t) == Inside(e)
            && BalancedWith(t, if lost then Inside(e) else Inside(e) + multiset{|e.ledger.inputs|})
  {
    var t := TakeIn(e, data, lost);
    var n := |e.ledger.inputs|;
    assert |t.ledger.inputs| == n + 1 && Numbers(n + 1) == Numbers(n) + multiset{n};
    BalanceKept(Numbers(n), e.ledger.copies, Ids(e.ledger.written), e.ledger.lost, Inside(e), multiset{n});
  }

  lemma OrderedAccounted(e: Engine, active: seq<FaultRule>, f: Frame)
    requires e.pending == [] && Counters(e) && BalancedWith(e, Inside(e) + multiset{f.id})
    ensures Accounted(Ordered(e, active, f))
  {
    OrderedConserves(e, active, f);
  }

  lemma SurvivedAccount(e: Engine, front: Front, data: Payload, n: nat)
    requires e.pending == [] && Accounted(e)
    ensures var t := Survived(e, front, data, n);
            t.pending == [] && Counters(t) && BalancedWith(t, Inside(t) + multiset{|e.ledger.inputs|})
  {
    var e0 := e.(front := front);
    assert Inside(e0) == Inside(e);
    TakeInConserves(e0, data, false);
    assert Inside(Survived(e, front, data, n)) == Inside(TakeIn(e0, data, false));
  }

  lemma LostAccount(e: Engine, front: Front, data: Payload)
    requires Accounted(e)
    ensures Accounted(TakeIn(e.(front := front), data, true))
  {
    var e0 := e.(front := front);
    assert Inside(e0) == Inside(e);
    TakeInConserves(e0, data, true);
  }

  lemma GoOnConserves(e: Engine, active: seq<FaultRule>, p: Passed, data: Payload, n: nat, f: Frame)
    requires e.pending == [] && Accounted(e) && f.id == |e.ledger.inputs|
    ensures Accounted(GoOn(e, active, p, data, n, f))
  {
    if p.passed {
      SurvivedAccount(e, p.front, data, n);
      OrderedAccounted(Survived(e, p.front, data, n), active, f);
    } else {
      LostAccount(e, p.front, data);
    }
  }

  lemma BeginConserves(rules: seq<FaultRule>, e: Engine, c: Call)
    requires e.pending == [] && Accounted(e)
    ensures Accounted(Begin(e, rules, c))
  {
    var active := Active(rules, |rules|, c.stream, c.t);
    GoOnConserves(e, active, Pass(e.front, active, c), c.data,
                  if c.data == [] then 0 else CountKind(active, |active|, Corrupt),
                  Frame(|e.ledger.inputs|, Corrupted(active, |active|, c.data, c.draws)));
  }

  lemma EmitConserves(e: Engine, f: Frame)
    requires Counters(e) && BalancedWith(e, Inside(e) + multiset{f.id})
    ensures Accounted(Emit(e, f))
  {
    var w := e.ledger.written;
    assert (w + [f])[..|w + [f]| - 1] == w;
    assert Inside(Emit(e, f)) == Inside(e);
    BalanceKept(Numbers(|e.ledger.inputs|), e.ledger.copies, Ids(w), e.ledger.lost, Inside(e), multiset{f.id});
  }

  lemma DispatchOrDelayConserves(e: Engine, f: Frame, active: seq<FaultRule>, now: real)
    requires Counters(e) && BalancedWith(e, Inside(e) + multiset{f.id})
    ensures Accounted(DispatchOrDelay(e, f, active, now))
  {
    var delayMs := DelayMs(active, |active|);
    if delayMs <= 0.0 {
      EmitConserves(e, f);
    } else {
      var t := DispatchOrDelay(e, f, active, now);
      QueueLast(e.queue, t.queue[|e.queue|]);
      assert Inside(t) == Inside(e) + multiset{f.id};
    }
  }

  lemma UnpendedInside(e: Engine)
    requires e.pending != []
    ensures Inside(e)
            == Inside(Unpended(e)) + if e.pending[0].kind == Copy then multiset{} else multiset{e.pending[0].frame.id}
  {
    var s, t := e.pending[0], Unpended(e);
    var x := if s.kind == Copy then multiset{} else multiset{s.frame.id};
    assert t.pending == e.pending[1..] && t.held == e.held;
    assert PendingIds(e.pending) == PendingIds(t.pending) + x;
    assert One(e.held) + (PendingIds(t.pending) + x) == One(e.held) + PendingIds(t.pending) + x;
    FirstPlaces(t, e, x);
  }

  lemma CopyAccount(e: Engine, t: Engine, id: nat)
    requires Accounted(e) && Inside(t) == Inside(e)
    requires t.ledger == e.ledger.(copies := e.ledger.copies + multiset{id})
    requires t.stats.forwarded == e.stats.forwarded && t.stats.dropped == e.stats.dropped
    requires t.stats.duplicated == e.stats.duplicated + 1
    ensures Counters(t) && BalancedWith(t, Inside(t) + multiset{id})
  {
    BalanceKept(Numbers(|e.ledger.inputs|), e.ledger.copies, Ids(e.ledger.written), e.ledger.lost, Inside(e),
                multiset{id});
  }

  lemma SameAccount(e: Engine, t: Engine, inside: multiset<nat>)
    requires Accounted(e) && Inside(e) == inside && t.ledger == e.ledger
    requires t.stats.forwarded == e.stats.forwarded && t.stats.dropped == e.stats.dropped
    requires t.stats.duplicated == e.stats.duplicated
    ensures Counters(t) && BalancedWith(t, inside)
  {
  }

  /** A copy comes into being when it is dispatched; anything else was inside before. */
  lemma UnpendedAccount(e: Engine)
    requires e.pending != [] && Accounted(e)
    ensures var t := Unpended(e); Counters(t) && BalancedWith(t, Inside(t) + multiset{e.pending[0].frame.id})
  {
    var s, t := e.pending[0], Unpended(e);
    UnpendedInside(e);
    if s.kind == Copy {
      CopyAccount(e, t, s.frame.id);
    } else {
      SameAccount(e, t, Inside(t) + multiset{s.frame.id});
    }
  }

  lemma PoppedInside(e: Engine, k: nat, now: real)
    requires k < |e.queue|
    ensures var p := Popped(e, k, now);
            && Inside(e) == Inside(p) + multiset{e.queue[k].frame.id}
            && p.ledger == e.ledger.(releases := p.ledger.releases)
  {
    QueueWithout(e.queue, k);
  }

  /** What is inside with the worker's or the flusher's hands full instead of empty. */
  lemma HandsFull(e: Engine, f: Frame)
    ensures e.worker.None? ==> Inside(e.(worker := Some(f))) == Inside(e) + multiset{f.id}
    ensures e.flusher.None? ==> Inside(e.(flusher := Some(f))) == Inside(e) + multiset{f.id}
  {
  }

  lemma WorkerPoppedConserves(e: Engine, k: nat, now: real)
    requires Accounted(e)
    ensures Accounted(WorkerPopped(e, k, now))
  {
    if e.worker.None? && IsTop(e.queue, k) {
      var f := e.queue[k].frame;
      var p := Popped(e, k, now);
      PoppedInside(e, k, now);
      HandsFull(p, f);
      PopAccount(e, p.(worker := Some(f)));
    }
  }

  lemma FlushPoppedConserves(e: Engine, k: nat)
    requires Accounted(e)
    ensures Accounted(FlushPopped(e, k))
  {
    if e.flusher.None? && IsTop(e.queue, k) {
      var f := e.queue[k].frame;
      var p := Popped(e, k, e.clock);
      PoppedInside(e, k, e.clock);
      HandsFull(p, f);
      PopAccount(e, p.(flusher := Some(f)));
    }
  }

  lemma PopAccount(e: Engine, t: Engine)
    requires Accounted(e) && Inside(t) == Inside(e) && t.stats == e.stats
    requires t.ledger == e.ledger.(releases := t.ledger.releases)
    ensures Accounted(t)
  {
  }

  lemma WorkerWroteConserves(e: Engine)
    requires Accounted(e)
    ensures Accounted(WorkerWrote(e))
  {
    if e.worker.Some? {
      var t := e.(worker := None);
      assert Inside(e) == Inside(t) + multiset{e.worker.value.id};
      EmitConserves(t, e.worker.value);
    }
  }

  lemma FlushWroteConserves(e: Engine)
    requires Accounted(e)
    ensures Accounted(FlushWrote(e))
  {
    if e.flusher.Some? {
      var t := e.(flusher := None);
      assert Inside(e) == Inside(t) + multiset{e.flusher.value.id};
      EmitConserves(t, e.flusher.value);
    }
  }

  lemma DispatchedConserves(e: Engine, now: real)
    requires Accounted(e)
    ensures Accounted(Dispatched(e, now))
  {
    if e.pending != [] {
      UnpendedAccount(e);
      DispatchOrDelayConserves(Unpended(e), e.pending[0].frame, e.active, now);
    }
  }

  /** What every kind of step keeps. */
  ghost predicate Kept(rules: seq<FaultRule>, good: Engine -> bool) {
    && (forall e: Engine, c: Call {:trigger Begin(e, rules, c)} ::
          e.pending == [] && good(e) ==> good(Begin(e, rules, c)))
    && (forall e: Engine, now: real {:trigger Dispatched(e, now)} :: good(e) ==> good(Dispatched(e, now)))
    && (forall e: Engine, k: nat, now: real {:trigger WorkerPopped(e, k, now)} ::
          good(e) ==> good(WorkerPopped(e, k, now)))
    && (forall e: Engine {:trigger WorkerWrote(e)} :: good(e) ==> good(WorkerWrote(e)))
    && (forall e: Engine, k: nat {:trigger FlushPopped(e, k)} :: good(e) ==> good(FlushPopped(e, k)))
    && (forall e: Engine {:trigger FlushWrote(e)} :: good(e) ==> good(FlushWrote(e)))
  }

  /** What every step keeps holds in every run that starts with it. */
  lemma {:induction false} RunKeeps(rules: seq<FaultRule>, good: Engine -> bool, e: Engine, actions: seq<Action>)
    requires Kept(rules, good) && good(e)
    ensures good(Exec(rules, e, actions))
    decreases |actions|
  {
    if actions != [] {
      var before := Exec(rules, e, actions[..|actions| - 1]);
      RunKeeps(rules, good, e, actions[..|actions| - 1]);
      assert good(Step(rules, before, actions[|actions| - 1]));
    }
  }

  /** Every step keeps the account of inputs and copies, and the counters that go with it. */
  lemma AccountKept(rules: seq<FaultRule>)
    ensures Kept(rules, e => Accounted(e))
  {
    forall e: Engine, c: Call | e.pending == [] && Accounted(e) ensures Accounted(Begin(e, rules, c)) {
      BeginConserves(rules, e, c);
    }
    forall e: Engine, now: real | Accounted(e) ensures Accounted(Dispatched(e, now)) { DispatchedConserves(e, now); }
    forall e: Engine, k: nat, now: real | Accounted(e) ensures Accounted(WorkerPopped(e, k, now)) {
      WorkerPoppedConserves(e, k, now);
    }
    forall e: Engine | Accounted(e) ensures Accounted(WorkerWrote(e)) { WorkerWroteConserves(e); }
    forall e: Engine, k: nat | Accounted(e) ensures Accounted(FlushPopped(e, k)) { FlushPoppedConserves(e, k); }
    forall e: Engine | Accounted(e) ensures Accounted(FlushWrote(e)) { FlushWroteConserves(e); }
  }

  lemma RunConserves(rules: seq<FaultRule>, clock: real, actions: seq<Action>)
    ensures Accounted(Exec(rules, Fresh(clock), actions))
  {
    AccountKept(rules);
    var good := (e: Engine) => Accounted(e);
    assert good(Fresh(clock));
    RunKeeps(rules, good, Fresh(clock), actions);
  }
}

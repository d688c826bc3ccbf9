/**
 * The fault engine's class: what process, one pass of the worker and flush do to its fields, as steps of the
 * pipeline.
 */
module FaultEngines {
  import opened Bytes
  import opened FaultTypes
  import opened FaultPipeline
  import opened FaultRuns

  /** One dispatch of a call to process. */
  function SendNext(e: Engine, now: real): Engine {
    if e.pending == [] then e
    else FaultPipeline.DispatchOrDelay(Unpended(e), e.pending[0].frame, e.active, now)
  }

  /** The first n dispatches of a call to process; now gives their clock readings. */
  function Sent(e: Engine, now: nat -> real, n: nat): Engine
    decreases n
  {
    if n == 0 then e else SendNext(Sent(e, now, n - 1), now(n - 1))
  }

  ghost predicate NextSent(states: nat -> Engine, now: nat -> real, k: nat) {
    states(k + 1) == SendNext(states(k), now(k))
  }

  /** Every state comes from the one before by a dispatch. */
  ghost predicate Sends(states: nat -> Engine, now: nat -> real) { forall k: nat :: NextSent(states, now, k) }

  lemma SentSends(e: Engine, now: nat -> real)
    ensures Sends((k: nat) => Sent(e, now, k), now)
  {
    var states := (k: nat) => Sent(e, now, k);
    forall k: nat ensures NextSent(states, now, k) {
      assert Sent(e, now, k + 1) == SendNext(Sent(e, now, k), now(k));
    }
  }

  function AllSent(e: Engine, now: nat -> real): Engine { Sent(e, now, |e.pending|) }

  class FaultEngine {
    var rules: seq<FaultRule>
    var hasHeld: bool
    var held: Frame
    var tokens: real
    var lastRefill: real
    var restarted: seq<string>
    var delayed: seq<Delayed>
    var stats: Stats
    /** Numbers the inputs. */
    var received: nat

    ghost var restarts: seq<string>
    ghost var pending: seq<Send>
    ghost var pendingActive: seq<FaultRule>
    ghost var clock: real
    ghost var ledger: Ledger

    ghost predicate Valid()
      reads this
    {
      received == |ledger.inputs|
    }

    ghost function State(): Engine
      reads this
    {
      Engine(Front(Bucket(tokens, lastRefill), restarted, restarts), if hasHeld then Some(held) else None,
             pending, pendingActive, delayed, None, None, clock, stats, ledger)
    }

    constructor (ghost now: real)
      ensures Valid() && State() == Fresh(now) && rules == []
    {
      rules := [];
      hasHeld, held := false, Frame(0, []);
      tokens, lastRefill := 0.0, 0.0;
      restarted, delayed := [], [];
      stats := Stats(0, 0, 0, 0, 0, 0);
      received := 0;
      restarts, pending, pendingActive, clock := [], [], [], now;
      ledger := Ledger([], multiset{}, multiset{}, [], []);
    }

    method AddRule(r: FaultRule)
      modifies this`rules
      ensures rules == old(rules) + [r]
    {
      rules := rules + [r];
    }

    method Emit(f: Frame)
      modifies this`stats, this`ledger
      ensures State() == FaultPipeline.Emit(old(State()), f)
    {
      ledger := ledger.(written := ledger.written + [f]);
      stats := stats.(forwarded := stats.forwarded + 1);
    }

    method ActiveRules(stream: string, t: real) returns (active: seq<FaultRule>)
      ensures active == Active(rules, |rules|, stream, t)
    {
      active := [];
      for i := 0 to |rules|
        invariant active == Active(rules, i, stream, t)
      {
        if Matches(rules[i], stream) && ActiveAt(rules[i], t) {
          active := active + [rules[i]];
        }
      }
    }

    /** The restart hook and its edge tracking. */
    method TrackRestart(active: seq<FaultRule>, stream: string)
      modifies this`restarted, this`restarts
      ensures State().front == Restart(old(State()).front, active, stream)
    {
      for i := 0 to |active|
        invariant if HasKind(active[..i], ProcessRestart) && stream !in old(restarted)
                  then restarted == old(restarted) + [stream] && restarts == old(restarts) + [stream]
                  else restarted == old(restarted) && restarts == old(restarts)
      {
        assert HasKind(active[..i + 1], ProcessRestart)
               <==> HasKind(active[..i], ProcessRestart) || active[i].kind == ProcessRestart by {
          PrefixHasKind(active, i, ProcessRestart);
        }
        if active[i].kind == ProcessRestart && stream !in restarted {
          restarted := restarted + [stream];
          restarts := restarts + [stream];
        }
      }
      assert active[..|active|] == active;
      if active == [] {
        var kept := [];
        for i := 0 to |restarted|
          invariant kept == Without(restarted, i, stream)
        {
          if restarted[i] != stream {
            kept := kept + [restarted[i]];
          }
        }
        restarted := kept;
      }
    }

    /** One bandwidth rule's claim on the token bucket. */
    method TakeTokens(r: FaultRule, now: real, size: nat) returns (admitted: bool)
      modifies this`tokens, this`lastRefill
      ensures Admission(Bucket(tokens, lastRefill), admitted)
              == Take(old(Bucket(tokens, lastRefill)), LimitOf(r), now, size)
    {
      var cap := r.bandwidthKbps * 1000.0 / 8.0;
      if lastRefill == 0.0 {
        lastRefill := now;
        tokens := cap;
      }
      var elapsed := (now - lastRefill) / SECOND;
      tokens := Min(cap, tokens + elapsed * cap);
      lastRefill := now;
      if tokens < size as real {
        return false;
      }
      tokens := tokens - size as real;
      return true;
    }

    /** Every bandwidth rule in turn, until one is over budget. */
    method AdmitBytes(active: seq<FaultRule>, size: nat, clock: nat -> real) returns (admitted: bool)
      modifies this`tokens, this`lastRefill
      ensures Admission(Bucket(tokens, lastRefill), admitted)
              == Admit(active, |active|, old(Bucket(tokens, lastRefill)), size, clock)
    {
      admitted := true;
      for i := 0 to |active|
        invariant Admission(Bucket(tokens, lastRefill), admitted)
                  == Admit(active, i, old(Bucket(tokens, lastRefill)), size, clock)
      {
        if admitted && active[i].kind == BandwidthLimit && active[i].bandwidthKbps > 0.0 {
          admitted := TakeTokens(active[i], clock(i), size);
        }
      }
    }

    /** Disconnect, burst loss and the probabilistic drops. */
    method DropsFrame(active: seq<FaultRule>, draws: Draws) returns (drop: bool)
      ensures drop <==> Suppressed(active) || DropHit(active, |active|, draws)
    {
      for i := 0 to |active|
        invariant forall j :: 0 <= j < i ==> active[j].kind != EcuDisconnect && active[j].kind != BurstLoss
      {
        if active[i].kind == EcuDisconnect || active[i].kind == BurstLoss {
          return true;
        }
      }
      for i := 0 to |active|
        invariant !DropHit(active, i, draws)
      {
        if active[i].kind == Drop && active[i].dropRate > 0.0 && draws.uniform(i) < active[i].dropRate {
          return true;
        }
      }
      return false;
    }

    /** Random bit flips, rule by rule. */
    method CorruptBits(active: seq<FaultRule>, data: Payload, draws: Draws) returns (payload: Payload)
      modifies this`stats
      ensures payload == Corrupted(active, |active|, data, draws)
      ensures var n := if data == [] then 0 else CountKind(active, |active|, Corrupt);
              stats == old(stats).(corrupted := old(stats).corrupted + n)
    {
      payload := data;
      for i := 0 to |active|
        invariant payload == Corrupted(active, i, data, draws)
        invariant var n := if data == [] then 0 else CountKind(active, i, Corrupt);
                  stats == old(stats).(corrupted := old(stats).corrupted + n)
      {
        if active[i].kind == Corrupt && payload != [] {
          ghost var before := payload;
          for j := 0 to active[i].corruptBits
            invariant payload == Flips(before, i, j, draws) && |payload| == |before|
          {
            var at := draws.position(i, j) % |payload|;
            payload := payload[at := FlipBit(payload[at], draws.bit(i, j) % 8)];
          }
          stats := stats.(corrupted := stats.corrupted + 1);
        }
      }
    }

    method LongestDelay(active: seq<FaultRule>) returns (delayMs: real)
      ensures delayMs == DelayMs(active, |active|)
    {
      delayMs := 0.0;
      for i := 0 to |active|
        invariant delayMs == DelayMs(active, i)
      {
        if active[i].kind == Delay {
          delayMs := Max(delayMs, active[i].delayMs);
        }
      }
    }

    method DispatchOrDelay(f: Frame, active: seq<FaultRule>, now: real)
      modifies this`delayed, this`stats, this`ledger, this`clock
      ensures State() == FaultPipeline.DispatchOrDelay(old(State()), f, active, now)
    {
      var delayMs := LongestDelay(active);
      if delayMs <= 0.0 {
        Emit(f);
        return;
      }
      delayed := delayed + [Delayed(now + delayMs * MILLISECOND, f, now, active)];
      clock := now;
      stats := stats.(delayed := stats.delayed + 1);
    }

    /** One send out of the pending ones: the frame goes out, then its counter is bumped. */
    method SendFirst(active: seq<FaultRule>, kind: SendKind, f: Frame, now: real)
      requires pending != [] && pending[0] == Send(kind, f) && pendingActive == active
      modifies this`delayed, this`stats, this`ledger, this`clock, this`pending
      ensures State() == SendNext(old(State()), now)
      ensures pending == old(pending)[1..] && ledger.inputs == old(ledger.inputs)
    {
      ghost var e := State();
      pending := pending[1..];
      DispatchOrDelay(f, active, now);
      match kind
      case Itself =>
      case HeldBefore =>
        stats := stats.(reordered := stats.reordered + 1);
      case Copy =>
        stats := stats.(duplicated := stats.duplicated + 1);
        ledger := ledger.(copies := ledger.copies + multiset{f.id});
    }

    method Reorders(active: seq<FaultRule>) returns (reorder: bool)
      ensures reorder <==> HasKind(active, Reorder)
    {
      reorder := false;
      for i := 0 to |active|
        invariant reorder <==> exists j :: 0 <= j < i && active[j].kind == Reorder
      {
        if active[i].kind == Reorder {
          reorder := true;
        }
      }
    }

    /** The reorder stage, and the dispatches of the frame and its copies. */
    method SendFrame(active: seq<FaultRule>, f: Frame, now: nat -> real)
      requires pending == []
      modifies this`hasHeld, this`held, this`delayed, this`stats, this`ledger, this`clock, this`pending,
               this`pendingActive
      ensures pending == [] && ledger.inputs == old(ledger.inputs)
      ensures State() == AllSent(Ordered(old(State()), active, f), now)
    {
      ghost var ordered := Ordered(State(), active, f);
      var reorder := Reorders(active);
      pendingActive := active;
      if !reorder {
        pending := [Send(Itself, f)] + Copies(CountKind(active, |active|, Duplicate), f);
        assert State() == ordered;
        SendWithCopies(active, f, now);
      } else if !hasHeld {
        hasHeld := true;
        held := f;
        assert State() == ordered;
      } else {
        var prev := held;
        hasHeld := false;
        pending := [Send(Itself, f), Send(HeldBefore, prev)];
        assert State() == ordered;
        SendSwapped(active, f, prev, now);
      }
    }

    /** The new frame first, then the one held back. */
    method SendSwapped(active: seq<FaultRule>, current: Frame, prev: Frame, now: nat -> real)
      requires pending == [Send(Itself, current), Send(HeldBefore, prev)] && pendingActive == active
      modifies this`delayed, this`stats, this`ledger, this`clock, this`pending
      ensures pending == [] && ledger.inputs == old(ledger.inputs)
      ensures State() == Sent(old(State()), now, 2)
    {
      SendFirst(active, Itself, current, now(0));
      assert State() == Sent(old(State()), now, 1);
      SendFirst(active, HeldBefore, prev, now(1));
    }

    /** The frame and then its copies, one for every duplicate rule. */
    method SendWithCopies(active: seq<FaultRule>, f: Frame, now: nat -> real)
      requires pending == [Send(Itself, f)] + Copies(CountKind(active, |active|, Duplicate), f)
      requires pendingActive == active
      modifies this`delayed, this`stats, this`ledger, this`clock, this`pending
      ensures pending == [] && ledger.inputs == old(ledger.inputs)
      ensures State() == Sent(old(State()), now, 1 + CountKind(active, |active|, Duplicate))
    {
      ghost var e := State();
      ghost var states := (k: nat) => Sent(e, now, k);
      SentSends(e, now);
      SendFirst(active, Itself, f, now(0));
      assert pending == Copies(CountKind(active, |active|, Duplicate), f);
      assert State() == Sent(e, now, 1);
      SendCopies(states, active, f, now);
    }

    /** The next copy, when `sent` dispatches of the call are done and n copies are left. */
    method SendCopy(ghost states: nat -> Engine, active: seq<FaultRule>, f: Frame, now: nat -> real, sent: nat,
                    ghost n: nat)
      requires n > 0 && pending == Copies(n, f) && Sends(states, now)
      requires pendingActive == active && State() == states(sent)
      modifies this`delayed, this`stats, this`ledger, this`clock, this`pending
      ensures pending == Copies(n - 1, f) && ledger.inputs == old(ledger.inputs)
      ensures State() == states(sent + 1)
    {
      FirstCopy(n, f);
      assert NextSent(states, now, sent);
      SendFirst(active, Copy, f, now(sent));
    }

    /** The copies; states lists the states of the call, dispatch by dispatch. */
    method SendCopies(ghost states: nat -> Engine, active: seq<FaultRule>, f: Frame, now: nat -> real)
      requires pending == Copies(CountKind(active, |active|, Duplicate), f) && Sends(states, now)
      requires pendingActive == active && State() == states(1)
      modifies this`delayed, this`stats, this`ledger, this`clock, this`pending
      ensures pending == [] && ledger.inputs == old(ledger.inputs)
      ensures State() == states(1 + CountKind(active, |active|, Duplicate))
    {
      ghost var total := CountKind(active, |active|, Duplicate);
      var sent := 1;
      for i := 0 to |active|
        invariant sent == 1 + CountKind(active, i, Duplicate) <= 1 + total
        invariant pending == Copies(total + 1 - sent, f)
        invariant ledger.inputs == old(ledger.inputs)
        invariant State() == states(sent)
      {
        CountGrows(active, i + 1, Duplicate);
        if active[i].kind == Duplicate {
          SendCopy(states, active, f, now, sent, total + 1 - sent);
          sent := sent + 1;
        }
      }
    }

    /** A frame is numbered, and counted as dropped if it is lost. */
    method Receive(data: Payload, lost: bool) returns (id: nat)
      requires Valid()
      modifies this`received, this`stats, this`ledger
      ensures Valid() && id == |old(ledger.inputs)|
      ensures State() == TakeIn(old(State()), data, lost)
    {
      id := received;
      received := received + 1;
      ledger := ledger.(inputs := ledger.inputs + [data]);
      if lost {
        ledger := ledger.(lost := ledger.lost + multiset{id});
        stats := stats.(dropped := stats.dropped + 1);
      }
    }

    /** What gets past the dropping stages is corrupted, ordered and sent. */
    method GoOn(active: seq<FaultRule>, c: Call, now: nat -> real)
      requires Valid() && pending == []
      modifies this`received, this`stats, this`ledger, this`hasHeld, this`held, this`delayed, this`clock, this`pending,
               this`pendingActive
      ensures Valid() && pending == []
      ensures var e := old(State());
              var n := if c.data == [] then 0 else CountKind(active, |active|, Corrupt);
              var f := Frame(|e.ledger.inputs|, Corrupted(active, |active|, c.data, c.draws));
              State() == AllSent(Ordered(Survived(e, e.front, c.data, n), active, f), now)
    {
      ghost var e := State();
      var id := Receive(c.data, false);
      var payload := CorruptData(e, active, c);
      SendFrame(active, Frame(id, payload), now);
    }

    /** The corruption stage, for a frame just received in state e. */
    method CorruptData(ghost e: Engine, active: seq<FaultRule>, c: Call) returns (payload: Payload)
      requires State() == TakeIn(e, c.data, false)
      modifies this`stats
      ensures payload == Corrupted(active, |active|, c.data, c.draws)
      ensures State() == Survived(e, e.front, c.data, if c.data == [] then 0 else CountKind(active, |active|, Corrupt))
    {
      assert e.(front := e.front) == e;
      payload := CorruptBits(active, c.data, c.draws);
    }

    /** The stages that may drop the frame. */
    method Screen(active: seq<FaultRule>, c: Call) returns (passed: bool)
      modifies this`restarted, this`restarts, this`tokens, this`lastRefill
      ensures Passed(State().front, passed) == Pass(old(State()).front, active, c)
    {
      TrackRestart(active, c.stream);
      var drop := DropsFrame(active, c.draws);
      if drop {
        return false;
      }
      passed := AdmitBytes(active, |c.data|, c.clock);
    }

    /** The front half of a call runs through its stages, and the dispatches follow. */
    method Process(c: Call, now: nat -> real)
      requires Valid() && pending == []
      modifies this
      ensures Valid() && pending == [] && rules == old(rules)
      ensures State() == AllSent(Begin(old(State()), rules, c), now)
    {
      ghost var e := State();
      var active := ActiveRules(c.stream, c.t);
      var passed := Screen(active, c);
      ghost var e1 := State();
      assert e1 == e.(front := e1.front);
      BeginIs(e, rules, c, Passed(e1.front, passed));
      if passed {
        GoOn(active, c, now);
      } else {
        var id := Receive(c.data, true);
        assert State().pending == [];
      }
    }

    /** The entry the priority queue has on top. */
    method Top() returns (k: nat)
      requires delayed != []
      ensures IsTop(delayed, k)
    {
      k := 0;
      for i := 1 to |delayed|
        invariant k < i && forall j :: 0 <= j < i ==> delayed[k].due <= delayed[j].due
      {
        if delayed[i].due < delayed[k].due {
          k := i;
        }
      }
    }

    /** One pass of the worker's loop: it pops and writes the top entry if that is due, and otherwise waits. */
    method WorkerPass(now: real) returns (ghost k: nat)
      requires now >= clock
      modifies this`delayed, this`stats, this`ledger, this`clock
      ensures old(delayed) != [] ==> IsTop(old(delayed), k)
      ensures State() == WorkerWrote(WorkerPopped(old(State()), k, now))
      ensures (exists i :: 0 <= i < |old(delayed)| && old(delayed)[i].due <= now) ==>
                && old(delayed)[k].due <= now && delayed == old(delayed)[..k] + old(delayed)[k + 1..]
                && ledger.written == old(ledger.written) + [old(delayed)[k].frame]
      ensures (forall i :: 0 <= i < |old(delayed)| ==> old(delayed)[i].due > now) ==>
                delayed == old(delayed) && ledger == old(ledger) && stats == old(stats)
    {
      if delayed == [] {
        k := 0;
        return;
      }
      var top := Top();
      k := top;
      var d := delayed[top];
      if now < d.due {
        return;
      }
      delayed := RemoveAt(delayed, top);
      clock := now;
      ledger := ledger.(releases := ledger.releases + [Released(d, now)]);
      Emit(d.frame);
    }

    /** Pop the top entry, due or not, and write it. */
    method FlushOne() returns (ghost k: nat)
      requires delayed != []
      modifies this`delayed, this`stats, this`ledger
      ensures IsTop(old(delayed), k) && delayed == RemoveAt(old(delayed), k)
      ensures ledger.releases == old(ledger.releases) + [Released(old(delayed)[k], clock)]
      ensures State() == FlushWrote(FlushPopped(old(State()), k))
    {
      var top := Top();
      k := top;
      var d := delayed[top];
      delayed := RemoveAt(delayed, top);
      ledger := ledger.(releases := ledger.releases + [Released(d, clock)]);
      Emit(d.frame);
    }

    /** Everything queued is written, in due order, and the queue is left empty. */
    method Flush() returns (ghost actions: seq<Action>)
      modifies this`delayed, this`stats, this`ledger
      ensures delayed == []
      ensures (forall i :: 0 <= i < |actions| ==> actions[i].FlushPop? || actions[i].FlushWrite?)
      ensures State() == Exec(rules, old(State()), actions)
      ensures |ledger.releases| == |old(ledger.releases)| + |old(delayed)|
      ensures InDueOrder(ledger.releases[|old(ledger.releases)|..])
    {
      actions := [];
      ghost var e, m := State(), |ledger.releases|;
      while delayed != []
        invariant forall i :: 0 <= i < |actions| ==> actions[i].FlushPop? || actions[i].FlushWrite?
        invariant State() == Exec(rules, e, actions)
        invariant |ledger.releases| + |delayed| == m + |e.queue| && m <= |ledger.releases|
        invariant DrainedInOrder(ledger.releases, m, delayed)
        decreases |delayed|
      {
        ghost var before, releases, queue := State(), ledger.releases, delayed;
        ghost var k := FlushOne();
        DrainStep(releases, m, queue, k, Released(queue[k], clock));
        ExecTwo(rules, e, actions, FlushPop(k), FlushWrite);
        actions := actions + [FlushPop(k), FlushWrite];
      }
    }
  }

  /** Releases from the m-th on are in due order, and what is queued is due after them. */
  ghost predicate DrainedInOrder(releases: seq<Release>, m: nat, queue: seq<Delayed>) {
    && (forall i, j :: m <= i <= j < |releases| ==> releases[i].due <= releases[j].due)
    && (forall i, d :: m <= i < |releases| && 0 <= d < |queue| ==> releases[i].due <= queue[d].due)
  }

  lemma DrainStep(releases: seq<Release>, m: nat, queue: seq<Delayed>, k: nat, r: Release)
    requires m <= |releases| && DrainedInOrder(releases, m, queue) && IsTop(queue, k) && r.due == queue[k].due
    ensures DrainedInOrder(releases + [r], m, RemoveAt(queue, k))
  {
    var rest := RemoveAt(queue, k);
    forall d | 0 <= d < |rest| ensures exists j :: 0 <= j < |queue| && rest[d] == queue[j] {
      assert rest[d] == queue[if d < k then d else d + 1];
    }
  }

  lemma ExecTwo(rules: seq<FaultRule>, e: Engine, actions: seq<Action>, a: Action, b: Action)
    ensures Exec(rules, e, actions + [a, b]) == Step(rules, Step(rules, Exec(rules, e, actions), a), b)
  {
    assert (actions + [a, b])[..|actions| + 1] == actions + [a];
    assert (actions + [a])[..|actions|] == actions;
  }

  /** The two ways a call can begin. */
  lemma BeginIs(e: Engine, rules: seq<FaultRule>, c: Call, p: Passed)
    requires p == Pass(e.front, Active(rules, |rules|, c.stream, c.t), c)
    ensures var active := Active(rules, |rules|, c.stream, c.t);
            var e1 := e.(front := p.front);
            var n := if c.data == [] then 0 else CountKind(active, |active|, Corrupt);
            var f := Frame(|e.ledger.inputs|, Corrupted(active, |active|, c.data, c.draws));
            && (p.passed ==> Begin(e, rules, c) == Ordered(Survived(e1, e1.front, c.data, n), active, f))
            && (!p.passed ==> Begin(e, rules, c) == TakeIn(e1, c.data, true))
  {
    assert e.(front := p.front).(front := p.front) == e.(front := p.front);
  }

  lemma FirstCopy(n: nat, f: Frame)
    requires n > 0
    ensures Copies(n, f)[0] == Send(Copy, f) && Copies(n, f)[1..] == Copies(n - 1, f)
  {
  }

  lemma {:induction false} CountGrows(active: seq<FaultRule>, k: nat, kind: FaultKind)
    requires k <= |active|
    ensures CountKind(active, k, kind) <= CountKind(active, |active|, kind)
    decreases |active| - k
  {
    if k < |active| { CountGrows(active, k + 1, kind); }
  }

  lemma PrefixHasKind(active: seq<FaultRule>, i: nat, kind: FaultKind)
    requires i < |active|
    ensures HasKind(active[..i + 1], kind) <==> HasKind(active[..i], kind) || active[i].kind == kind
  {
    if HasKind(active[..i], kind) {
      var j :| 0 <= j < i && active[..i][j].kind == kind;
      assert active[..i + 1][j].kind == kind;
    }
    if active[i].kind == kind { assert active[..i + 1][i].kind == kind; }
    if HasKind(active[..i + 1], kind) && active[i].kind != kind {
      var j :| 0 <= j < i + 1 && active[..i + 1][j].kind == kind;
      assert active[..i][j].kind == kind;
    }
  }

  // ---- calls are runs --------------------------------------------------------------------------

  /** The dispatch actions of a call, with their clock readings. */
  function Dispatches(now: nat -> real, n: nat): seq<Action> { seq(n, (i: nat) => Dispatch(now(i))) }

  ghost predicate NeverBack(now: nat -> real, clock: real) {
    (forall i: nat :: clock <= now(i)) && forall i: nat, j: nat :: i <= j ==> now(i) <= now(j)
  }

  lemma ExecDispatch(rules: seq<FaultRule>, e: Engine, now: nat -> real, n: nat)
    requires n > 0
    ensures Exec(rules, e, Dispatches(now, n)) == Dispatched(Exec(rules, e, Dispatches(now, n - 1)), now(n - 1))
  {
    var d := Dispatches(now, n);
    assert d[..n - 1] == Dispatches(now, n - 1) && d[n - 1] == Dispatch(now(n - 1));
  }

  lemma {:induction false} SentIsRun(rules: seq<FaultRule>, e: Engine, now: nat -> real, n: nat)
    requires NeverBack(now, e.clock) && n <= |e.pending|
    ensures Exec(rules, e, Dispatches(now, n)) == Sent(e, now, n)
    ensures |Sent(e, now, n).pending| == |e.pending| - n
    ensures Sent(e, now, n).clock <= now(n)
    decreases n
  {
    if n > 0 {
      SentIsRun(rules, e, now, n - 1);
      ExecDispatch(rules, e, now, n);
      OneSent(Sent(e, now, n - 1), now(n - 1));
    } else {
      assert Dispatches(now, 0) == [];
    }
  }

  lemma OneSent(e: Engine, now: real)
    requires e.pending != [] && e.clock <= now
    ensures var t := SendNext(e, now);
            t == Dispatched(e, now) && |t.pending| == |e.pending| - 1 && t.clock <= now
  {
  }

  /** What Process does to the engine's state is a run of the pipeline: one Process action and its dispatches. */
  lemma ProcessIsRun(rules: seq<FaultRule>, e: Engine, c: Call, now: nat -> real)
    requires e.pending == [] && NeverBack(now, e.clock)
    ensures var b := Begin(e, rules, c);
            Exec(rules, b, Dispatches(now, |b.pending|)) == AllSent(b, now) && AllSent(b, now).pending == []
    ensures Step(rules, e, Action.Process(c)) == Begin(e, rules, c)
  {
    ProcessOrder(rules, e, c);
    SentIsRun(rules, Begin(e, rules, c), now, |Begin(e, rules, c).pending|);
  }
}

/** When the restart hook fires, in every run, and when that is once at the start of every window. */
module RestartHook {
  import opened FaultTypes
  import opened FaultPipeline

  predicate FindsRestart(rules: seq<FaultRule>, c: Call) { HasKind(ActiveFor(rules, c), ProcessRestart) }

  /** No rule at all is active for the frame. */
  predicate Quiet(rules: seq<FaultRule>, c: Call) { ActiveFor(rules, c) == [] }

  /**
   * Call j finds a restart rule, and since any earlier call of its stream that found one there has been a quiet one.
   */
  ghost predicate Fires(rules: seq<FaultRule>, calls: seq<Call>, j: nat)
    requires j < |calls|
  {
    && FindsRestart(rules, calls[j])
    && forall i :: 0 <= i < j && calls[i].stream == calls[j].stream && FindsRestart(rules, calls[i]) ==>
         exists q :: i < q < j && calls[q].stream == calls[j].stream && Quiet(rules, calls[q])
  }

  /** The streams of the calls among the first k that fire, in order. */
  ghost function Fired(rules: seq<FaultRule>, calls: seq<Call>, k: nat): seq<string>
    requires k <= |calls|
    decreases k
  {
    if k == 0 then []
    else Fired(rules, calls, k - 1) + if Fires(rules, calls, k - 1) then [calls[k - 1].stream] else []
  }

  /** Some call of the stream has found a restart rule, and none of the stream has been quiet since. */
  ghost predicate Marked(rules: seq<FaultRule>, calls: seq<Call>, k: nat, x: string)
    requires k <= |calls|
  {
    exists i :: 0 <= i < k && calls[i].stream == x && FindsRestart(rules, calls[i])
      && forall q :: i < q < k && calls[q].stream == x ==> !Quiet(rules, calls[q])
  }

  lemma FiresIfUnmarked(rules: seq<FaultRule>, calls: seq<Call>, j: nat)
    requires j < |calls|
    ensures Fires(rules, calls, j) <==> FindsRestart(rules, calls[j]) && !Marked(rules, calls, j, calls[j].stream)
  {
  }

  lemma MarkedStep(rules: seq<FaultRule>, calls: seq<Call>, k: nat, x: string)
    requires k < |calls|
    ensures Marked(rules, calls, k + 1, x)
            <==> if calls[k].stream != x then Marked(rules, calls, k, x)
                 else !Quiet(rules, calls[k]) && (FindsRestart(rules, calls[k]) || Marked(rules, calls, k, x))
  {
    if Marked(rules, calls, k, x) {
      var i :| 0 <= i < k && calls[i].stream == x && FindsRestart(rules, calls[i])
               && forall q :: i < q < k && calls[q].stream == x ==> !Quiet(rules, calls[q]);
      assert calls[k].stream != x || !Quiet(rules, calls[k]) ==>
        forall q :: i < q < k + 1 && calls[q].stream == x ==> !Quiet(rules, calls[q]);
    }
    if Marked(rules, calls, k + 1, x) {
      var i :| 0 <= i < k + 1 && calls[i].stream == x && FindsRestart(rules, calls[i])
               && forall q :: i < q < k + 1 && calls[q].stream == x ==> !Quiet(rules, calls[q]);
      if i < k { assert Marked(rules, calls, k, x); }
    }
  }

  lemma {:induction false} WithoutDrops(s: seq<string>, k: nat, x: string, y: string)
    requires k <= |s|
    ensures y in Without(s, k, x) <==> y in s[..k] && y != x
    decreases k
  {
    if k > 0 {
      WithoutDrops(s, k - 1, x, y);
      assert s[..k] == s[..k - 1] + [s[k - 1]];
    }
  }

  /** What one frame does to the marks and the hook. */
  lemma HookStep(f: Front, active: seq<FaultRule>, stream: string, x: string)
    ensures var t := Restart(f, active, stream);
            && (x in t.restarted <==>
                  if stream != x then x in f.restarted
                  else active != [] && (HasKind(active, ProcessRestart) || x in f.restarted))
            && t.restarts
               == f.restarts + if HasKind(active, ProcessRestart) && stream !in f.restarted then [stream] else []
  {
    WithoutDrops(f.restarted, |f.restarted|, stream, x);
    assert f.restarted[..|f.restarted|] == f.restarted;
  }

  lemma FrontStep(rules: seq<FaultRule>, calls: seq<Call>, k: nat)
    requires 0 < k <= |calls|
    ensures var f, c := FrontAfter(rules, calls[..k - 1]), calls[k - 1];
            var t, r := FrontAfter(rules, calls[..k]), Restart(f, ActiveFor(rules, c), c.stream);
            t.restarted == r.restarted && t.restarts == r.restarts
  {
    assert calls[..k][..k - 1] == calls[..k - 1];
  }

  lemma MarkStep(rules: seq<FaultRule>, calls: seq<Call>, k: nat, x: string)
    requires 0 < k <= |calls|
    requires x in FrontAfter(rules, calls[..k - 1]).restarted <==> Marked(rules, calls, k - 1, x)
    ensures x in FrontAfter(rules, calls[..k]).restarted <==> Marked(rules, calls, k, x)
  {
    var c := calls[k - 1];
    FrontStep(rules, calls, k);
    HookStep(FrontAfter(rules, calls[..k - 1]), ActiveFor(rules, c), c.stream, x);
    MarkedStep(rules, calls, k - 1, x);
  }

  lemma {:induction false} HookOfCalls(rules: seq<FaultRule>, calls: seq<Call>, k: nat)
    requires k <= |calls|
    ensures var f := FrontAfter(rules, calls[..k]);
            && f.restarts == Fired(rules, calls, k)
            && forall x: string :: x in f.restarted <==> Marked(rules, calls, k, x)
    decreases k
  {
    if k > 0 {
      var f, c := FrontAfter(rules, calls[..k - 1]), calls[k - 1];
      HookOfCalls(rules, calls, k - 1);
      FrontStep(rules, calls, k);
      forall x: string ensures x in FrontAfter(rules, calls[..k]).restarted <==> Marked(rules, calls, k, x) {
        MarkStep(rules, calls, k, x);
      }
      HookStep(f, ActiveFor(rules, c), c.stream, c.stream);
      FiresIfUnmarked(rules, calls, k - 1);
    }
  }

  /** In every run the hook has been called for exactly the streams of the calls that fire, in order. */
  lemma HookExactly(rules: seq<FaultRule>, clock: real, actions: seq<Action>)
    ensures var calls := CallsTaken(rules, Fresh(clock), actions);
            Exec(rules, Fresh(clock), actions).front.restarts == Fired(rules, calls, |calls|)
  {
    var calls := CallsTaken(rules, Fresh(clock), actions);
    FrontOfRun(rules, clock, actions);
    HookOfCalls(rules, calls, |calls|);
    assert calls[..|calls|] == calls;
  }

  // ---- once at window start ----------------------------------------------------------------------

  predicate RestartAt(rules: seq<FaultRule>, x: string, t: real) {
    HasKind(Active(rules, |rules|, x, t), ProcessRestart)
  }

  /** No restart rule is active for the stream at some moment from t0 to t2. */
  ghost predicate Gap(rules: seq<FaultRule>, x: string, t0: real, t2: real) {
    exists t: real :: t0 <= t <= t2 && !RestartAt(rules, x, t)
  }

  /**
   * Call j is the first of its stream in a window of restart rules: it finds one, and between it and any earlier call
   * of the stream that found one there is a gap in time.
   */
  ghost predicate StartsWindow(rules: seq<FaultRule>, calls: seq<Call>, j: nat)
    requires j < |calls|
  {
    && FindsRestart(rules, calls[j])
    && forall i :: 0 <= i < j && calls[i].stream == calls[j].stream && FindsRestart(rules, calls[i]) ==>
         Gap(rules, calls[j].stream, calls[i].t, calls[j].t)
  }

  /** The calls of the stream come in the order of their times. */
  ghost predicate Timed(calls: seq<Call>, x: string) {
    forall i, j :: 0 <= i <= j < |calls| && calls[i].stream == x && calls[j].stream == x ==> calls[i].t <= calls[j].t
  }

  /** The hook is called for the stream exactly at the start of every window. */
  ghost predicate FiresAtStarts(rules: seq<FaultRule>, calls: seq<Call>, x: string) {
    forall j :: 0 <= j < |calls| && calls[j].stream == x ==> (Fires(rules, calls, j) <==> StartsWindow(rules, calls, j))
  }

  ghost predicate OncePerWindow(rules: seq<FaultRule>, x: string) {
    forall clock: real, actions: seq<Action> :: Timed(CallsTaken(rules, Fresh(clock), actions), x) ==>
      FiresAtStarts(rules, CallsTaken(rules, Fresh(clock), actions), x)
  }

  /** The stream has a second window. */
  ghost predicate SecondWindow(rules: seq<FaultRule>, x: string) {
    exists t0: real, t2: real :: RestartAt(rules, x, t0) && Gap(rules, x, t0, t2) && RestartAt(rules, x, t2)
  }

  /** The hook never fires inside a window. */
  lemma FiringStarts(rules: seq<FaultRule>, calls: seq<Call>, x: string, j: nat)
    requires Timed(calls, x) && j < |calls| && calls[j].stream == x && Fires(rules, calls, j)
    ensures StartsWindow(rules, calls, j)
  {
    forall i | 0 <= i < j && calls[i].stream == x && FindsRestart(rules, calls[i])
      ensures Gap(rules, x, calls[i].t, calls[j].t)
    {
      var q :| i < q < j && calls[q].stream == x && Quiet(rules, calls[q]);
      assert calls[i].t <= calls[q].t <= calls[j].t && !RestartAt(rules, x, calls[q].t);
    }
  }

  lemma OneWindowFires(rules: seq<FaultRule>, calls: seq<Call>, x: string)
    requires !SecondWindow(rules, x) && Timed(calls, x)
    ensures FiresAtStarts(rules, calls, x)
  {
    forall j | 0 <= j < |calls| && calls[j].stream == x
      ensures Fires(rules, calls, j) <==> StartsWindow(rules, calls, j)
    {
      if Fires(rules, calls, j) { FiringStarts(rules, calls, x, j); }
      assert FindsRestart(rules, calls[j]) ==> RestartAt(rules, x, calls[j].t);
      forall i | 0 <= i < j && calls[i].stream == x && FindsRestart(rules, calls[i])
        ensures !StartsWindow(rules, calls, j)
      {
        assert RestartAt(rules, x, calls[i].t);
      }
    }
  }

  /** A frame of a stream at a time. */
  function CallAt(x: string, t: real): Call {
    Call([], t, x, Draws((_: nat) => 0.0, (_: nat, _: nat) => 0, (_: nat, _: nat) => 0), (_: nat) => 0.0)
  }

  /** One frame in each of two windows and none between them: the second window starts and the hook does not fire. */
  lemma SecondStartUnseen(rules: seq<FaultRule>, x: string, t0: real, t2: real)
    requires RestartAt(rules, x, t0) && Gap(rules, x, t0, t2) && RestartAt(rules, x, t2)
    ensures var calls := [CallAt(x, t0), CallAt(x, t2)];
            StartsWindow(rules, calls, 1) && !Fires(rules, calls, 1) && Fired(rules, calls, 2) == [x]
  {
    var calls := [CallAt(x, t0), CallAt(x, t2)];
    assert FindsRestart(rules, calls[0]) && FindsRestart(rules, calls[1]);
    assert Fired(rules, calls, 1) == [x];
  }

  /**
   * For any rules and any stream whose frames come in time order, the hook is called once at the start of every window,
   * in all runs, exactly if the stream has no second window.
   */
  lemma OncePerWindowExactly(rules: seq<FaultRule>, x: string)
    ensures OncePerWindow(rules, x) <==> !SecondWindow(rules, x)
  {
    if SecondWindow(rules, x) {
      var t0: real, t2: real :| RestartAt(rules, x, t0) && Gap(rules, x, t0, t2) && RestartAt(rules, x, t2);
      var calls := [CallAt(x, t0), CallAt(x, t2)];
      var actions := CallsAreTaken(rules, 0.0, calls);
      SecondStartUnseen(rules, x, t0, t2);
      assert Timed(calls, x) && !FiresAtStarts(rules, calls, x);
    } else {
      forall clock: real, actions: seq<Action> | Timed(CallsTaken(rules, Fresh(clock), actions), x)
        ensures FiresAtStarts(rules, CallsTaken(rules, Fresh(clock), actions), x)
      {
        OneWindowFires(rules, CallsTaken(rules, Fresh(clock), actions), x);
      }
    }
  }

  // ---- when a frame falls between the windows ------------------------------------------------------

  /** Two calls of the stream find restart rules on either side of a gap. */
  ghost predicate AcrossGap(rules: seq<FaultRule>, x: string, c: Call, d: Call) {
    c.stream == d.stream == x && FindsRestart(rules, c) && FindsRestart(rules, d) && Gap(rules, x, c.t, d.t)
  }

  /** Some call of the stream falls into every gap between calls that find a restart rule. */
  ghost predicate SeesGaps(rules: seq<FaultRule>, calls: seq<Call>, x: string) {
    forall i, j :: 0 <= i < j < |calls| && AcrossGap(rules, x, calls[i], calls[j]) ==>
      exists q :: i < q < j && calls[q].stream == x && !FindsRestart(rules, calls[q])
  }

  ghost predicate OncePerSeenWindow(rules: seq<FaultRule>, x: string) {
    forall clock: real, actions: seq<Action> ::
      Timed(CallsTaken(rules, Fresh(clock), actions), x) && SeesGaps(rules, CallsTaken(rules, Fresh(clock), actions), x)
      ==> FiresAtStarts(rules, CallsTaken(rules, Fresh(clock), actions), x)
  }

  /** Some rule is active for the stream, and none restarts. */
  predicate OtherAt(rules: seq<FaultRule>, x: string, t: real) {
    Active(rules, |rules|, x, t) != [] && !RestartAt(rules, x, t)
  }

  /** Between two windows of the stream lies a moment at which only other rules are active. */
  ghost predicate Bridged(rules: seq<FaultRule>, x: string) {
    exists t0: real, t1: real, t2: real ::
      t0 <= t1 <= t2 && RestartAt(rules, x, t0) && OtherAt(rules, x, t1) && RestartAt(rules, x, t2)
  }

  lemma FiresUnlessBridged(rules: seq<FaultRule>, calls: seq<Call>, x: string)
    requires !Bridged(rules, x) && Timed(calls, x) && SeesGaps(rules, calls, x)
    ensures FiresAtStarts(rules, calls, x)
  {
    forall j | 0 <= j < |calls| && calls[j].stream == x
      ensures Fires(rules, calls, j) <==> StartsWindow(rules, calls, j)
    {
      if Fires(rules, calls, j) { FiringStarts(rules, calls, x, j); }
      if StartsWindow(rules, calls, j) {
        forall i | 0 <= i < j && calls[i].stream == x && FindsRestart(rules, calls[i])
          ensures exists q :: i < q < j && calls[q].stream == x && Quiet(rules, calls[q])
        {
          assert AcrossGap(rules, x, calls[i], calls[j]);
          var q :| i < q < j && calls[q].stream == x && !FindsRestart(rules, calls[q]);
          assert calls[i].t <= calls[q].t <= calls[j].t;
          assert RestartAt(rules, x, calls[i].t) && RestartAt(rules, x, calls[j].t) && !OtherAt(rules, x, calls[q].t);
          assert Quiet(rules, calls[q]);
        }
      }
    }
  }

  /**
   * With a bridge, a frame in each window and one between them: the second window starts and the hook does not fire.
   */
  lemma BridgeHidesStart(rules: seq<FaultRule>, x: string, t0: real, t1: real, t2: real)
    requires t0 <= t1 <= t2 && RestartAt(rules, x, t0) && OtherAt(rules, x, t1) && RestartAt(rules, x, t2)
    ensures var calls := [CallAt(x, t0), CallAt(x, t1), CallAt(x, t2)];
            && SeesGaps(rules, calls, x)
            && StartsWindow(rules, calls, 2) && !Fires(rules, calls, 2) && Fired(rules, calls, 3) == [x]
  {
    var calls := [CallAt(x, t0), CallAt(x, t1), CallAt(x, t2)];
    assert FindsRestart(rules, calls[0]) && !FindsRestart(rules, calls[1]) && FindsRestart(rules, calls[2]);
    assert Gap(rules, x, t0, t2);
    assert !Quiet(rules, calls[1]);
    assert Fired(rules, calls, 1) == [x];
    assert Fired(rules, calls, 2) == [x];
  }

  /**
   * In the runs in which a frame of the stream falls into every gap between its windows, the hook is called once at the
   * start of every window exactly if no two windows are bridged by other rules.
   */
  lemma OncePerSeenWindowExactly(rules: seq<FaultRule>, x: string)
    ensures OncePerSeenWindow(rules, x) <==> !Bridged(rules, x)
  {
    if Bridged(rules, x) {
      var t0: real, t1: real, t2: real :|
        t0 <= t1 <= t2 && RestartAt(rules, x, t0) && OtherAt(rules, x, t1) && RestartAt(rules, x, t2);
      var calls := [CallAt(x, t0), CallAt(x, t1), CallAt(x, t2)];
      var actions := CallsAreTaken(rules, 0.0, calls);
      BridgeHidesStart(rules, x, t0, t1, t2);
      assert Timed(calls, x) && !FiresAtStarts(rules, calls, x);
    } else {
      forall clock: real, actions: seq<Action> | Timed(CallsTaken(rules, Fresh(clock), actions), x)
          && SeesGaps(rules, CallsTaken(rules, Fresh(clock), actions), x)
        ensures FiresAtStarts(rules, CallsTaken(rules, Fresh(clock), actions), x)
      {
        FiresUnlessBridged(rules, CallsTaken(rules, Fresh(clock), actions), x);
      }
    }
  }

  // ---- second windows that go unnoticed ------------------------------------------------------------

  function Rule(kind: FaultKind, start: real, duration: real): FaultRule {
    FaultRule(kind, "", start, duration, 1.0, 0.0, 0.0, 0)
  }

  /** Restart windows from 0 to 1 and from 5 to 6. */
  function TwoWindows(): seq<FaultRule> { [Rule(ProcessRestart, 0.0, 1.0), Rule(ProcessRestart, 5.0, 1.0)] }

  /** The same under a delay from 0 to 10. */
  function TwoWindowsDelayed(): seq<FaultRule> { TwoWindows() + [Rule(Delay, 0.0, 10.0)] }

  lemma RuleIsActive(rules: seq<FaultRule>, i: nat, x: string, t: real)
    requires i < |rules| && Matches(rules[i], x) && ActiveAt(rules[i], t)
    ensures var active := Active(rules, |rules|, x, t); active != [] && HasKind(active, rules[i].kind)
  {
    ActiveExactly(rules, |rules|, x, t, rules[i]);
    assert rules[..|rules|] == rules;
  }

  lemma NoRestartActive(rules: seq<FaultRule>, x: string, t: real)
    requires forall i :: 0 <= i < |rules| && rules[i].kind == ProcessRestart ==> !ActiveAt(rules[i], t)
    ensures !RestartAt(rules, x, t)
  {
    var active := Active(rules, |rules|, x, t);
    forall i | 0 <= i < |active| ensures active[i].kind != ProcessRestart {
      ActiveExactly(rules, |rules|, x, t, active[i]);
      assert rules[..|rules|] == rules;
    }
  }

  lemma TwoWindowsActive(x: string)
    ensures RestartAt(TwoWindows(), x, 0.5) && !RestartAt(TwoWindows(), x, 3.0) && RestartAt(TwoWindows(), x, 5.5)
  {
    RuleIsActive(TwoWindows(), 0, x, 0.5);
    NoRestartActive(TwoWindows(), x, 3.0);
    RuleIsActive(TwoWindows(), 1, x, 5.5);
  }

  lemma TwoWindowsBridged(x: string)
    ensures var rules := TwoWindowsDelayed();
            RestartAt(rules, x, 0.5) && OtherAt(rules, x, 3.0) && RestartAt(rules, x, 5.5)
  {
    var rules := TwoWindowsDelayed();
    RuleIsActive(rules, 0, x, 0.5);
    RuleIsActive(rules, 2, x, 3.0);
    NoRestartActive(rules, x, 3.0);
    RuleIsActive(rules, 1, x, 5.5);
  }

  /** Frames at 0.5 and 5.5 seconds, in a run: the hook has been called once, for the first window alone. */
  lemma SecondWindowUnseen(x: string, clock: real) returns (actions: seq<Action>)
    ensures CallsTaken(TwoWindows(), Fresh(clock), actions) == [CallAt(x, 0.5), CallAt(x, 5.5)]
    ensures StartsWindow(TwoWindows(), CallsTaken(TwoWindows(), Fresh(clock), actions), 1)
    ensures Exec(TwoWindows(), Fresh(clock), actions).front.restarts == [x]
  {
    TwoWindowsActive(x);
    actions := CallsAreTaken(TwoWindows(), clock, [CallAt(x, 0.5), CallAt(x, 5.5)]);
    SecondStartUnseen(TwoWindows(), x, 0.5, 5.5);
    HookExactly(TwoWindows(), clock, actions);
  }

  /** With the delay a frame between them does not help. */
  lemma SecondWindowMissed(x: string, clock: real) returns (actions: seq<Action>)
    ensures CallsTaken(TwoWindowsDelayed(), Fresh(clock), actions)
            == [CallAt(x, 0.5), CallAt(x, 3.0), CallAt(x, 5.5)]
    ensures StartsWindow(TwoWindowsDelayed(), CallsTaken(TwoWindowsDelayed(), Fresh(clock), actions), 2)
    ensures Exec(TwoWindowsDelayed(), Fresh(clock), actions).front.restarts == [x]
  {
    var rules := TwoWindowsDelayed();
    TwoWindowsBridged(x);
    actions := CallsAreTaken(rules, clock, [CallAt(x, 0.5), CallAt(x, 3.0), CallAt(x, 5.5)]);
    BridgeHidesStart(rules, x, 0.5, 3.0, 5.5);
    HookExactly(rules, clock, actions);
  }
}

/** The token bucket of a running engine with one bandwidth rule is the bucket the rate bound is about. */
module BandwidthRuns {
  import opened Bytes
  import opened FaultTypes
  import opened FaultPipeline
  import opened TokenBucket

  /** The rules hold one bandwidth limit, at index i. */
  ghost predicate OneLimit(rules: seq<FaultRule>, i: nat) {
    i < |rules| && Limits(rules[i]) && forall j :: 0 <= j < |rules| && Limits(rules[j]) ==> j == i
  }

  /** The first bandwidth limit from index k on. */
  function FirstLimit(active: seq<FaultRule>, k: nat): (r: Option<nat>)
    requires k <= |active|
    ensures r.Some? ==> k <= r.value < |active| && Limits(active[r.value])
    ensures r.None? ==> forall j :: k <= j < |active| ==> !Limits(active[j])
    decreases |active| - k
  {
    if k == |active| then None else if Limits(active[k]) then Some(k) else FirstLimit(active, k + 1)
  }

  predicate DroppedEarly(rules: seq<FaultRule>, c: Call) {
    var active := ActiveFor(rules, c);
    Suppressed(active) || DropHit(active, |active|, c.draws)
  }

  /** Where a call meets the bandwidth limit, if it does. */
  function Meets(rules: seq<FaultRule>, c: Call): (r: Option<nat>)
    ensures r.Some? ==> r.value < |ActiveFor(rules, c)|
  {
    if DroppedEarly(rules, c) then None else FirstLimit(ActiveFor(rules, c), 0)
  }

  /** The clock readings of the calls that meet the limit. */
  function Times(rules: seq<FaultRule>, calls: seq<Call>): seq<real>
    decreases |calls|
  {
    if calls == [] then []
    else
      var c := calls[|calls| - 1];
      var m := Meets(rules, c);
      Times(rules, calls[..|calls| - 1]) + if m.Some? then [c.clock(m.value)] else []
  }

  /** And their frame sizes. */
  function Sizes(rules: seq<FaultRule>, calls: seq<Call>): (s: seq<nat>)
    ensures |s| == |Times(rules, calls)|
    decreases |calls|
  {
    if calls == [] then []
    else
      var c := calls[|calls| - 1];
      Sizes(rules, calls[..|calls| - 1]) + if Meets(rules, c).Some? then [|c.data|] else []
  }

  /** At most one of these rules is a bandwidth limit, and it is r. */
  ghost predicate OnlyLimit(active: seq<FaultRule>, r: FaultRule) {
    && (forall j :: 0 <= j < |active| ==> Limits(active[j]) ==> active[j] == r)
    && (forall j, m :: 0 <= j < m < |active| ==> !(Limits(active[j]) && Limits(active[m])))
  }

  ghost predicate NoLimits(active: seq<FaultRule>) { forall j :: 0 <= j < |active| ==> !Limits(active[j]) }

  /** A limit among the active rules is the one limit, once, and not there before its turn. */
  lemma {:induction false} ActiveLimit(rules: seq<FaultRule>, i: nat, k: nat, stream: string, t: real)
    requires OneLimit(rules, i) && k <= |rules|
    ensures var active := Active(rules, k, stream, t); OnlyLimit(active, rules[i]) && (k <= i ==> NoLimits(active))
    decreases k
  {
    if k > 0 {
      ActiveLimit(rules, i, k - 1, stream, t);
      var before, r := Active(rules, k - 1, stream, t), rules[k - 1];
      assert Limits(r) ==> k - 1 == i;
      if Limits(r) {
        assert NoLimits(before) && OnlyLimit(before + [r], r);
      } else {
        assert OnlyLimit(before + [r], rules[i]);
        assert k <= i ==> NoLimits(before + [r]);
      }
    }
  }

  /** Without a limit the stage changes nothing. */
  lemma {:induction false} NoLimit(active: seq<FaultRule>, k: nat, b: Bucket, size: nat, clock: nat -> real)
    requires k <= |active| && NoLimits(active)
    ensures Admit(active, k, b, size, clock) == Admission(b, true)
    decreases k
  {
    if k > 0 {
      NoLimit(active, k - 1, b, size, clock);
      assert !Limits(active[k - 1]);
    }
  }

  /** One call leaves the bucket alone, or makes one claim on it, and passes as that claim does. */
  lemma PassIsTake(rules: seq<FaultRule>, i: nat, f: Front, c: Call)
    requires OneLimit(rules, i)
    ensures var p := Pass(f, ActiveFor(rules, c), c);
            var m := Meets(rules, c);
            && (m.None? ==> p.front.bucket == f.bucket && p.passed == !DroppedEarly(rules, c))
            && (m.Some? ==>
                  Admission(p.front.bucket, p.passed) == Take(f.bucket, LimitOf(rules[i]), c.clock(m.value), |c.data|))
  {
    var active := ActiveFor(rules, c);
    ActiveLimit(rules, i, |rules|, c.stream, c.t);
    var first := FirstLimit(active, 0);
    if first.Some? {
      assert forall j :: 0 <= j < |active| && Limits(active[j]) ==> !(j < first.value) && !(first.value < j);
      SingleLimit(active, |active|, first.value, f.bucket, |c.data|, c.clock);
    } else {
      NoLimit(active, |active|, f.bucket, |c.data|, c.clock);
    }
  }

  /** Later calls do not change what the bucket was. */
  lemma {:induction false} AfterPrefix(l: Limit, ts: seq<real>, sizes: seq<nat>, t: real, size: nat, k: nat)
    requires k <= |ts| == |sizes|
    ensures After(l, ts + [t], sizes + [size], k) == After(l, ts, sizes, k)
    decreases k
  {
    if k > 0 { AfterPrefix(l, ts, sizes, t, size, k - 1); }
  }

  lemma AfterNext(l: Limit, ts: seq<real>, sizes: seq<nat>, t: real, size: nat)
    requires |ts| == |sizes|
    ensures After(l, ts + [t], sizes + [size], |ts| + 1) == Take(After(l, ts, sizes, |ts|), l, t, size).bucket
  {
    AfterPrefix(l, ts, sizes, t, size, |ts|);
  }

  lemma {:induction false} BucketOfRun(rules: seq<FaultRule>, i: nat, calls: seq<Call>)
    requires OneLimit(rules, i)
    ensures var ts := Times(rules, calls);
            FrontAfter(rules, calls).bucket == After(LimitOf(rules[i]), ts, Sizes(rules, calls), |ts|)
    decreases |calls|
  {
    if calls != [] {
      var before, c := calls[..|calls| - 1], calls[|calls| - 1];
      BucketOfRun(rules, i, before);
      PassIsTake(rules, i, FrontAfter(rules, before), c);
      var m := Meets(rules, c);
      if m.Some? {
        AfterNext(LimitOf(rules[i]), Times(rules, before), Sizes(rules, before), c.clock(m.value), |c.data|);
      } else {
        assert Times(rules, calls) == Times(rules, before) && Sizes(rules, calls) == Sizes(rules, before);
      }
    }
  }

  lemma BucketWithinBounds(l: Limit, ts: seq<real>, sizes: seq<nat>)
    requires Steady(l) && |ts| == |sizes| && Nondecreasing(ts) && ZeroIsFollowedByASecond(ts)
    ensures Bounded(l, ts, sizes) && 0.0 <= After(l, ts, sizes, |ts|).tokens <= l.full
  {
    BoundHolds(l, ts, sizes);
    if |ts| > 0 { TokensBounded(l, ts, sizes, |ts| - 1); }
  }

  lemma LimitIsSteady(r: FaultRule)
    requires Limits(r)
    ensures Steady(LimitOf(r))
  {
    RateIsSteady(r.bandwidthKbps * 1000.0 / 8.0);
  }

  lemma BucketIs(b: Bucket, l: Limit, ts: seq<real>, sizes: seq<nat>)
    requires Steady(l) && |ts| == |sizes| && Nondecreasing(ts) && ZeroIsFollowedByASecond(ts)
    requires b == After(l, ts, sizes, |ts|)
    ensures Bounded(l, ts, sizes) && 0.0 <= b.tokens <= l.full
  {
    BucketWithinBounds(l, ts, sizes);
  }

  lemma CallsRateBound(rules: seq<FaultRule>, i: nat, calls: seq<Call>)
    requires OneLimit(rules, i)
    requires Nondecreasing(Times(rules, calls)) && ZeroIsFollowedByASecond(Times(rules, calls))
    ensures var l, ts, sizes := LimitOf(rules[i]), Times(rules, calls), Sizes(rules, calls);
            var bucket := FrontAfter(rules, calls).bucket;
            Bounded(l, ts, sizes) && bucket == After(l, ts, sizes, |ts|) && 0.0 <= bucket.tokens <= l.full
  {
    LimitIsSteady(rules[i]);
    BucketOfRun(rules, i, calls);
    BucketIs(FrontAfter(rules, calls).bucket, LimitOf(rules[i]), Times(rules, calls), Sizes(rules, calls));
  }

  lemma BoundInKilobits(r: FaultRule, seconds: real)
    ensures LimitOf(r).full + LimitOf(r).inflow(seconds) == r.bandwidthKbps * 125.0 * (1.0 + seconds)
  {
    var rate := r.bandwidthKbps * 125.0;
    assert LimitOf(r).full == rate;
    assert rate * (1.0 + seconds) == rate + seconds * rate;
  }

  /** The bytes that a rule lets through in a while, as a bound in its kilobits and the clock's nanoseconds. */
  ghost predicate WithinRate(r: FaultRule, bytes: nat, from: real, until: real) {
    bytes as real <= r.bandwidthKbps * 125.0 * (1.0 + (until - from) / 1_000_000_000.0)
  }

  lemma InKilobits(r: FaultRule, bytes: nat, from: real, until: real)
    requires bytes as real <= LimitOf(r).full + LimitOf(r).inflow((until - from) / SECOND)
    ensures WithinRate(r, bytes, from, until)
  {
    BoundInKilobits(r, (until - from) / SECOND);
  }

  lemma BoundedInKilobits(r: FaultRule, ts: seq<real>, sizes: seq<nat>, j: nat, k: nat)
    requires |ts| == |sizes| && Bounded(LimitOf(r), ts, sizes) && j <= k < |ts|
    ensures WithinRate(r, Admitted(LimitOf(r), ts, sizes, j, k), ts[j], ts[k])
  {
    var bytes := Admitted(LimitOf(r), ts, sizes, j, k);
    BoundOf(LimitOf(r), ts, sizes, j, k);
    InKilobits(r, bytes, ts[j], ts[k]);
  }

  /**
   * In every run of an engine with one bandwidth rule, the bytes the rule lets through between any two of the calls
   * that reach it are bounded, on a clock that does not run backwards nor read zero within a second of the next
   * reading; and the engine's bucket, never below empty nor above full, is the one those bytes are taken from.
   */
  lemma EngineRateBound(rules: seq<FaultRule>, i: nat, clock: real, actions: seq<Action>)
    requires OneLimit(rules, i)
    requires var ts := Times(rules, CallsTaken(rules, Fresh(clock), actions));
             Nondecreasing(ts) && ZeroIsFollowedByASecond(ts)
    ensures var calls := CallsTaken(rules, Fresh(clock), actions);
            var l, ts, sizes := LimitOf(rules[i]), Times(rules, calls), Sizes(rules, calls);
            var bucket := Exec(rules, Fresh(clock), actions).front.bucket;
            && Bounded(l, ts, sizes)
            && bucket == After(l, ts, sizes, |ts|) && 0.0 <= bucket.tokens <= l.full
            && forall j, k :: 0 <= j <= k < |ts| ==>
                 WithinRate(rules[i], Admitted(l, ts, sizes, j, k), ts[j], ts[k])
  {
    var calls := CallsTaken(rules, Fresh(clock), actions);
    CallsRateBound(rules, i, calls);
    FrontOfRun(rules, clock, actions);
    var ts, sizes := Times(rules, calls), Sizes(rules, calls);
    forall j, k | 0 <= j <= k < |ts|
      ensures WithinRate(rules[i], Admitted(LimitOf(rules[i]), ts, sizes, j, k), ts[j], ts[k])
    {
      BoundedInKilobits(rules[i], ts, sizes, j, k);
    }
  }
}

/** The rate bound of the bandwidth stage with one rule, and the clock readings on which it holds. */
module TokenBucket {
  import opened FaultTypes

  predicate Adds(l: Limit, a: real, b: real) { l.inflow(a) - l.inflow(b) == l.inflow(a - b) }

  /** What the proofs use of a limit: inflow adds up, is never negative, and fills the bucket in a second. */
  ghost predicate Steady(l: Limit) {
    && l.full > 0.0
    && l.inflow(1.0) == l.full
    && (forall a: real :: a >= 0.0 ==> l.inflow(a) >= 0.0)
    && (forall a: real, b: real :: Adds(l, a, b))
  }

  lemma RateIsSteady(rate: real)
    requires rate > 0.0
    ensures Steady(RateLimit(rate))
  {
    var l := RateLimit(rate);
    forall a: real, b: real ensures Adds(l, a, b) {
      assert a * rate - b * rate == (a - b) * rate;
    }
  }

  /** The bucket after the first k calls, of these sizes at these clock readings. */
  function After(l: Limit, ts: seq<real>, sizes: seq<nat>, k: nat): Bucket
    requires k <= |ts| == |sizes|
    decreases k, 0
  {
    if k == 0 then Bucket(0.0, 0.0) else Call(l, ts, sizes, k - 1).bucket
  }

  function Call(l: Limit, ts: seq<real>, sizes: seq<nat>, k: nat): Admission
    requires k < |ts| == |sizes|
    decreases k, 1
  {
    Take(After(l, ts, sizes, k), l, ts[k], sizes[k])
  }

  /** The bytes call k lets through. */
  function Taken(l: Limit, ts: seq<real>, sizes: seq<nat>, k: nat): nat
    requires k < |ts| == |sizes|
  {
    if Call(l, ts, sizes, k).admitted then sizes[k] else 0
  }

  /** The bytes admitted by calls i to j. */
  function Admitted(l: Limit, ts: seq<real>, sizes: seq<nat>, i: nat, j: nat): nat
    requires i <= j < |ts| == |sizes|
    decreases j
  {
    (if j == i then 0 else Admitted(l, ts, sizes, i, j - 1)) + Taken(l, ts, sizes, j)
  }

  ghost predicate Nondecreasing(ts: seq<real>) { forall i, j :: 0 <= i <= j < |ts| ==> ts[i] <= ts[j] }

  /** A reading of exactly 0, which the engine takes for "never refilled", is the last one for a second. */
  ghost predicate ZeroIsFollowedByASecond(ts: seq<real>) {
    forall k :: 0 <= k && k + 1 < |ts| && ts[k] == 0.0 ==> ts[k + 1] >= SECOND
  }

  /**
   * Between any two calls, both included, no more bytes are admitted than a full bucket and what flows in meanwhile.
   */
  ghost predicate Bounded(l: Limit, ts: seq<real>, sizes: seq<nat>)
    requires |ts| == |sizes|
  {
    forall i, j :: 0 <= i <= j < |ts| ==>
      Admitted(l, ts, sizes, i, j) as real <= l.full + l.inflow((ts[j] - ts[i]) / SECOND)
  }

  /** A call leaves between nothing and a full bucket, and notes the time. */
  lemma {:induction false} TokensBounded(l: Limit, ts: seq<real>, sizes: seq<nat>, k: nat)
    requires Steady(l) && k < |ts| == |sizes| && Nondecreasing(ts)
    ensures var b := After(l, ts, sizes, k + 1); 0.0 <= b.tokens <= l.full && b.lastRefill == ts[k]
    decreases k
  {
    if k > 0 { TokensBounded(l, ts, sizes, k - 1); }
    assert Refilled(After(l, ts, sizes, k), l, ts[k]).tokens >= 0.0;
  }

  /** What call k takes and leaves is what the refill gave, at most a full bucket. */
  lemma CallAtMostFull(l: Limit, ts: seq<real>, sizes: seq<nat>, k: nat)
    requires k < |ts| == |sizes|
    ensures Taken(l, ts, sizes, k) as real + After(l, ts, sizes, k + 1).tokens
            == Refilled(After(l, ts, sizes, k), l, ts[k]).tokens <= l.full
  {
  }

  /** Unless a zero reading was taken for "never refilled", it is at most what was left and what has flowed in since. */
  lemma CallAtMostInflow(l: Limit, ts: seq<real>, sizes: seq<nat>, k: nat)
    requires Steady(l) && 0 < k < |ts| == |sizes| && Nondecreasing(ts) && ZeroIsFollowedByASecond(ts)
    ensures Refilled(After(l, ts, sizes, k), l, ts[k]).tokens
            <= After(l, ts, sizes, k).tokens + l.inflow((ts[k] - ts[k - 1]) / SECOND)
  {
    TokensBounded(l, ts, sizes, k - 1);
    if ts[k - 1] == 0.0 {
      var seconds := (ts[k] - ts[k - 1]) / SECOND;
      assert Adds(l, seconds, 1.0);
    }
  }

  lemma {:induction false} AdmittedPlusTokens(l: Limit, ts: seq<real>, sizes: seq<nat>, i: nat, j: nat)
    requires Steady(l) && i <= j < |ts| == |sizes| && Nondecreasing(ts) && ZeroIsFollowedByASecond(ts)
    ensures Admitted(l, ts, sizes, i, j) as real + After(l, ts, sizes, j + 1).tokens
            <= l.full + l.inflow((ts[j] - ts[i]) / SECOND)
    decreases j
  {
    CallAtMostFull(l, ts, sizes, j);
    if j == i {
      assert l.inflow(0.0) >= 0.0;
    } else {
      AdmittedPlusTokens(l, ts, sizes, i, j - 1);
      CallAtMostInflow(l, ts, sizes, j);
      var whole, part := (ts[j] - ts[i]) / SECOND, (ts[j - 1] - ts[i]) / SECOND;
      assert Adds(l, whole, part);
      assert whole - part == (ts[j] - ts[j - 1]) / SECOND;
    }
  }

  /** The bound holds for every sequence of calls whose clock avoids that. */
  lemma BoundHolds(l: Limit, ts: seq<real>, sizes: seq<nat>)
    requires Steady(l) && |ts| == |sizes| && Nondecreasing(ts) && ZeroIsFollowedByASecond(ts)
    ensures Bounded(l, ts, sizes)
  {
    forall i, j | 0 <= i <= j < |ts|
      ensures Admitted(l, ts, sizes, i, j) as real <= l.full + l.inflow((ts[j] - ts[i]) / SECOND)
    {
      AdmittedPlusTokens(l, ts, sizes, i, j);
      TokensBounded(l, ts, sizes, j);
    }
  }

  // ---- a clock that reads zero -----------------------------------------------------------------

  /** Frames of no bytes, except two as large as the bucket at calls k and k + 1. */
  function Burst(n: nat, k: nat, size: nat): seq<nat> { seq(n, i => if i == k || i == k + 1 then size else 0) }

  lemma {:induction false} BucketStaysFull(l: Limit, ts: seq<real>, size: nat, k: nat, m: nat)
    requires Steady(l) && m <= k < |ts| && Nondecreasing(ts)
    ensures var sizes := Burst(|ts|, k, size); Refilled(After(l, ts, sizes, m), l, ts[m]).tokens == l.full
    decreases m
  {
    var sizes := Burst(|ts|, k, size);
    assert l.inflow(0.0) >= 0.0;
    if m > 0 {
      BucketStaysFull(l, ts, size, k, m - 1);
      assert sizes[m - 1] == 0;
      TokensBounded(l, ts, sizes, m - 1);
    }
  }

  /** Two full buckets pass if the second call comes right after a zero reading. */
  lemma TwoFullBuckets(l: Limit, ts: seq<real>, k: nat, size: nat)
    requires Steady(l) && k + 1 < |ts| && ts[k] == 0.0 && Nondecreasing(ts) && size as real == l.full
    ensures Admitted(l, ts, Burst(|ts|, k, size), k, k + 1) == 2 * size
  {
    var sizes := Burst(|ts|, k, size);
    BucketStaysFull(l, ts, size, k, k);
    assert Taken(l, ts, sizes, k) == size == Admitted(l, ts, sizes, k, k);
    TokensBounded(l, ts, sizes, k);
    assert l.inflow(0.0) >= 0.0;
    assert Taken(l, ts, sizes, k + 1) == size;
  }

  lemma LessThanTwice(rate: real, seconds: real)
    requires rate > 0.0 && seconds < 1.0
    ensures RateLimit(rate).full + RateLimit(rate).inflow(seconds) < 2.0 * rate
  {
    LessThanWhole(seconds, rate);
    assert RateLimit(rate).full == rate && RateLimit(rate).inflow(seconds) == seconds * rate;
  }

  lemma LessThanWhole(part: real, whole: real)
    requires part < 1.0 && whole > 0.0
    ensures part * whole < whole
  {
    PositiveProduct(1.0 - part, whole);
    assert (1.0 - part) * whole == whole - part * whole;
  }

  lemma PositiveProduct(a: real, b: real)
    requires a > 0.0 && b > 0.0
    ensures a * b > 0.0
  {
  }

  lemma ZeroReadingBreaksBound(rate: nat, ts: seq<real>, k: nat)
    requires rate >= 1 && k + 1 < |ts| && Nondecreasing(ts) && ts[k] == 0.0 && ts[k + 1] < SECOND
    ensures !Bounded(RateLimit(rate as real), ts, Burst(|ts|, k, rate))
  {
    var l := RateLimit(rate as real);
    RateIsSteady(rate as real);
    TwoFullBuckets(l, ts, k, rate);
    LessThanTwice(rate as real, (ts[k + 1] - ts[k]) / SECOND);
    assert (2 * rate) as real == 2.0 * rate as real;
    assert Admitted(l, ts, Burst(|ts|, k, rate), k, k + 1) as real > l.full + l.inflow((ts[k + 1] - ts[k]) / SECOND);
  }

  /** For a whole number of bytes per second: the bound holds for all frame sizes exactly on clocks that avoid that. */
  lemma RateBoundExactly(rate: nat, ts: seq<real>)
    requires rate >= 1 && Nondecreasing(ts)
    ensures (forall sizes: seq<nat> :: |sizes| == |ts| ==> Bounded(RateLimit(rate as real), ts, sizes))
            <==> ZeroIsFollowedByASecond(ts)
  {
    if ZeroIsFollowedByASecond(ts) {
      RateIsSteady(rate as real);
      forall sizes: seq<nat> | |sizes| == |ts| ensures Bounded(RateLimit(rate as real), ts, sizes) {
        BoundHolds(RateLimit(rate as real), ts, sizes);
      }
    } else {
      var k :| 0 <= k && k + 1 < |ts| && ts[k] == 0.0 && ts[k + 1] < SECOND;
      ZeroReadingBreaksBound(rate, ts, k);
      assert |Burst(|ts|, k, rate)| == |ts|;
    }
  }

  // ---- any rate --------------------------------------------------------------------------------

  /** The whole bytes in a full bucket. */
  function Whole(l: Limit): int { l.full.Floor }

  /** A first reading of 0 leaves a bucket that the next call takes for new, so the rest runs as if it came first. */
  lemma {:induction false} AfterZero(l: Limit, ts: seq<real>, sizes: seq<nat>, k: nat)
    requires 0 < |ts| == |sizes| && ts[0] == 0.0 && k < |ts| - 1
    ensures Call(l, ts, sizes, k + 1) == Call(l, ts[1..], sizes[1..], k)
    decreases k
  {
    if k > 0 { AfterZero(l, ts, sizes, k - 1); }
  }

  lemma {:induction false} AdmittedAfterZero(l: Limit, ts: seq<real>, sizes: seq<nat>, i: nat, j: nat)
    requires 0 < |ts| == |sizes| && ts[0] == 0.0 && i <= j < |ts| - 1
    ensures Admitted(l, ts, sizes, i + 1, j + 1) == Admitted(l, ts[1..], sizes[1..], i, j)
    decreases j
  {
    AfterZero(l, ts, sizes, j);
    if i < j { AdmittedAfterZero(l, ts, sizes, i, j - 1); }
  }

  lemma {:induction false} AdmittedFirst(l: Limit, ts: seq<real>, sizes: seq<nat>, j: nat)
    requires 0 < j < |ts| == |sizes|
    ensures Admitted(l, ts, sizes, 0, j) == Taken(l, ts, sizes, 0) + Admitted(l, ts, sizes, 1, j)
    decreases j
  {
    if j > 1 { AdmittedFirst(l, ts, sizes, j - 1); }
  }

  /** No single call takes more than the whole bytes of a full bucket. */
  lemma TakenAtMostWhole(l: Limit, ts: seq<real>, sizes: seq<nat>, k: nat)
    requires Steady(l) && k < |ts| == |sizes| && Nondecreasing(ts)
    ensures Taken(l, ts, sizes, k) <= Whole(l)
  {
    CallAtMostFull(l, ts, sizes, k);
    TokensBounded(l, ts, sizes, k);
  }

  /** A bucket of less than a byte lets no byte through. */
  lemma {:induction false} NoneAdmitted(l: Limit, ts: seq<real>, sizes: seq<nat>, i: nat, j: nat)
    requires Steady(l) && l.full < 1.0 && i <= j < |ts| == |sizes| && Nondecreasing(ts)
    ensures Admitted(l, ts, sizes, i, j) == 0
    decreases j
  {
    TakenAtMostWhole(l, ts, sizes, j);
    if i < j { NoneAdmitted(l, ts, sizes, i, j - 1); }
  }

  /** The clock never goes back, and these are its first two readings. */
  ghost predicate Begins(ts: seq<real>, first: real, second: real) {
    |ts| >= 2 && ts[0] == first && ts[1] == second && Nondecreasing(ts)
  }

  lemma InflowBetween(l: Limit, a: real, b: real)
    requires Steady(l)
    ensures l.inflow((a - b) / SECOND) == l.inflow(a / SECOND) - l.inflow(b / SECOND)
  {
    assert Adds(l, a / SECOND, b / SECOND);
    assert (a - b) / SECOND == a / SECOND - b / SECOND;
  }

  lemma BoundOf(l: Limit, ts: seq<real>, sizes: seq<nat>, i: nat, j: nat)
    requires |ts| == |sizes| && Bounded(l, ts, sizes) && i <= j < |ts|
    ensures Admitted(l, ts, sizes, i, j) as real <= l.full + l.inflow((ts[j] - ts[i]) / SECOND)
  {
  }

  ghost predicate LateStart(l: Limit, ts: seq<real>, sizes: seq<nat>) {
    && l.full >= 1.0 && |sizes| == |ts| >= 2 && Begins(ts, 0.0, ts[1])
    && Whole(l) as real <= l.inflow(ts[1] / SECOND)
  }

  /** Behind the first reading no other is 0, and the bound holds. */
  lemma RestBounded(l: Limit, ts: seq<real>, sizes: seq<nat>)
    requires Steady(l) && LateStart(l, ts, sizes)
    ensures Bounded(l, ts[1..], sizes[1..])
  {
    InflowBetween(l, 0.0, 0.0);
    assert ts[1] > 0.0;
    assert forall k :: 0 <= k < |ts[1..]| ==> ts[1..][k] == ts[k + 1];
    BoundHolds(l, ts[1..], sizes[1..]);
  }

  lemma RestBound(l: Limit, ts: seq<real>, sizes: seq<nat>, i: nat, j: nat)
    requires Steady(l) && LateStart(l, ts, sizes) && i <= j < |ts| - 1
    ensures Admitted(l, ts[1..], sizes[1..], i, j) as real <= l.full + l.inflow((ts[j + 1] - ts[i + 1]) / SECOND)
  {
    RestBounded(l, ts, sizes);
    BoundOf(l, ts[1..], sizes[1..], i, j);
    assert ts[1..][j] == ts[j + 1] && ts[1..][i] == ts[i + 1];
  }

  lemma BoundBehind(l: Limit, ts: seq<real>, sizes: seq<nat>, i: nat, j: nat)
    requires Steady(l) && LateStart(l, ts, sizes) && i <= j < |ts| - 1
    ensures Admitted(l, ts, sizes, i + 1, j + 1) as real <= l.full + l.inflow((ts[j + 1] - ts[i + 1]) / SECOND)
  {
    AdmittedAfterZero(l, ts, sizes, i, j);
    RestBound(l, ts, sizes, i, j);
  }

  lemma AddUp(l: Limit, first: int, rest: int, second: real, t: real)
    requires Steady(l) && first <= Whole(l) && Whole(l) as real <= l.inflow(second / SECOND)
    requires rest as real <= l.full + l.inflow((t - second) / SECOND)
    ensures (first + rest) as real <= l.full + l.inflow((t - 0.0) / SECOND)
  {
    InflowBetween(l, t, second);
  }

  lemma BoundFromFirst(l: Limit, ts: seq<real>, sizes: seq<nat>, j: nat)
    requires Steady(l) && LateStart(l, ts, sizes) && j < |ts|
    ensures Admitted(l, ts, sizes, 0, j) as real <= l.full + l.inflow((ts[j] - ts[0]) / SECOND)
  {
    TakenAtMostWhole(l, ts, sizes, 0);
    if j == 0 {
      InflowBetween(l, 0.0, 0.0);
    } else {
      AdmittedFirst(l, ts, sizes, j);
      BoundBehind(l, ts, sizes, 0, j - 1);
      AddUp(l, Taken(l, ts, sizes, 0), Admitted(l, ts, sizes, 1, j), ts[1], ts[j]);
    }
  }

  /** A first reading of 0 does no harm if the whole bytes of a bucket have flowed in by the second. */
  lemma LateEnough(l: Limit, ts: seq<real>, sizes: seq<nat>)
    requires Steady(l) && LateStart(l, ts, sizes)
    ensures Bounded(l, ts, sizes)
  {
    forall i, j | 0 <= i <= j < |ts|
      ensures Admitted(l, ts, sizes, i, j) as real <= l.full + l.inflow((ts[j] - ts[i]) / SECOND)
    {
      if i > 0 { BoundBehind(l, ts, sizes, i - 1, j - 1); } else { BoundFromFirst(l, ts, sizes, j); }
    }
  }

  lemma TooSmall(l: Limit, ts: seq<real>, sizes: seq<nat>)
    requires Steady(l) && l.full < 1.0 && |sizes| == |ts| && Nondecreasing(ts)
    ensures Bounded(l, ts, sizes)
  {
    forall i, j | 0 <= i <= j < |ts|
      ensures Admitted(l, ts, sizes, i, j) as real <= l.full + l.inflow((ts[j] - ts[i]) / SECOND)
    {
      NoneAdmitted(l, ts, sizes, i, j);
      assert ts[j] >= ts[i];
    }
  }

  lemma NoZeroReading(l: Limit, ts: seq<real>, sizes: seq<nat>)
    requires Steady(l) && |sizes| == |ts| >= 1 && Nondecreasing(ts) && ts[0] > 0.0
    ensures Bounded(l, ts, sizes)
  {
    BoundHolds(l, ts, sizes);
  }

  // ---- and when it fails -------------------------------------------------------------------------

  /** By `soon` the bucket, emptied of its whole bytes at `second`, holds one byte more. */
  ghost predicate OneMore(l: Limit, second: real, soon: real) {
    soon >= second && l.full - Whole(l) as real + l.inflow((soon - second) / SECOND) == 1.0
  }

  /** The whole bytes of a bucket at 0, again at the second reading, and the byte that has come together by then. */
  lemma ThreeCalls(l: Limit, second: real, soon: real)
    requires Steady(l) && l.full >= 1.0 && second >= 0.0 && OneMore(l, second, soon)
    ensures Admitted(l, [0.0, second, soon], [Whole(l), Whole(l), 1], 0, 2) == 2 * Whole(l) + 1
  {
    var ts, sizes := [0.0, second, soon], [Whole(l), Whole(l), 1];
    assert Adds(l, 0.0, 0.0);
    assert (second - second) / SECOND == 0.0;
    assert After(l, ts, sizes, 1) == Bucket(l.full - Whole(l) as real, 0.0);
    assert Taken(l, ts, sizes, 0) == Whole(l);
    assert After(l, ts, sizes, 2).tokens == l.full - Whole(l) as real && Taken(l, ts, sizes, 1) == Whole(l);
    assert Admitted(l, ts, sizes, 0, 1) == 2 * Whole(l);
    if second != 0.0 { assert Taken(l, ts, sizes, 2) == 1; }
  }

  lemma TooEarly(l: Limit, second: real, soon: real)
    requires Steady(l) && l.full >= 1.0 && second >= 0.0 && OneMore(l, second, soon)
    requires l.inflow(second / SECOND) < Whole(l) as real
    ensures !Bounded(l, [0.0, second, soon], [Whole(l), Whole(l), 1])
  {
    var ts, sizes := [0.0, second, soon], [Whole(l), Whole(l), 1];
    ThreeCalls(l, second, soon);
    InflowBetween(l, soon, second);
    assert Admitted(l, ts, sizes, 0, 2) as real > l.full + l.inflow((ts[2] - ts[0]) / SECOND);
  }

  lemma TimeOfOneMore(rate: real, second: real) returns (soon: real)
    requires rate >= 1.0
    ensures OneMore(RateLimit(rate), second, soon)
  {
    var missing := 1.0 - (rate - rate.Floor as real);
    var wait := missing / rate;
    soon := second + wait * SECOND;
    assert (soon - second) / SECOND == wait;
    assert wait * rate == missing;
  }

  ghost predicate BoundedFrom(l: Limit, first: real, second: real) {
    forall ts: seq<real>, sizes: seq<nat> :: Begins(ts, first, second) && |sizes| == |ts| ==> Bounded(l, ts, sizes)
  }

  /**
   * At any rate, on clocks that never show less than 0: the bound holds for all frame sizes and however the clock goes
   * on, exactly if the first reading is not 0 or the whole bytes of a full bucket have flowed in by the second.
   */
  lemma AnyRateExactly(rate: real, first: real, second: real)
    requires rate > 0.0 && 0.0 <= first <= second
    ensures BoundedFrom(RateLimit(rate), first, second)
            <==> first != 0.0 || rate.Floor as real <= second / SECOND * rate
  {
    var l := RateLimit(rate);
    RateIsSteady(rate);
    assert l.inflow(second / SECOND) == second / SECOND * rate;
    if first != 0.0 || rate.Floor as real <= second / SECOND * rate {
      forall ts: seq<real>, sizes: seq<nat> | Begins(ts, first, second) && |sizes| == |ts|
        ensures Bounded(l, ts, sizes)
      {
        if first != 0.0 { NoZeroReading(l, ts, sizes); }
        else if rate < 1.0 { TooSmall(l, ts, sizes); }
        else { LateEnough(l, ts, sizes); }
      }
    } else {
      assert second / SECOND * rate >= 0.0;
      var soon := TimeOfOneMore(rate, second);
      TooEarly(l, second, soon);
      assert Begins([0.0, second, soon], first, second);
    }
  }

  // ---- the stage -------------------------------------------------------------------------------

  /**
   * One claim of so many bytes, in the rule's kilobits and the clock's nanoseconds: a bucket of a second's worth, full
   * at first, filled up by what has come in since the last refill, lets them through if it holds that many and loses
   * them then.
   */
  lemma TakeExactly(b: Bucket, r: FaultRule, now: real, size: nat)
    requires r.bandwidthKbps > 0.0
    ensures var second := r.bandwidthKbps * 125.0;
            var come := b.tokens + (now - b.lastRefill) / 1_000_000_000.0 * second;
            var held := if b.lastRefill == 0.0 || come > second then second else come;
            Take(b, LimitOf(r), now, size)
            == if held >= size as real then Admission(Bucket(held - size as real, now), true)
               else Admission(Bucket(held, now), false)
  {
    assert r.bandwidthKbps * 1000.0 / 8.0 == r.bandwidthKbps * 125.0;
    assert (now - now) / SECOND * (r.bandwidthKbps * 125.0) == 0.0;
  }

  /** If all are admitted every bandwidth rule has had its claim, in turn, on what the ones before have left. */
  lemma {:induction false} AdmitInTurn(active: seq<FaultRule>, k: nat, i: nat, b: Bucket, size: nat, clock: nat -> real)
    requires i < k <= |active| && Admit(active, k, b, size, clock).admitted
    ensures var before, after := Admit(active, i, b, size, clock), Admit(active, i + 1, b, size, clock);
            && before.admitted && after.admitted
            && after == if active[i].kind == BandwidthLimit && active[i].bandwidthKbps > 0.0
                        then Take(before.bucket, LimitOf(active[i]), clock(i), size) else before
    decreases k
  {
    if i < k - 1 { AdmitInTurn(active, k - 1, i, b, size, clock); }
  }

  /** If not, one of them has refused, and none after it has had its turn. */
  lemma {:induction false} AdmitRefused(active: seq<FaultRule>, k: nat, b: Bucket, size: nat, clock: nat -> real)
    returns (i: nat)
    requires k <= |active| && !Admit(active, k, b, size, clock).admitted
    ensures i < k && active[i].kind == BandwidthLimit && active[i].bandwidthKbps > 0.0
    ensures var before := Admit(active, i, b, size, clock);
            before.admitted
            && Take(before.bucket, LimitOf(active[i]), clock(i), size) == Admit(active, k, b, size, clock)
    decreases k
  {
    i := k - 1;
    if !Admit(active, i, b, size, clock).admitted { i := AdmitRefused(active, i, b, size, clock); }
  }

  predicate Limits(r: FaultRule) { r.kind == BandwidthLimit && r.bandwidthKbps > 0.0 }

  /** With one bandwidth rule active the stage is one call to its bucket, and with none it is no call. */
  lemma {:induction false} SingleLimit(active: seq<FaultRule>, k: nat, i: nat, b: Bucket, size: nat, clock: nat -> real)
    requires k <= |active| && i < |active| && Limits(active[i])
    requires forall j :: 0 <= j < |active| && Limits(active[j]) ==> j == i
    ensures Admit(active, k, b, size, clock)
            == if k <= i then Admission(b, true) else Take(b, LimitOf(active[i]), clock(i), size)
    decreases k
  {
    if k > 0 {
      SingleLimit(active, k - 1, i, b, size, clock);
      assert Limits(active[k - 1]) ==> k - 1 == i;
    }
  }
}

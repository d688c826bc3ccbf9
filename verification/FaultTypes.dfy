/** Fault rules, and what each stage of the fault pipeline makes of the rules active for a frame. */
module FaultTypes {
  import opened Bytes

  type Payload = seq<byte>

  datatype FaultKind =
    | NoFault | Delay | Drop | Duplicate | Corrupt | Reorder | BurstLoss | BandwidthLimit | EcuDisconnect
    | ProcessRestart

  /** An empty stream means every stream. */
  datatype FaultRule = FaultRule(
    kind: FaultKind, stream: string, start: real, duration: real,
    delayMs: real, dropRate: real, bandwidthKbps: real, corruptBits: u32)

  predicate ActiveAt(r: FaultRule, t: real) { r.start <= t < r.start + r.duration }

  predicate Matches(r: FaultRule, stream: string) { r.stream == "" || r.stream == stream }

  /** The first k rules that apply to a stream at a time, in order. */
  function Active(rules: seq<FaultRule>, k: nat, stream: string, t: real): seq<FaultRule>
    requires k <= |rules|
    decreases k
  {
    if k == 0 then []
    else
      var r := rules[k - 1];
      Active(rules, k - 1, stream, t) + if Matches(r, stream) && ActiveAt(r, t) then [r] else []
  }

  /** A rule is active exactly if it is among the first k, matches the stream, and its window holds the time. */
  lemma {:induction false} ActiveExactly(rules: seq<FaultRule>, k: nat, stream: string, t: real, r: FaultRule)
    requires k <= |rules|
    ensures r in Active(rules, k, stream, t)
            <==> r in rules[..k] && (r.stream == "" || r.stream == stream) && r.start <= t < r.start + r.duration
    decreases k
  {
    if k > 0 {
      ActiveExactly(rules, k - 1, stream, t, r);
      assert rules[..k] == rules[..k - 1] + [rules[k - 1]];
    }
  }

  /** The active rules are in the order of the rules: rule j, if it applies, comes right behind those before it. */
  lemma {:induction false} ActiveInOrder(rules: seq<FaultRule>, k: nat, stream: string, t: real, j: nat)
    requires j < k <= |rules|
    ensures var r, before, active := rules[j], Active(rules, j, stream, t), Active(rules, k, stream, t);
            && |before| <= |active| && active[..|before|] == before
            && ((r.stream == "" || r.stream == stream) && r.start <= t < r.start + r.duration ==>
                  |before| < |active| && active[|before|] == r && |Active(rules, j + 1, stream, t)| == |before| + 1)
            && (!((r.stream == "" || r.stream == stream) && r.start <= t < r.start + r.duration) ==>
                  Active(rules, j + 1, stream, t) == before)
    decreases k
  {
    if j < k - 1 { ActiveInOrder(rules, k - 1, stream, t, j); }
  }

  predicate HasKind(active: seq<FaultRule>, kind: FaultKind) { exists i :: 0 <= i < |active| && active[i].kind == kind }

  /**
   * The random draws of one call: a number in [0, 1) for the rule at index i, and for its j-th flipped bit a number the
   * position is taken from and one the bit is taken from.
   */
  datatype Draws = Draws(uniform: nat -> real, position: (nat, nat) -> nat, bit: (nat, nat) -> nat)

  /** Some drop rule among the first k draws below its rate. */
  predicate DropHit(active: seq<FaultRule>, k: nat, draws: Draws)
    requires k <= |active|
  {
    exists i ::
      0 <= i < k && active[i].kind == Drop && active[i].dropRate > 0.0 && draws.uniform(i) < active[i].dropRate
  }

  // ---- the token bucket ----------------------------------------------------------------------

  /** lastRefill is 0 until the first refill, in nanoseconds. */
  datatype Bucket = Bucket(tokens: real, lastRefill: real)

  datatype Admission = Admission(bucket: Bucket, admitted: bool)

  function Min(a: real, b: real): real { if a <= b then a else b }

  function Max(a: real, b: real): real { if a >= b then a else b }

  /** A bucket's size, and what flows in during so many seconds. */
  datatype Limit = Limit(full: real, inflow: real -> real)

  /** A bucket that holds one second's worth. */
  function RateLimit(bytesPerSecond: real): Limit {
    Limit(bytesPerSecond, (seconds: real) => seconds * bytesPerSecond)
  }

  function LimitOf(r: FaultRule): Limit { RateLimit(r.bandwidthKbps * 1000.0 / 8.0) }

  const SECOND := 1_000_000_000.0

  function Refilled(b: Bucket, l: Limit, now: real): Bucket {
    var start := if b.lastRefill == 0.0 then Bucket(l.full, now) else b;
    Bucket(Min(l.full, start.tokens + l.inflow((now - start.lastRefill) / SECOND)), now)
  }

  function Take(b: Bucket, l: Limit, now: real, size: nat): Admission {
    var full := Refilled(b, l, now);
    if full.tokens < size as real then Admission(full, false)
    else Admission(full.(tokens := full.tokens - size as real), true)
  }

  /** The first k rules' bandwidth limits; clock gives the reading each rule takes. */
  function Admit(active: seq<FaultRule>, k: nat, b: Bucket, size: nat, clock: nat -> real): Admission
    requires k <= |active|
    decreases k
  {
    if k == 0 then Admission(b, true)
    else
      var before := Admit(active, k - 1, b, size, clock);
      var r := active[k - 1];
      if !before.admitted || r.kind != BandwidthLimit || r.bandwidthKbps <= 0.0 then before
      else Take(before.bucket, LimitOf(r), clock(k - 1), size)
  }

  // ---- corruption ----------------------------------------------------------------------------

  /** One bit of a byte inverted. */
  function FlipBit(b: byte, bit: nat): byte
    requires bit < 8
  {
    assert Pow2(8) == 256 && Pow2(bit) < Pow2(8) by { SmallPowers(bit); }
    XorBound(b, Pow2(bit), 8);
    Xor(b, Pow2(bit))
  }

  lemma SmallPowers(bit: nat)
    requires bit < 8
    ensures Pow2(8) == 256 && Pow2(bit) < 256
    decreases 8 - bit
  {
    if bit < 7 { SmallPowers(bit + 1); assert Pow2(bit + 1) == 2 * Pow2(bit); } else { assert Pow2(8) == 2 * Pow2(7); }
  }

  /** A flip changes the byte, and the same flip again undoes it. */
  lemma FlipUndone(b: byte, bit: nat)
    requires bit < 8
    ensures FlipBit(b, bit) != b && FlipBit(FlipBit(b, bit), bit) == b
  {
    var p := Pow2(bit);
    XorCancel(b, p);
    if Xor(b, p) == b {
      XorComm(b, p);
      XorCancel(p, b);
      XorSelf(b);
    }
  }

  /** The flip adds or takes away exactly the weight of its bit. */
  lemma {:induction false} FlipExactly(b: nat, bit: nat)
    ensures Xor(b, Pow2(bit)) == if b / Pow2(bit) % 2 == 0 then b + Pow2(bit) else b - Pow2(bit)
    decreases bit
  {
    XorStep(b, Pow2(bit));
    if bit == 0 {
      XorZero(b / 2);
    } else {
      FlipExactly(b / 2, bit - 1);
      HalvesOf(b, Pow2(bit - 1));
    }
  }

  lemma HalvesOf(b: nat, p: nat)
    requires p > 0
    ensures b / (2 * p) == b / 2 / p && (2 * p) / 2 == p && (2 * p) % 2 == 0
  {
    var q, r := b / 2 / p, b / 2 % p;
    assert b / 2 == q * p + r;
    assert b == q * (2 * p) + (2 * r + b % 2);
    QuotientIs(b, 2 * p, q, 2 * r + b % 2);
  }

  lemma QuotientIs(x: nat, m: nat, q: nat, r: nat)
    requires m > 0 && r < m && x == q * m + r
    ensures x / m == q
  {
    var d := x / m - q;
    assert d * m == r - x % m;
    assert d * m < m && d * m + m > 0;
  }

  /** How many bytes of two payloads of one length differ. */
  function Differing(p: Payload, q: Payload, k: nat): nat
    requires k <= |p| == |q|
    decreases k
  {
    if k == 0 then 0 else Differing(p, q, k - 1) + if p[k - 1] == q[k - 1] then 0 else 1
  }

  lemma {:induction false} OneMoreDiffers(p: Payload, q: Payload, at: nat, b: byte, k: nat)
    requires k <= |p| == |q| && at < |p|
    ensures Differing(p, q[at := b], k) <= Differing(p, q, k) + if at < k then 1 else 0
    decreases k
  {
    if k > 0 { OneMoreDiffers(p, q, at, b, k - 1); }
  }

  /** The first j flips of the rule at index i. */
  function Flips(p: Payload, i: nat, j: nat, draws: Draws): (q: Payload)
    requires p != []
    ensures |q| == |p|
    decreases j, i
  {
    if j == 0 then p
    else
      var q := Flips(p, i, j - 1, draws);
      var at := draws.position(i, j - 1) % |p|;
      q[at := FlipBit(q[at], draws.bit(i, j - 1) % 8)]
  }

  /** j flips touch at most j bytes. */
  lemma {:induction false} FlipsTouchFew(p: Payload, i: nat, j: nat, draws: Draws)
    requires p != []
    ensures Differing(p, Flips(p, i, j, draws), |p|) <= j
    decreases j
  {
    if j == 0 {
      NoneDiffer(p, |p|);
    } else {
      FlipsTouchFew(p, i, j - 1, draws);
      var q := Flips(p, i, j - 1, draws);
      var at := draws.position(i, j - 1) % |p|;
      OneMoreDiffers(p, q, at, FlipBit(q[at], draws.bit(i, j - 1) % 8), |p|);
    }
  }

  lemma {:induction false} NoneDiffer(p: Payload, k: nat)
    requires k <= |p|
    ensures Differing(p, p, k) == 0
    decreases k
  {
    if k > 0 { NoneDiffer(p, k - 1); }
  }

  function Corrupted(active: seq<FaultRule>, k: nat, p: Payload, draws: Draws): (q: Payload)
    requires k <= |active|
    ensures |q| == |p|
    ensures !HasKind(active, Corrupt) ==> q == p
    decreases k
  {
    if k == 0 then p
    else
      var q := Corrupted(active, k - 1, p, draws);
      if active[k - 1].kind == Corrupt && q != [] then Flips(q, k - 1, active[k - 1].corruptBits, draws) else q
  }

  /** How many of the first k rules are of a kind. */
  function CountKind(active: seq<FaultRule>, k: nat, kind: FaultKind): nat
    requires k <= |active|
    decreases k
  {
    if k == 0 then 0 else CountKind(active, k - 1, kind) + if active[k - 1].kind == kind then 1 else 0
  }

  /** Whether digit `bit` of a byte is one. */
  predicate IsSet(b: nat, bit: nat)
    decreases bit
  {
    if bit == 0 then b % 2 == 1 else IsSet(b / 2, bit - 1)
  }

  /** A flip of bit k inverts that bit and no other. */
  lemma {:induction false} FlipInverts(b: nat, k: nat, bit: nat)
    ensures IsSet(Xor(b, Pow2(k)), bit) <==> IsSet(b, bit) != (k == bit)
    decreases bit
  {
    XorStep(b, Pow2(k));
    if bit > 0 {
      if k == 0 { XorZero(b / 2); } else { FlipInverts(b / 2, k - 1, bit - 1); }
    }
  }

  /** Reads one bit of a byte. */
  type Reading = byte -> bool

  ghost predicate ReadsBit(isSet: Reading, bit: nat) {
    forall b: byte, k: nat {:trigger FlipBit(b, k)} :: k < 8 ==> (isSet(FlipBit(b, k)) <==> isSet(b) != (k == bit))
  }

  /** Flip j of the rule at index i is of this bit of byte `at` in a payload of n bytes. */
  predicate Hits(draws: Draws, i: nat, j: nat, n: nat, at: nat, bit: nat)
    requires n > 0
  {
    draws.position(i, j) % n == at && draws.bit(i, j) % 8 == bit
  }

  /** The rule at index i hits it an odd number of times in its first j flips. */
  predicate OddHits(draws: Draws, i: nat, j: nat, n: nat, at: nat, bit: nat)
    requires n > 0
    decreases j
  {
    j > 0 && OddHits(draws, i, j - 1, n, at, bit) != Hits(draws, i, j - 1, n, at, bit)
  }

  /** The corrupt rules among the first k hit it an odd number of times. */
  predicate OddlyHit(active: seq<FaultRule>, k: nat, draws: Draws, n: nat, at: nat, bit: nat)
    requires k <= |active| && n > 0
    decreases k
  {
    k > 0
    && OddlyHit(active, k - 1, draws, n, at, bit)
       != (active[k - 1].kind == Corrupt && OddHits(draws, k - 1, active[k - 1].corruptBits, n, at, bit))
  }

  lemma FlipReads(isSet: Reading, p: Payload, i: nat, j: nat, draws: Draws, at: nat, bit: nat)
    requires ReadsBit(isSet, bit) && at < |p| && j > 0
    ensures isSet(Flips(p, i, j, draws)[at])
            <==> isSet(Flips(p, i, j - 1, draws)[at]) != Hits(draws, i, j - 1, |p|, at, bit)
  {
    var q, hit, k := Flips(p, i, j - 1, draws), draws.position(i, j - 1) % |p|, draws.bit(i, j - 1) % 8;
    assert Flips(p, i, j, draws) == q[hit := FlipBit(q[hit], k)];
  }

  lemma {:induction false} FlipsByDraws(isSet: Reading, p: Payload, i: nat, j: nat, draws: Draws, at: nat, bit: nat)
    requires ReadsBit(isSet, bit) && at < |p|
    ensures isSet(Flips(p, i, j, draws)[at]) <==> isSet(p[at]) != OddHits(draws, i, j, |p|, at, bit)
    decreases j
  {
    if j > 0 {
      FlipsByDraws(isSet, p, i, j - 1, draws, at, bit);
      FlipReads(isSet, p, i, j, draws, at, bit);
    }
  }

  lemma {:induction false} CorruptedReads(isSet: Reading, active: seq<FaultRule>, k: nat, p: Payload, draws: Draws,
                                          at: nat, bit: nat)
    requires ReadsBit(isSet, bit) && k <= |active| && at < |p|
    ensures isSet(Corrupted(active, k, p, draws)[at])
            <==> isSet(p[at]) != OddlyHit(active, k, draws, |p|, at, bit)
    decreases k
  {
    if k > 0 {
      CorruptedReads(isSet, active, k - 1, p, draws, at, bit);
      if active[k - 1].kind == Corrupt {
        var q := Corrupted(active, k - 1, p, draws);
        FlipsByDraws(isSet, q, k - 1, active[k - 1].corruptBits, draws, at, bit);
      }
    }
  }

  /** Every bit of a corrupted payload is inverted exactly if the corrupt rules hit it an odd number of times. */
  lemma CorruptedExactly(active: seq<FaultRule>, p: Payload, draws: Draws, at: nat, bit: nat)
    requires at < |p| && bit < 8
    ensures IsSet(Corrupted(active, |active|, p, draws)[at], bit)
            <==> IsSet(p[at], bit) != OddlyHit(active, |active|, draws, |p|, at, bit)
  {
    var isSet: Reading := (b: byte) => IsSet(b, bit);
    forall b: byte, k: nat | k < 8 ensures isSet(FlipBit(b, k)) <==> isSet(b) != (k == bit) { FlipInverts(b, k, bit); }
    CorruptedReads(isSet, active, |active|, p, draws, at, bit);
  }

  /** The longest delay among the first k rules, at least 0. */
  function DelayMs(active: seq<FaultRule>, k: nat): (d: real)
    requires k <= |active|
    ensures d >= 0.0 && forall i :: 0 <= i < k && active[i].kind == Delay ==> d >= active[i].delayMs
    ensures d == 0.0 || exists i :: 0 <= i < k && active[i].kind == Delay && d == active[i].delayMs
    decreases k
  {
    if k == 0 then 0.0
    else
      var before := DelayMs(active, k - 1);
      if active[k - 1].kind == Delay then Max(before, active[k - 1].delayMs) else before
  }
}

/**
 * CRC32C (Castagnoli, section 12.1 of RFC 3720). `FeedBits` is the bit-serial reflected division that defines the
 * code; the table form, the eight-byte form and the burst-detection theorems are all proved against it.
 */
module Crc32c {
  import opened Bytes

  const POLY: u32 := 0x82F6_3B78
  const ONES: u32 := 0xFFFF_FFFF

  lemma Pow2Facts()
    ensures Pow2(8) == 0x100 && Pow2(31) == 0x8000_0000 && Pow2(32) == 0x1_0000_0000
  {
    assert Pow2(8) == 16 * Pow2(4);
    assert Pow2(16) == 16 * Pow2(12) && Pow2(12) == 16 * Pow2(8);
    assert Pow2(24) == 16 * Pow2(20) && Pow2(20) == 16 * Pow2(16);
    assert Pow2(31) == 8 * Pow2(28) && Pow2(28) == 16 * Pow2(24);
  }

  // ---- the bit-serial definition ------------------------------------------------

  function XorU32(a: u32, b: u32): u32 {
    Pow2Facts();
    XorBound(a, b, 32);
    Xor(a, b)
  }

  /** One division step: shift right and subtract the polynomial if a one fell out. */
  function Shift(x: u32): u32 {
    if x % 2 == 1 then XorU32(x / 2, POLY) else x / 2
  }

  function Shifts(x: u32, n: nat): u32
    decreases n, x
  {
    if n == 0 then x else Shift(Shifts(x, n - 1))
  }

  /** Bit-serial division of the n low bits of v, least significant bit first. */
  function FeedBits(crc: u32, v: nat, n: nat): u32
    decreases n, v, crc
  {
    if n == 0 then crc else FeedBits(Shift(XorU32(crc, v % 2)), v / 2, n - 1)
  }

  function Run(crc: u32, data: seq<byte>): u32
    decreases |data|
  {
    if data == [] then crc else Run(FeedBits(crc, data[0], 8), data[1..])
  }

  function Crc(data: seq<byte>): u32 {
    XorU32(Run(ONES, data), ONES)
  }

  lemma {:induction false} RunAppend(crc: u32, a: seq<byte>, b: seq<byte>)
    ensures Run(crc, a + b) == Run(Run(crc, a), b)
    decreases |a|
  {
    if a == [] {
      assert a + b == b;
    } else {
      assert (a + b)[1..] == a[1..] + b;
      RunAppend(FeedBits(crc, a[0], 8), a[1..], b);
    }
  }

  // ---- the step is linear enough, and one-to-one ----------------------------------

  lemma AbsorbOne(x: u32, d: u32)
    requires 2 * d < 0x1_0000_0000
    ensures Shift(XorU32(x, 2 * d)) == XorU32(Shift(x), d)
  {
    XorStep(x, 2 * d);
    if x % 2 == 1 { XorSwap(x / 2, d, POLY); }
  }

  /** A mask whose n low bits are zero passes through n steps untouched. */
  lemma {:induction false} Absorb(x: u32, d: u32, n: nat)
    requires Pow2(n) * d < 0x1_0000_0000
    ensures Shifts(XorU32(x, Pow2(n) * d), n) == XorU32(Shifts(x, n), d)
    decreases n
  {
    if n > 0 {
      DoubleShift(d, n);
      Absorb(x, 2 * d, n - 1);
      AbsorbOne(Shifts(x, n - 1), d);
    }
  }

  /** Adding the polynomial sets the top bit, so the bit that fell out can be read back. */
  lemma {:induction false} XorTop(a: nat, q: nat, k: nat)
    requires a < Pow2(k) && q < Pow2(k)
    ensures Xor(a, Pow2(k) + q) == Pow2(k) + Xor(a, q)
    decreases k
  {
    XorStep(a, Pow2(k) + q);
    XorStep(a, q);
    if k > 0 { XorTop(a / 2, q / 2, k - 1); }
  }

  lemma ShiftInjective(x: u32, y: u32)
    requires Shift(x) == Shift(y)
    ensures x == y
  {
    Pow2Facts();
    var q := POLY - Pow2(31);
    XorTop(x / 2, q, 31);
    XorTop(y / 2, q, 31);
    XorCancel(x / 2, POLY);
    XorCancel(y / 2, POLY);
  }

  lemma {:induction false} ShiftsInjective(x: u32, y: u32, n: nat)
    requires Shifts(x, n) == Shifts(y, n)
    ensures x == y
  {
    if n > 0 {
      ShiftInjective(Shifts(x, n - 1), Shifts(y, n - 1));
      ShiftsInjective(x, y, n - 1);
    }
  }

  lemma {:induction false} ShiftsFront(x: u32, n: nat)
    ensures Shifts(x, n + 1) == Shifts(Shift(x), n)
  {
    if n > 0 { ShiftsFront(x, n - 1); }
  }

  /** Feeding bits one at a time equals adding them all up front and then shifting. */
  lemma {:induction false} FeedIsShift(crc: u32, v: u32, n: nat)
    requires v < Pow2(n)
    ensures FeedBits(crc, v, n) == Shifts(XorU32(crc, v), n)
    decreases n
  {
    XorZero(crc);
    if n > 0 {
      var fed := XorU32(crc, v % 2);
      assert XorU32(fed, 2 * (v / 2)) == XorU32(crc, v) by {
        XorAssoc(crc, v % 2, 2 * (v / 2));
        XorDisjoint(v % 2, v / 2, 1);
      }
      AbsorbOne(fed, v / 2);
      FeedIsShift(Shift(fed), v / 2, n - 1);
      ShiftsFront(XorU32(crc, v), n - 1);
    }
  }

  // ---- the table form ---------------------------------------------------------------

  lemma XorOfByte(crc: u32, b: byte)
    ensures XorU32(crc, b) / 256 == crc / 256
  {
    Pow2Facts();
    XorHigh(crc % 256, crc / 256, b, 8);
    XorBound(crc % 256, b, 8);
  }

  lemma TableStep(crc: u32, b: byte)
    ensures FeedBits(crc, b, 8) == XorU32(Shifts(XorU32(crc, b) % 256, 8), crc / 256)
  {
    Pow2Facts();
    FeedIsShift(crc, b, 8);
    var x := XorU32(crc, b);
    XorOfByte(crc, b);
    XorDisjoint(x % 256, x / 256, 8);
    Absorb(x % 256, x / 256, 8);
  }

  lemma {:induction false} XorHigh(low: nat, high: nat, b: nat, k: nat)
    requires low < Pow2(k) && b < Pow2(k)
    ensures Xor(low + Pow2(k) * high, b) == Xor(low, b) + Pow2(k) * high
    decreases k
  {
    if k == 0 {
      assert low + Pow2(k) * high == high;
      XorZero(high);
    } else {
      SplitHalf(low, high, k);
      XorStep(low + Pow2(k) * high, b);
      XorStep(low, b);
      DoubleShift(high, k);
      XorHigh(low / 2, high, b / 2, k - 1);
    }
  }

  ghost predicate IsTable(t: seq<u32>) {
    |t| == 256 && forall i :: 0 <= i < 256 ==> t[i] == Shifts(i, 8)
  }

  method MakeTable() returns (table: array<u32>)
    ensures fresh(table) && IsTable(table[..])
  {
    table := new u32[256](_ => 0);
    for i := 0 to 256
      invariant forall j :: 0 <= j < i ==> table[j] == Shifts(j, 8)
    {
      var crc: u32 := i;
      for k := 0 to 8
        invariant crc == Shifts(i, k)
      {
        crc := if crc % 2 == 1 then XorU32(crc / 2, POLY) else crc / 2;
      }
      table[i] := crc;
    }
  }

  method Crc32cSoftware(table: array<u32>, crc: u32, data: seq<byte>) returns (r: u32)
    requires IsTable(table[..])
    ensures r == Run(crc, data)
  {
    r := crc;
    for i := 0 to |data|
      invariant r == Run(crc, data[..i])
    {
      TableStep(r, data[i]);
      RunSnoc(crc, data, i);
      var k := XorU32(r, data[i]) % 256;
      assert table[..][k] == Shifts(k, 8);
      r := XorU32(table[k], r / 256);
    }
    assert data[..|data|] == data;
  }

  lemma RunSnoc(crc: u32, data: seq<byte>, i: nat)
    requires i < |data|
    ensures Run(crc, data[..i + 1]) == FeedBits(Run(crc, data[..i]), data[i], 8)
  {
    assert data[..i + 1] == data[..i] + [data[i]];
    RunAppend(crc, data[..i], [data[i]]);
    var c := Run(crc, data[..i]);
    assert Run(c, [data[i]]) == Run(FeedBits(c, data[i], 8), []);
  }

  // ---- the eight-bytes-at-a-time form -------------------------------------------------

  lemma {:induction false} FeedSplit(crc: u32, low: nat, high: nat, k: nat, m: nat)
    requires low < Pow2(k)
    ensures FeedBits(crc, low + Pow2(k) * high, k + m) == FeedBits(FeedBits(crc, low, k), high, m)
    decreases k
  {
    if k == 0 {
      assert low + Pow2(k) * high == high;
    } else {
      var v := low + Pow2(k) * high;
      SplitHalf(low, high, k);
      var next := Shift(XorU32(crc, low % 2));
      assert FeedBits(crc, v, k + m) == FeedBits(next, v / 2, k - 1 + m);
      FeedSplit(next, low / 2, high, k - 1, m);
    }
  }

  /** A little-endian word fed bit by bit is the same as its bytes fed in order. */
  lemma {:induction false} WordIsBytes(crc: u32, s: seq<byte>)
    ensures FeedBits(crc, LeVal(s), 8 * |s|) == Run(crc, s)
    decreases |s|
  {
    if s != [] {
      var k, m := 8, 8 * |s[1..]|;
      assert LeVal(s) == s[0] + Pow2(k) * LeVal(s[1..]) && s[0] < Pow2(k) by { Pow2Facts(); }
      FeedSplit(crc, s[0], LeVal(s[1..]), k, m);
      WordIsBytes(FeedBits(crc, s[0], 8), s[1..]);
      assert 8 * |s| == k + m;
    }
  }

  /** The 64-bit CRC instruction: 64 bit-serial steps over a word. */
  function CrcWord64(crc: u32, chunk: u64): u32 {
    FeedBits(crc, chunk, 64)
  }

  /** The 8-bit CRC instruction. */
  function CrcWord8(crc: u32, b: byte): u32 {
    FeedBits(crc, b, 8)
  }

  /** Loading eight bytes into a 64-bit register on a little-endian machine. */
  function LoadU64(data: seq<byte>, i: nat): u64
    requires i + 8 <= |data|
  {
    LeValBound(data[i..i + 8]);
    FieldWidths();
    LeVal(data[i..i + 8])
  }

  method Crc32cHw(crc: u32, data: seq<byte>) returns (r: u32)
    ensures r == Run(crc, data)
  {
    r := crc;
    var i := 0;
    while i + 8 <= |data|
      invariant 0 <= i <= |data|
      invariant r == Run(crc, data[..i])
    {
      WordIsBytes(r, data[i..i + 8]);
      assert data[..i + 8] == data[..i] + data[i..i + 8];
      RunAppend(crc, data[..i], data[i..i + 8]);
      r := CrcWord64(r, LoadU64(data, i));
      i := i + 8;
    }
    while i < |data|
      invariant 0 <= i <= |data|
      invariant r == Run(crc, data[..i])
    {
      RunSnoc(crc, data, i);
      r := CrcWord8(r, data[i]);
      i := i + 1;
    }
    assert data[..i] == data;
  }

  /** Either implementation, chosen by the processor, computes the same code. */
  method Crc32c(data: seq<byte>, hasSse42: bool) returns (crc: u32)
    ensures crc == Crc(data)
  {
    if hasSse42 {
      crc := Crc32cHw(ONES, data);
    } else {
      var table := MakeTable();
      crc := Crc32cSoftware(table, ONES, data);
    }
    crc := XorU32(crc, ONES);
  }

  // ---- the bits of a message ---------------------------------------------------------------

  /** Binary digit p, the lowest first. */
  function Digit(x: nat, p: nat): nat
    decreases p
  {
    if p == 0 then x % 2 else Digit(x / 2, p - 1)
  }

  /** Bit p of a message, in the order in which they are fed: the lowest of each byte first. */
  function BitAt(s: seq<byte>, p: nat): nat
    requires p < 8 * |s|
  {
    Digit(s[p / 8], p % 8)
  }

  ghost predicate SameDigitsTo(x: nat, y: nat, n: nat) { forall p: nat :: p < n ==> Digit(x, p) == Digit(y, p) }

  lemma HalvesSame(x: nat, y: nat, n: nat)
    requires n > 0
    ensures SameDigitsTo(x, y, n) <==> x % 2 == y % 2 && SameDigitsTo(x / 2, y / 2, n - 1)
  {
    if SameDigitsTo(x, y, n) {
      assert Digit(x, 0) == Digit(y, 0);
      forall p: nat | p < n - 1 ensures Digit(x / 2, p) == Digit(y / 2, p) {
        assert Digit(x, p + 1) == Digit(y, p + 1);
      }
    } else if x % 2 == y % 2 && SameDigitsTo(x / 2, y / 2, n - 1) {
      forall p: nat | p < n ensures Digit(x, p) == Digit(y, p) {
        if p > 0 { assert Digit(x / 2, p - 1) == Digit(y / 2, p - 1); }
      }
    }
  }

  lemma {:induction false} DigitsFix(x: nat, y: nat, n: nat)
    requires x < Pow2(n) && y < Pow2(n) && SameDigitsTo(x, y, n)
    ensures x == y
    decreases n
  {
    if n > 0 {
      HalvesSame(x, y, n);
      DigitsFix(x / 2, y / 2, n - 1);
    }
  }

  lemma {:induction false} DigitOfByte(low: byte, high: nat, p: nat)
    ensures Digit(low + 256 * high, p) == if p < 8 then Digit(low, p) else Digit(high, p - 8)
  {
    DigitOfSum(low, high, p, 8);
    Pow2Facts();
  }

  lemma {:induction false} DigitOfSum(low: nat, high: nat, p: nat, k: nat)
    requires low < Pow2(k)
    ensures Digit(low + Pow2(k) * high, p) == if p < k then Digit(low, p) else Digit(high, p - k)
    decreases k
  {
    if k == 0 {
      assert low + Pow2(k) * high == high;
    } else {
      SplitHalf(low, high, k);
      if p > 0 { DigitOfSum(low / 2, high, p - 1, k - 1); }
    }
  }

  lemma {:induction false} BitIsDigit(s: seq<byte>, p: nat)
    requires p < 8 * |s|
    ensures BitAt(s, p) == Digit(LeVal(s), p)
    decreases |s|
  {
    DigitOfByte(s[0], LeVal(s[1..]), p);
    if p >= 8 {
      BitIsDigit(s[1..], p - 8);
      assert p / 8 == (p - 8) / 8 + 1 && p % 8 == (p - 8) % 8;
    }
  }

  lemma EightMore(n: nat)
    ensures Pow2(n + 8) == 256 * Pow2(n)
  {
    assert Pow2(n + 8) == 4 * Pow2(n + 6) && Pow2(n + 6) == 4 * Pow2(n + 4);
    assert Pow2(n + 4) == 4 * Pow2(n + 2) && Pow2(n + 2) == 4 * Pow2(n);
  }

  lemma {:induction false} BytesOfBits(n: nat)
    ensures Pow256(n) == Pow2(8 * n)
  {
    if n > 0 {
      BytesOfBits(n - 1);
      EightMore(8 * (n - 1));
    }
  }

  lemma ValueBound(s: seq<byte>)
    ensures LeVal(s) < Pow2(8 * |s|)
  {
    LeValBound(s);
    BytesOfBits(|s|);
  }

  ghost predicate SameBits(a: seq<byte>, b: seq<byte>) {
    |a| == |b| && forall p: nat :: p < 8 * |a| ==> BitAt(a, p) == BitAt(b, p)
  }

  lemma BitsFix(a: seq<byte>, b: seq<byte>)
    requires SameBits(a, b)
    ensures a == b
  {
    forall p: nat | p < 8 * |a| ensures Digit(LeVal(a), p) == Digit(LeVal(b), p) {
      BitIsDigit(a, p);
      BitIsDigit(b, p);
    }
    ValueBound(a); ValueBound(b);
    DigitsFix(LeVal(a), LeVal(b), 8 * |a|);
    LeOfLeVal(a); LeOfLeVal(b);
  }

  // ---- feeding bits is one-to-one ------------------------------------------------------------

  /** x without its n lowest digits. */
  function Drop(x: nat, n: nat): nat
    decreases n
  {
    if n == 0 then x else Drop(x / 2, n - 1)
  }

  lemma {:induction false} DigitOfDrop(x: nat, n: nat, p: nat)
    ensures Digit(Drop(x, n), p) == Digit(x, n + p)
    decreases n
  {
    if n > 0 { DigitOfDrop(x / 2, n - 1, p); }
  }

  lemma {:induction false} FeedRest(crc: u32, x: nat, n: nat, m: nat)
    ensures FeedBits(crc, x, n + m) == FeedBits(FeedBits(crc, x, n), Drop(x, n), m)
    decreases n
  {
    if n > 0 { FeedRest(Shift(XorU32(crc, x % 2)), x / 2, n - 1, m); }
  }

  /** The same bits take the same register to the same register, and different ones to different ones. */
  lemma {:induction false} FeedInjective(crc: u32, crc': u32, x: nat, y: nat, n: nat)
    requires SameDigitsTo(x, y, n)
    ensures FeedBits(crc, x, n) == FeedBits(crc', y, n) <==> crc == crc'
    decreases n
  {
    if n > 0 {
      HalvesSame(x, y, n);
      var next, next' := Shift(XorU32(crc, x % 2)), Shift(XorU32(crc', x % 2));
      FeedInjective(next, next', x / 2, y / 2, n - 1);
      if next == next' {
        ShiftInjective(XorU32(crc, x % 2), XorU32(crc', x % 2));
        XorCancel(crc, x % 2); XorCancel(crc', x % 2);
      }
    }
  }

  /** The n lowest digits of x. */
  function Low(x: nat, n: nat): (r: nat)
    ensures r < Pow2(n)
    decreases n
  {
    if n == 0 then 0 else x % 2 + 2 * Low(x / 2, n - 1)
  }

  lemma {:induction false} DigitsOfLow(x: nat, n: nat)
    ensures SameDigitsTo(x, Low(x, n), n)
    decreases n
  {
    if n > 0 {
      DigitsOfLow(x / 2, n - 1);
      HalfOfSum(x % 2, Low(x / 2, n - 1));
      HalvesSame(x, Low(x, n), n);
    }
  }

  lemma PowUpTo32(n: nat)
    requires n <= 32
    ensures Pow2(n) <= 0x1_0000_0000
    decreases 32 - n
  {
    Pow2Facts();
    if n < 32 { PowUpTo32(n + 1); }
  }

  /** Up to 32 bits are determined by the register before and the register after them. */
  lemma WindowInjective(crc: u32, x: nat, y: nat, n: nat)
    requires n <= 32 && FeedBits(crc, x, n) == FeedBits(crc, y, n)
    ensures SameDigitsTo(x, y, n)
  {
    var a, b := Low(x, n), Low(y, n);
    PowUpTo32(n);
    DigitsOfLow(x, n); DigitsOfLow(y, n);
    FeedInjective(crc, crc, x, a, n); FeedInjective(crc, crc, y, b, n);
    FeedIsShift(crc, a, n); FeedIsShift(crc, b, n);
    ShiftsInjective(XorU32(crc, a), XorU32(crc, b), n);
    XorComm(crc, a); XorComm(crc, b);
    XorCancel(a, crc); XorCancel(b, crc);
  }

  // ---- damage confined to 32 adjacent bits ----------------------------------------------------

  /** `bad` differs from `good`, but only inside w bits from bit i on; the window may reach over either end. */
  ghost predicate Within(good: seq<byte>, bad: seq<byte>, i: int, w: nat) {
    && |good| == |bad| && good != bad
    && forall p: nat :: p < 8 * |good| && !(i <= p < i + w) ==> BitAt(good, p) == BitAt(bad, p)
  }

  ghost predicate Burst(good: seq<byte>, bad: seq<byte>, i: int) { Within(good, bad, i, 32) }

  /** Damage to four adjacent bytes is such a burst. */
  lemma BytesAreBurst(good: seq<byte>, bad: seq<byte>, k: nat)
    requires |good| == |bad| && good != bad
    requires forall j :: 0 <= j < |good| && !(k <= j < k + 4) ==> good[j] == bad[j]
    ensures Burst(good, bad, 8 * k)
  {
    forall p: nat | p < 8 * |good| && !(8 * k <= p < 8 * k + 32) ensures BitAt(good, p) == BitAt(bad, p) {
      assert !(k <= p / 8 < k + 4);
    }
  }

  lemma BitOfSlice(s: seq<byte>, a: nat, b: nat, p: nat)
    requires a <= b <= |s| && p < 8 * (b - a)
    ensures BitAt(s[a..b], p) == BitAt(s, 8 * a + p)
  {
    assert (8 * a + p) / 8 == a + p / 8 && (8 * a + p) % 8 == p % 8;
  }

  /** A damaged slice is damaged by a burst. */
  lemma SliceBurst(good: seq<byte>, bad: seq<byte>, i: int, a: nat, b: nat)
    requires Burst(good, bad, i) && a <= b <= |good| && good[a..b] != bad[a..b]
    ensures Burst(good[a..b], bad[a..b], i - 8 * a)
  {
    forall p: nat | p < 8 * (b - a) && !(i - 8 * a <= p < i - 8 * a + 32)
      ensures BitAt(good[a..b], p) == BitAt(bad[a..b], p)
    {
      BitOfSlice(good, a, b, p);
      BitOfSlice(bad, a, b, p);
    }
  }

  lemma SameOutside(good: seq<byte>, bad: seq<byte>, i: int, a: nat, b: nat)
    requires Burst(good, bad, i) && a <= b <= |good|
    requires 8 * b <= i || i + 32 <= 8 * a
    ensures good[a..b] == bad[a..b]
  {
    if good[a..b] != bad[a..b] {
      SliceBurst(good, bad, i, a, b);
      BitsFix(good[a..b], bad[a..b]);
    }
  }

  lemma BurstBefore(good: seq<byte>, bad: seq<byte>, i: int, tail: seq<byte>)
    requires Burst(good, bad, i)
    ensures Burst(good + tail, bad + tail, i)
  {
    var x, y, n := good + tail, bad + tail, |good|;
    assert x[..n] == good && y[..n] == bad;
    forall p: nat | p < 8 * |x| && !(i <= p < i + 32) ensures BitAt(x, p) == BitAt(y, p) {
      if p < 8 * n {
        BitOfSlice(x, 0, n, p);
        BitOfSlice(y, 0, n, p);
      }
    }
  }

  lemma DigitsJoin(x: nat, y: nat, a: nat, b: nat)
    requires SameDigitsTo(x, y, a) && SameDigitsTo(Drop(x, a), Drop(y, a), b)
    ensures SameDigitsTo(x, y, a + b)
  {
    forall p: nat | p < a + b ensures Digit(x, p) == Digit(y, p) {
      if p >= a {
        DigitOfDrop(x, a, p - a);
        DigitOfDrop(y, a, p - a);
        assert Digit(Drop(x, a), p - a) == Digit(Drop(y, a), p - a);
      }
    }
  }

  lemma BurstChangesFeed(crc: u32, x: nat, y: nat, before: nat, window: nat, behind: nat)
    requires window <= 32 && SameDigitsTo(x, y, before)
    requires SameDigitsTo(Drop(x, before + window), Drop(y, before + window), behind)
    requires FeedBits(crc, x, before + window + behind) == FeedBits(crc, y, before + window + behind)
    ensures SameDigitsTo(x, y, before + window)
  {
    var n := before + window;
    FeedRest(crc, x, n, behind); FeedRest(crc, y, n, behind);
    FeedInjective(FeedBits(crc, x, n), FeedBits(crc, y, n), Drop(x, n), Drop(y, n), behind);
    FeedRest(crc, x, before, window); FeedRest(crc, y, before, window);
    FeedInjective(crc, crc, x, y, before);
    WindowInjective(FeedBits(crc, x, before), Drop(x, before), Drop(y, before), window);
    DigitsJoin(x, y, before, window);
  }

  lemma BurstDigits(good: seq<byte>, bad: seq<byte>, i: int, p: nat)
    requires Burst(good, bad, i) && p < 8 * |good| && !(i <= p < i + 32)
    ensures Digit(LeVal(good), p) == Digit(LeVal(bad), p)
  {
    BitIsDigit(good, p);
    BitIsDigit(bad, p);
  }

  lemma BurstChangesRun(crc: u32, good: seq<byte>, bad: seq<byte>, i: int)
    requires Burst(good, bad, i)
    ensures Run(crc, good) != Run(crc, bad)
  {
    var x, y, n := LeVal(good), LeVal(bad), 8 * |good|;
    var before: nat := if i < 0 then 0 else if i < n then i else n;
    var end: nat := if i + 32 < before then before else if i + 32 < n then i + 32 else n;
    WordIsBytes(crc, good);
    WordIsBytes(crc, bad);
    if Run(crc, good) == Run(crc, bad) {
      forall p: nat | p < before ensures Digit(x, p) == Digit(y, p) { BurstDigits(good, bad, i, p); }
      forall p: nat | p < n - end ensures Digit(Drop(x, end), p) == Digit(Drop(y, end), p) {
        BurstDigits(good, bad, i, end + p);
        DigitOfDrop(x, end, p);
        DigitOfDrop(y, end, p);
      }
      BurstChangesFeed(crc, x, y, before, end - before, n - end);
      forall p: nat | p < n ensures BitAt(good, p) == BitAt(bad, p) {
        BitIsDigit(good, p);
        BitIsDigit(bad, p);
        if p >= end { BurstDigits(good, bad, i, p); }
      }
      BitsFix(good, bad);
    }
  }

  // ---- a message and its code ------------------------------------------------------------------

  lemma FourBytes(crc: u32, w: seq<byte>)
    requires |w| == 4
    ensures LeVal(w) < 0x1_0000_0000
    ensures Run(crc, w) == Shifts(XorU32(crc, LeVal(w)), 32)
  {
    LeValBound(w);
    FieldWidths();
    Pow2Facts();
    WordIsBytes(crc, w);
    FeedIsShift(crc, LeVal(w), 32);
  }

  /** The register after a message and its own code is always the same number, and only the right code gives it. */
  lemma Residue(data: seq<byte>, code: u32)
    ensures Run(ONES, data + Le(4, code)) == Shifts(ONES, 32) <==> code == Crc(data)
  {
    var s := Run(ONES, data);
    FieldWidths();
    LeValOfLe(4, code);
    RunAppend(ONES, data, Le(4, code));
    FourBytes(s, Le(4, code));
    if Run(ONES, data + Le(4, code)) == Shifts(ONES, 32) {
      ShiftsInjective(XorU32(s, code), ONES, 32);
      XorComm(s, code);
      XorCancel(code, s);
      XorComm(s, ONES);
    }
    XorCancel(ONES, s); XorComm(ONES, s); XorComm(s, XorU32(s, ONES));
  }

  /** A message followed by its code never survives damage confined to 32 adjacent bits, wherever they lie. */
  lemma BurstDetected(data: seq<byte>, bad: seq<byte>, i: int)
    requires Burst(data + Le(4, Crc(data)), bad, i)
    ensures Crc(bad[..|data|]) != LeVal(bad[|data|..])
  {
    var n := |data|;
    BurstChangesRun(ONES, data + Le(4, Crc(data)), bad, i);
    Residue(data, Crc(data));
    LeValBound(bad[n..]);
    FieldWidths();
    LeOfLeVal(bad[n..]);
    assert bad == bad[..n] + Le(4, LeVal(bad[n..]));
    Residue(bad[..n], LeVal(bad[n..]));
  }

  // ---- 33 bits are too many ---------------------------------------------------------------------

  /** The same mask on the register and on the bits fed goes unnoticed. */
  lemma {:induction false} FeedXor(crc: u32, d: u32, v: nat, n: nat)
    requires d < Pow2(n)
    ensures FeedBits(XorU32(crc, d), Xor(v, d), n) == FeedBits(crc, v, n)
    decreases n
  {
    if n == 0 {
      XorZero(crc);
    } else {
      XorStep(v, d);
      FirstBits(crc, d, v % 2);
      AbsorbOne(XorU32(crc, v % 2), d / 2);
      FeedXor(Shift(XorU32(crc, v % 2)), d / 2, v / 2, n - 1);
    }
  }

  lemma Regroup(a: nat, low: nat, high: nat, bit: nat)
    ensures Xor(Xor(a, Xor(high, low)), Xor(low, bit)) == Xor(Xor(a, bit), high)
  {
    XorAssoc(a, high, low);
    XorAssoc(Xor(a, high), low, Xor(low, bit));
    XorComm(low, Xor(low, bit));
    XorComm(low, bit);
    XorCancel(bit, low);
    XorSwap(a, high, bit);
  }

  lemma FirstBits(crc: u32, d: u32, bit: nat)
    requires bit < 2
    ensures XorU32(XorU32(crc, d), if bit == d % 2 then 0 else 1) == XorU32(XorU32(crc, bit), 2 * (d / 2))
  {
    var low, high := d % 2, 2 * (d / 2);
    XorDisjoint(low, d / 2, 1);
    XorComm(low, high);
    XorTable(low, bit);
    Regroup(crc, low, high, bit);
  }

  lemma XorTable(a: nat, b: nat)
    requires a < 2 && b < 2
    ensures Xor(a, b) == if a == b then 0 else 1
  {
  }

  /** The polynomial with its leading term. */
  const GENERATOR: nat := 1 + 2 * POLY

  lemma GeneratorStep(v: nat)
    ensures Xor(v, GENERATOR) % 2 == 1 - v % 2 && Xor(v, GENERATOR) / 2 == Xor(v / 2, POLY)
  {
    XorStep(v, GENERATOR);
  }

  lemma FlippedStep(x: u32, y: u32)
    requires x % 2 != y % 2 && x / 2 == y / 2
    ensures Shift(y) == XorU32(Shift(x), POLY)
  {
    XorCancel(x / 2, POLY);
  }

  lemma FlippedFirst(crc: u32, bit: nat)
    requires bit < 2
    ensures Shift(XorU32(crc, 1 - bit)) == XorU32(Shift(XorU32(crc, bit)), POLY)
  {
    XorStep(crc, bit);
    XorStep(crc, 1 - bit);
    FlippedStep(XorU32(crc, bit), XorU32(crc, 1 - bit));
  }

  /** Adding the generator to what is fed leaves the register as it would have been. */
  lemma GeneratorVanishes(crc: u32, v: nat, n: nat)
    requires n >= 33
    ensures FeedBits(crc, Xor(v, GENERATOR), n) == FeedBits(crc, v, n)
  {
    GeneratorStep(v);
    FlippedFirst(crc, v % 2);
    PolyBound(n - 1);
    FeedXor(Shift(XorU32(crc, v % 2)), POLY, v / 2, n - 1);
  }

  lemma PolyBound(n: nat)
    requires n >= 32
    ensures POLY < Pow2(n)
  {
    Pow2Facts();
    PowGrows(32, n);
  }

  lemma {:induction false} PowGrows(a: nat, b: nat)
    requires a <= b
    ensures Pow2(a) <= Pow2(b)
    decreases b
  {
    if a < b { PowGrows(a, b - 1); }
  }

  lemma {:induction false} HighDigitsKept(x: nat, m: nat, k: nat, p: nat)
    requires m < Pow2(k) && k <= p
    ensures Digit(Xor(x, m), p) == Digit(x, p)
    decreases k
  {
    if k == 0 {
      XorZero(x);
    } else {
      XorStep(x, m);
      HighDigitsKept(x / 2, m / 2, k - 1, p - 1);
    }
  }

  /** The generator added to the first 33 bits of a message. */
  lemma AddGenerator(good: seq<byte>) returns (bad: seq<byte>)
    requires |good| >= 5
    ensures Within(good, bad, 0, 33) && forall crc: u32 :: Run(crc, bad) == Run(crc, good)
  {
    var x, n := LeVal(good), 8 * |good|;
    var y := Xor(x, GENERATOR);
    ValueBound(good);
    GeneratorBound();
    PowGrows(33, n);
    XorBound(x, GENERATOR, n);
    BytesOfBits(|good|);
    bad := Le(|good|, y);
    LeValOfLe(|good|, y);
    XorStep(x, GENERATOR);
    forall crc: u32 ensures Run(crc, bad) == Run(crc, good) {
      WordIsBytes(crc, good);
      WordIsBytes(crc, bad);
      GeneratorVanishes(crc, x, n);
    }
    forall p: nat | p < n && p >= 33 ensures BitAt(good, p) == BitAt(bad, p) {
      BitIsDigit(good, p);
      BitIsDigit(bad, p);
      HighDigitsKept(x, GENERATOR, 33, p);
    }
  }

  lemma GeneratorBound()
    ensures GENERATOR < Pow2(33)
  {
    Pow2Facts();
  }

  /** Every message has damage within 33 adjacent bits that its code does not notice. */
  lemma WiderUndetected(data: seq<byte>) returns (bad: seq<byte>)
    requires data != []
    ensures Within(data + Le(4, Crc(data)), bad, 0, 33) && Crc(bad[..|data|]) == LeVal(bad[|data|..])
  {
    var n := |data|;
    bad := AddGenerator(data + Le(4, Crc(data)));
    Residue(data, Crc(data));
    LeValBound(bad[n..]);
    FieldWidths();
    LeOfLeVal(bad[n..]);
    assert bad == bad[..n] + Le(4, LeVal(bad[n..]));
    Residue(bad[..n], LeVal(bad[n..]));
  }

  /** All damage within w adjacent bits is detected. */
  ghost predicate DetectsWithin(w: nat) {
    forall data: seq<byte>, bad: seq<byte>, i: int :: Within(data + Le(4, Crc(data)), bad, i, w) ==>
      Crc(bad[..|data|]) != LeVal(bad[|data|..])
  }

  lemma DetectionExactly(w: nat)
    ensures DetectsWithin(w) <==> w <= 32
  {
    if w <= 32 {
      forall data: seq<byte>, bad: seq<byte>, i: int | Within(data + Le(4, Crc(data)), bad, i, w)
        ensures Crc(bad[..|data|]) != LeVal(bad[|data|..])
      {
        BurstDetected(data, bad, i);
      }
    } else {
      var bad := WiderUndetected([0]);
      assert Within([0] + Le(4, Crc([0])), bad, 0, w);
    }
  }
}

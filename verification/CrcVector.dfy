/**
 * Which code it is: the published check value of CRC-32C, proved of `Crc` itself. The register is followed as a 32-bit
 * vector, whose value as a number `Number` gives. Its width is written 4 * n for an n that is 8: a literal width would
 * have the definition unrolled to the end wherever it is mentioned.
 */
module CrcVector {
  import opened Bytes
  import opened Crc32c

  /** The number that the n low bits of w are. */
  function Number(w: bv32, n: nat): nat
    decreases n
  {
    if n == 0 then 0 else (if w & 1 == 1 then 1 else 0) + 2 * Number(w >> 1, n - 1)
  }

  lemma BitsOfXor(a: bv32, b: bv32)
    ensures (a ^ b) >> 1 == (a >> 1) ^ (b >> 1)
    ensures (a ^ b) & 1 == 1 <==> (a & 1 == 1) != (b & 1 == 1)
  {
  }

  /** The lowest digit of an exclusive or, and the rest of it. */
  lemma XorOfDigits(x: nat, y: nat, z: nat, a: nat, b: nat, c: nat, d: bool, e: bool)
    requires x == (if d then 1 else 0) + 2 * a && y == (if e then 1 else 0) + 2 * b
    requires z == (if d != e then 1 else 0) + 2 * c && c == Xor(a, b)
    ensures z == Xor(x, y)
  {
    XorStep(x, y);
  }

  lemma NumberOfXor(a: bv32, b: bv32, n: nat)
    requires n > 0
    ensures Number(a ^ b, n) == (if (a & 1 == 1) != (b & 1 == 1) then 1 else 0) + 2 * Number((a >> 1) ^ (b >> 1), n - 1)
  {
    BitsOfXor(a, b);
  }

  lemma {:induction false} XorNumber(a: bv32, b: bv32, n: nat)
    ensures Number(a ^ b, n) == Xor(Number(a, n), Number(b, n))
    decreases n
  {
    if n > 0 {
      NumberOfXor(a, b, n);
      XorNumber(a >> 1, b >> 1, n - 1);
      XorOfDigits(Number(a, n), Number(b, n), Number(a ^ b, n), Number(a >> 1, n - 1), Number(b >> 1, n - 1),
                  Number((a >> 1) ^ (b >> 1), n - 1), a & 1 == 1, b & 1 == 1);
    }
  }

  lemma {:induction false} ZeroNumber(n: nat)
    ensures Number(0, n) == 0
  {
    if n > 0 {
      ZeroNumber(n - 1);
      assert (0 as bv32) >> 1 == 0;
    }
  }

  lemma ShiftsAdd(w: bv32)
    ensures (w >> 1) >> 1 == w >> 2 && (w >> 2) >> 2 == w >> 4
  {
  }

  lemma NumberSplit2(w: bv32, n: nat)
    ensures Number(w, n + 2) == Number(w, 2) + 4 * Number(w >> 2, n)
  {
    ShiftsAdd(w);
    assert Number(w, n + 2) == Number(w, 1) + 2 * Number(w >> 1, n + 1);
  }

  lemma NumberSplit4(w: bv32, n: nat)
    ensures Number(w, n + 4) == Number(w, 4) + 16 * Number(w >> 4, n)
  {
    ShiftsAdd(w);
    NumberSplit2(w, n + 2);
    NumberSplit2(w, 2);
    NumberSplit2(w >> 2, n);
  }

  lemma NumberSplit8(w: bv32, n: nat)
    ensures Number(w, n + 8) == Number(w, 8) + 256 * Number(w >> 8, n)
  {
    assert (w >> 4) >> 4 == w >> 8;
    NumberSplit4(w, n + 4);
    NumberSplit4(w, 4);
    NumberSplit4(w >> 4, n);
  }

  lemma NextByte(w: bv32, high: bv32, n: nat, v: nat, low: nat)
    requires w >> 8 == high && Number(high, n) == v && Number(w, 8) == low
    ensures Number(w, n + 8) == 0x100 * v + low
  {
    NumberSplit8(w, n);
  }

  lemma Polynomial(n: nat)
    requires n == 8
    ensures Number(0x82F6_3B78, 4 * n) == POLY
  {
    NextByte(0x82F6, 0x82, n, 0x82, 0xF6);
    NextByte(0x82_F63B, 0x82F6, 2 * n, 0x82F6, 0x3B);
    NextByte(0x82F6_3B78, 0x82_F63B, 3 * n, 0x82_F63B, 0x78);
  }

  /** Nothing is left of w after n shifts. */
  predicate Gone(w: bv32, n: nat)
    decreases n
  {
    if n == 0 then w == 0 else Gone(w >> 1, n - 1)
  }

  lemma GoneAfter8(w: bv32, n: nat)
    requires Gone(w >> 8, n)
    ensures Gone(w, n + 8)
  {
    ShiftsAdd(w);
    assert (w >> 4) >> 1 == w >> 5 && (w >> 5) >> 1 == w >> 6 && (w >> 6) >> 1 == w >> 7 && (w >> 7) >> 1 == w >> 8;
    assert (w >> 2) >> 1 == w >> 3 && (w >> 3) >> 1 == w >> 4;
    assert Gone(w >> 7, n + 1);
    assert Gone(w >> 6, n + 2);
    assert Gone(w >> 5, n + 3);
    assert Gone(w >> 4, n + 4);
    assert Gone(w >> 3, n + 5);
    assert Gone(w >> 2, n + 6);
    assert Gone(w >> 1, n + 7);
  }

  lemma AllGone(w: bv32, n: nat)
    requires n == 8
    ensures Gone(w, 4 * n)
  {
    assert (w >> 8) >> 8 == w >> 16 && (w >> 16) >> 8 == w >> 24 && (w >> 24) >> 8 == 0;
    var none: nat := n - 8;
    assert Gone(0, none);
    GoneAfter8(w >> 24, none);
    GoneAfter8(w >> 16, n);
    GoneAfter8(w >> 8, 2 * n);
    GoneAfter8(w, 3 * n);
  }

  lemma {:induction false} TopIsZero(w: bv32, n: nat)
    requires Gone(w, n)
    ensures Number(w, n + 1) == Number(w, n)
    decreases n
  {
    if n > 0 { TopIsZero(w >> 1, n - 1); }
  }

  /** One division step on the register as bits. */
  function ShiftBits(w: bv32): bv32 { if w & 1 == 1 then (w >> 1) ^ 0x82F6_3B78 else w >> 1 }

  lemma HalfNumber(w: bv32, n: nat)
    requires n > 0 && Gone(w, n)
    ensures Number(w, n) % 2 == (if w & 1 == 1 then 1 else 0) && Number(w, n) / 2 == Number(w >> 1, n)
  {
    TopIsZero(w >> 1, n - 1);
  }

  lemma ShiftNumber(w: bv32, n: nat, x: u32)
    requires n == 8 && x == Number(w, 4 * n)
    ensures Shift(x) == Number(ShiftBits(w), 4 * n)
  {
    AllGone(w, n);
    HalfNumber(w, 4 * n);
    Polynomial(n);
    XorNumber(w >> 1, 0x82F6_3B78, 4 * n);
  }

  function ShiftBits2(w: bv32): bv32 { ShiftBits(ShiftBits(w)) }

  function ShiftBits8(w: bv32): bv32 { ShiftBits2(ShiftBits2(ShiftBits2(ShiftBits2(w)))) }

  lemma ShiftNumber2(w: bv32, n: nat, x: u32, k: nat)
    requires n == 8 && Shifts(x, k) == Number(w, 4 * n)
    ensures Shifts(x, k + 2) == Number(ShiftBits2(w), 4 * n)
  {
    ShiftNumber(w, n, Shifts(x, k));
    ShiftNumber(ShiftBits(w), n, Shifts(x, k + 1));
  }

  lemma ShiftNumber8(w: bv32, n: nat, x: u32)
    requires n == 8 && x == Number(w, 4 * n)
    ensures Shifts(x, n) == Number(ShiftBits8(w), 4 * n)
  {
    ShiftNumber2(w, n, x, n - 8);
    ShiftNumber2(ShiftBits2(w), n, x, n - 6);
    ShiftNumber2(ShiftBits2(ShiftBits2(w)), n, x, n - 4);
    ShiftNumber2(ShiftBits2(ShiftBits2(ShiftBits2(w))), n, x, n - 2);
  }

  lemma ByteNumber(c: bv32, n: nat)
    requires n == 8 && c >> 8 == 0
    ensures Number(c, 4 * n) == Number(c, 8)
  {
    NumberSplit8(c, 3 * n);
    ZeroNumber(3 * n);
  }

  /** Feeding the byte that c is takes the register from w to after. */
  lemma FeedNumber(x: u32, w: bv32, n: nat, b: byte, c: bv32, after: bv32)
    requires n == 8 && x == Number(w, 4 * n) && c >> 8 == 0 && Number(c, 8) == b && ShiftBits8(w ^ c) == after
    ensures FeedBits(x, b, n) == Number(after, 4 * n)
  {
    Pow2Facts();
    FeedIsShift(x, b, n);
    ByteNumber(c, n);
    XorNumber(w, c, 4 * n);
    ShiftNumber8(w ^ c, n, XorU32(x, b));
  }

  lemma Bytes1To3(x: u32, n: nat) returns (y: u32)
    requires n == 8 && x == Number(0xFFFF_FFFF, 4 * n)
    ensures y == FeedBits(FeedBits(FeedBits(x, 0x31, n), 0x32, n), 0x33, n)
    ensures y == Number(0xEF84_D04D, 4 * n)
  {
    y := FeedBits(x, 0x31, n);
    FeedNumber(x, 0xFFFF_FFFF, n, 0x31, 0x31, 0x6F0A_661C);
    FeedNumber(y, 0x6F0A_661C, n, 0x32, 0x32, 0x8CAA_3B9F);
    y := FeedBits(y, 0x32, n);
    FeedNumber(y, 0x8CAA_3B9F, n, 0x33, 0x33, 0xEF84_D04D);
    y := FeedBits(y, 0x33, n);
  }

  lemma Bytes4To6(x: u32, n: nat) returns (y: u32)
    requires n == 8 && x == Number(0xEF84_D04D, 4 * n)
    ensures y == FeedBits(FeedBits(FeedBits(x, 0x34, n), 0x35, n), 0x36, n)
    ensures y == Number(0xBECA_8E79, 4 * n)
  {
    y := FeedBits(x, 0x34, n);
    FeedNumber(x, 0xEF84_D04D, n, 0x34, 0x34, 0x09C5_0B11);
    FeedNumber(y, 0x09C5_0B11, n, 0x35, 0x35, 0xE72E_DCCA);
    y := FeedBits(y, 0x35, n);
    FeedNumber(y, 0xE72E_DCCA, n, 0x36, 0x36, 0xBECA_8E79);
    y := FeedBits(y, 0x36, n);
  }

  lemma Bytes7To9(x: u32, n: nat) returns (y: u32)
    requires n == 8 && x == Number(0xBECA_8E79, 4 * n)
    ensures y == FeedBits(FeedBits(FeedBits(x, 0x37, n), 0x38, n), 0x39, n)
    ensures y == Number(0x1CF9_6D7C, 4 * n)
  {
    y := FeedBits(x, 0x37, n);
    FeedNumber(x, 0xBECA_8E79, n, 0x37, 0x37, 0xEDBD_6815);
    FeedNumber(y, 0xEDBD_6815, n, 0x38, 0x38, 0x9F78_7F65);
    y := FeedBits(y, 0x38, n);
    FeedNumber(y, 0x9F78_7F65, n, 0x39, 0x39, 0x1CF9_6D7C);
    y := FeedBits(y, 0x39, n);
  }

  lemma RunThree(x: u32, a: byte, b: byte, c: byte, rest: seq<byte>)
    ensures Run(x, [a, b, c] + rest) == Run(FeedBits(FeedBits(FeedBits(x, a, 8), b, 8), c, 8), rest)
  {
    var data, y := [a, b, c] + rest, FeedBits(x, a, 8);
    assert data[1..] == [b, c] + rest && ([b, c] + rest)[1..] == [c] + rest && ([c] + rest)[1..] == rest;
    assert Run(y, [b, c] + rest) == Run(FeedBits(y, b, 8), [c] + rest);
  }

  lemma RunNine(x: u32, data: seq<byte>, n: nat)
    requires n == 8 && x == Number(0xFFFF_FFFF, 4 * n)
    requires data == [0x31, 0x32, 0x33, 0x34, 0x35, 0x36, 0x37, 0x38, 0x39]
    ensures Run(x, data) == Number(0x1CF9_6D7C, 4 * n)
  {
    var y := Bytes1To3(x, n);
    var z := Bytes4To6(y, n);
    var r := Bytes7To9(z, n);
    assert data == [0x31, 0x32, 0x33] + data[3..];
    assert data[3..] == [0x34, 0x35, 0x36] + data[6..];
    assert data[6..] == [0x37, 0x38, 0x39] + [];
    RunThree(x, 0x31, 0x32, 0x33, data[3..]);
    RunThree(y, 0x34, 0x35, 0x36, data[6..]);
    RunThree(z, 0x37, 0x38, 0x39, []);
  }

  lemma AllOnes(n: nat)
    requires n == 8
    ensures Number(0xFFFF_FFFF, 4 * n) == ONES
  {
    NextByte(0xFFFF, 0xFF, n, 0xFF, 0xFF);
    NextByte(0xFF_FFFF, 0xFFFF, 2 * n, 0xFFFF, 0xFF);
    NextByte(0xFFFF_FFFF, 0xFF_FFFF, 3 * n, 0xFF_FFFF, 0xFF);
  }

  lemma CheckValue(n: nat)
    requires n == 8
    ensures Number(0xE306_9283, 4 * n) == 0xE306_9283
  {
    NextByte(0xE306, 0xE3, n, 0xE3, 0x06);
    NextByte(0xE3_0692, 0xE306, 2 * n, 0xE306, 0x92);
    NextByte(0xE306_9283, 0xE3_0692, 3 * n, 0xE3_0692, 0x83);
  }

  /** The check value of CRC-32C: the code of the nine bytes of "123456789". */
  lemma PublishedVector(data: seq<byte>)
    requires data == [0x31, 0x32, 0x33, 0x34, 0x35, 0x36, 0x37, 0x38, 0x39]
    ensures Crc(data) == 0xE306_9283
  {
    var n := 8;
    AllOnes(n);
    RunNine(ONES, data, n);
    XorNumber(0x1CF9_6D7C, 0xFFFF_FFFF, 4 * n);
    CheckValue(n);
  }

  lemma EmptyVector()
    ensures Crc([]) == 0
  {
    XorSelf(ONES);
  }
}

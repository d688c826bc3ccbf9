/** Fixed-width integers, bytes, bitwise exclusive or, and the little-endian field layout shared by every codec. */
module Bytes {
  type byte = x: int | 0 <= x < 0x100
  type u16 = x: int | 0 <= x < 0x1_0000
  type u32 = x: int | 0 <= x < 0x1_0000_0000
  type u64 = x: int | 0 <= x < 0x1_0000_0000_0000_0000

  datatype Option<+T> = None | Some(value: T)

  /** Where 32-bit numbers wrap. */
  const WRAP: nat := 0x1_0000_0000

  function Pow2(n: nat): (r: nat)
    ensures r > 0
  {
    if n == 0 then 1 else 2 * Pow2(n - 1)
  }

  /** 256 to the power n: the number of values an n-byte field can hold. */
  function Pow256(n: nat): (r: nat)
    ensures r > 0
  {
    if n == 0 then 1 else 256 * Pow256(n - 1)
  }

  lemma FieldWidths()
    ensures Pow256(2) == 0x1_0000
    ensures Pow256(4) == 0x1_0000_0000
    ensures Pow256(8) == 0x1_0000_0000_0000_0000
  {
    assert Pow256(4) == 256 * (256 * Pow256(2));
    assert Pow256(8) == 256 * (256 * (256 * (256 * Pow256(4))));
  }

  // ---- exclusive or on the binary digits of naturals -------------------------

  function Xor(a: nat, b: nat): nat
    decreases a + b
  {
    if a == 0 && b == 0 then 0
    else (if a % 2 == b % 2 then 0 else 1) + 2 * Xor(a / 2, b / 2)
  }

  lemma {:induction false} XorStep(a: nat, b: nat)
    ensures Xor(a, b) % 2 == if a % 2 == b % 2 then 0 else 1
    ensures Xor(a, b) / 2 == Xor(a / 2, b / 2)
  {}

  lemma {:induction false} XorComm(a: nat, b: nat)
    ensures Xor(a, b) == Xor(b, a)
    decreases a + b
  {
    if a > 0 || b > 0 { XorComm(a / 2, b / 2); }
  }

  lemma {:induction false} XorZero(a: nat)
    ensures Xor(a, 0) == a
  {
    if a > 0 { XorZero(a / 2); }
  }

  /** A number is fixed by its lowest digit and the rest. */
  lemma SameDigits(a: nat, b: nat)
    requires a % 2 == b % 2 && a / 2 == b / 2
    ensures a == b
  {}

  lemma {:induction false} XorAssoc(a: nat, b: nat, c: nat)
    ensures Xor(Xor(a, b), c) == Xor(a, Xor(b, c))
    decreases a + b + c
  {
    if a > 0 || b > 0 || c > 0 {
      XorAssoc(a / 2, b / 2, c / 2);
      XorStep(a, b); XorStep(b, c); XorStep(Xor(a, b), c); XorStep(a, Xor(b, c));
      SameDigits(Xor(Xor(a, b), c), Xor(a, Xor(b, c)));
    }
  }

  lemma {:induction false} XorSelf(a: nat)
    ensures Xor(a, a) == 0
  {
    if a > 0 { XorSelf(a / 2); }
  }

  /** Exclusive or with a fixed mask undoes itself, so it is one-to-one. */
  lemma XorCancel(a: nat, b: nat)
    ensures Xor(Xor(a, b), b) == a
  {
    XorAssoc(a, b, b);
    XorSelf(b);
    XorZero(a);
  }

  lemma XorSwap(a: nat, b: nat, c: nat)
    ensures Xor(Xor(a, b), c) == Xor(Xor(a, c), b)
  {
    XorAssoc(a, b, c);
    XorAssoc(a, c, b);
    XorComm(b, c);
  }

  lemma {:induction false} XorBound(a: nat, b: nat, k: nat)
    requires a < Pow2(k) && b < Pow2(k)
    ensures Xor(a, b) < Pow2(k)
    decreases k
  {
    if k > 0 {
      XorStep(a, b);
      XorBound(a / 2, b / 2, k - 1);
    }
  }

  /** The lowest digit of low + 2^k * high belongs to low. */
  lemma SplitHalf(low: nat, high: nat, k: nat)
    requires k > 0
    ensures (low + Pow2(k) * high) % 2 == low % 2
    ensures (low + Pow2(k) * high) / 2 == low / 2 + Pow2(k - 1) * high
  {
    DoubleShift(high, k);
    HalfOfSum(low, Pow2(k - 1) * high);
  }

  lemma HalfOfSum(low: nat, h: nat)
    ensures (low + 2 * h) % 2 == low % 2 && (low + 2 * h) / 2 == low / 2 + h
  {}

  lemma DoubleShift(d: nat, n: nat)
    requires n > 0
    ensures Pow2(n) * d == Pow2(n - 1) * (2 * d) == 2 * (Pow2(n - 1) * d)
    ensures 2 * d <= Pow2(n) * d
  {
    var p := Pow2(n - 1);
    assert Pow2(n) * d == 2 * p * d == p * (2 * d);
  }

  /** Numbers whose binary digits do not overlap are added by exclusive or. */
  lemma {:induction false} XorDisjoint(low: nat, high: nat, k: nat)
    requires low < Pow2(k)
    ensures Xor(low, Pow2(k) * high) == low + Pow2(k) * high
    decreases k
  {
    if k > 0 {
      SplitHalf(0, high, k);
      DoubleShift(high, k);
      XorStep(low, Pow2(k) * high);
      XorDisjoint(low / 2, high, k - 1);
    } else {
      XorComm(0, high);
      XorZero(high);
    }
  }

  // ---- little-endian fields ---------------------------------------------------

  /** The `width` low-order bytes of v, least significant first. */
  function Le(width: nat, v: nat): (r: seq<byte>)
    ensures |r| == width
    decreases width, v
  {
    if width == 0 then [] else [v % 256] + Le(width - 1, v / 256)
  }

  /** The value of a little-endian field. */
  function LeVal(s: seq<byte>): nat {
    if s == [] then 0 else s[0] + 256 * LeVal(s[1..])
  }

  lemma {:induction false} LeValBound(s: seq<byte>)
    ensures LeVal(s) < Pow256(|s|)
  {
    if s != [] { LeValBound(s[1..]); }
  }

  lemma {:induction false} LeValOfLe(width: nat, v: nat)
    requires v < Pow256(width)
    ensures LeVal(Le(width, v)) == v
  {
    if width > 0 {
      LeValOfLe(width - 1, v / 256);
      assert Le(width, v)[1..] == Le(width - 1, v / 256);
    }
  }

  lemma {:induction false} LeOfLeVal(s: seq<byte>)
    ensures Le(|s|, LeVal(s)) == s
  {
    if s != [] {
      LeOfLeVal(s[1..]);
      assert LeVal(s) % 256 == s[0] && LeVal(s) / 256 == LeVal(s[1..]);
    }
  }
}

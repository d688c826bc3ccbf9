/**
 * The single-producer single-consumer ring, run by one thread at a time: index wrap-around by mask, and its contents.
 */
module Spsc {
  import opened Bytes

  /** Bitwise and. */
  function And(a: nat, b: nat): (r: nat)
    decreases a, b
  {
    if a == 0 || b == 0 then 0 else 2 * And(a / 2, b / 2) + (if a % 2 == 1 && b % 2 == 1 then 1 else 0)
  }

  /** Masking with all the low k bits is the remainder by 2 to the k. */
  lemma {:induction false} AndMask(x: nat, k: nat)
    ensures And(x, Pow2(k) - 1) == x % Pow2(k)
    decreases k
  {
    if k > 0 {
      AndMask(x / 2, k - 1);
      HalfOfRemainder(x, Pow2(k - 1));
    }
  }

  lemma HalfOfRemainder(x: nat, m: nat)
    requires m > 0
    ensures x % (2 * m) == 2 * (x / 2 % m) + x % 2
  {
    var q := x / 2 / m;
    var r := 2 * (x / 2 % m) + x % 2;
    assert x / 2 == q * m + x / 2 % m;
    assert x == q * (2 * m) + r;
    RemainderIs(x, 2 * m, q, r);
  }

  lemma RemainderIs(x: int, m: nat, q: int, r: nat)
    requires m > 0 && r < m && x == q * m + r
    ensures x % m == r
  {
    var d := x / m - q;
    assert d * m == r - x % m;
    assert d * m < m && d * m + m > 0;
  }

  lemma AndNext(i: nat, k: nat)
    requires i < Pow2(k)
    ensures And(i + 1, Pow2(k) - 1) == if i + 1 < Pow2(k) then i + 1 else 0
  {
    AndMask(i + 1, k);
    if i + 1 < Pow2(k) { RemainderIs(i + 1, Pow2(k), 0, i + 1); } else { RemainderIs(i + 1, Pow2(k), 1, 0); }
  }

  /** Unsigned subtraction wraps at 2 to the 64. */
  function Wrap64(x: int): nat { x % 0x1_0000_0000_0000_0000 }

  lemma {:induction false} Pow2Product(a: nat, b: nat)
    ensures Pow2(a + b) == Pow2(a) * Pow2(b)
    decreases a
  {
    if a > 0 { Pow2Product(a - 1, b); }
  }

  lemma Pow2Of64()
    ensures Pow2(64) == 0x1_0000_0000_0000_0000
  {
    assert Pow2(8) == 0x100;
    Pow2Product(8, 8);
    Pow2Product(16, 16);
    Pow2Product(32, 32);
  }

  /** A remainder by a multiple of m has the same remainder by m. */
  lemma RemainderOfRemainder(x: int, m: nat, c: nat)
    requires m > 0 && c > 0 && c * m > 0
    ensures x % (c * m) % m == x % m
  {
    var q, r := x / (c * m), x % (c * m);
    assert x == (q * c + r / m) * m + r % m by {
      assert x == q * (c * m) + r;
      assert r == (r / m) * m + r % m;
      assert q * (c * m) == (q * c) * m;
    }
    RemainderIs(x, m, q * c + r / m, r % m);
  }

  /** Wrapping first does not change the remainder by a smaller power of two. */
  lemma WrapThenMask(x: int, k: nat)
    requires k <= 64
    ensures And(Wrap64(x), Pow2(k) - 1) == x % Pow2(k)
  {
    AndMask(Wrap64(x), k);
    Pow2Of64();
    Pow2Product(64 - k, k);
    RemainderOfRemainder(x, Pow2(k), Pow2(64 - k));
  }

  // ---- cyclic indices ------------------------------------------------------------------------

  lemma NextIndex(x: nat, m: nat)
    requires m > 0
    ensures (x % m + 1) % m == (x + 1) % m
  {
    var q := x / m;
    if x % m + 1 < m { RemainderIs(x + 1, m, q, x % m + 1); } else { RemainderIs(x + 1, m, q + 1, 0); }
  }

  /** Positions less than m apart share an index only if they are the same. */
  lemma DistinctIndices(x: nat, y: nat, m: nat)
    requires m > 0 && x < y < x + m
    ensures x % m != y % m
  {
    var d := y / m - x / m;
    assert d * m == y - x - (y % m - x % m);
    assert x % m == y % m ==> 0 < d * m < m;
  }

  lemma SameIndex(x: nat, m: nat)
    requires m > 0
    ensures (x + m) % m == x % m
  {
    RemainderIs(x + m, m, x / m + 1, x % m);
  }

  /** The index behind h meets that of t exactly when they are a whole ring, less one slot, apart. */
  lemma NextMeets(h: nat, t: nat, n: nat)
    requires 0 < n && t <= h < t + n
    ensures (h % n + 1) % n == t % n <==> h - t == n - 1
  {
    NextIndex(h, n);
    if h + 1 == t + n { SameIndex(t, n); } else { DistinctIndices(t, h + 1, n); }
  }

  // ---- the class -----------------------------------------------------------------------------

  class SpscRing<T(0)> {
    const exponent: nat
    const buffer: array<T>
    var head: nat
    var tail: nat

    /** The capacity is a power of two and at least 2. */
    ghost predicate Valid()
      reads this
    {
      && 1 <= exponent <= 64 && buffer.Length == Pow2(exponent) && buffer.Length >= 2
      && head < buffer.Length && tail < buffer.Length
    }

    /** The queued items, oldest first. */
    ghost function Contents(): seq<T>
      requires Valid()
      reads this, buffer
    {
      if tail <= head then buffer[tail..head] else buffer[tail..] + buffer[..head]
    }

    constructor (exponent: nat, blank: T)
      requires 1 <= exponent <= 64
      ensures Valid() && fresh(buffer) && this.exponent == exponent && Contents() == []
      ensures buffer.Length == Pow2(exponent)
    {
      this.exponent := exponent;
      buffer := new T[Pow2(exponent)](_ => blank);
      head, tail := 0, 0;
      new;
      assert Pow2(exponent) == 2 * Pow2(exponent - 1);
    }

    /** One slot stays free. */
    function Capacity(): nat
      requires Valid()
      reads this
    {
      buffer.Length - 1
    }

    method Advance(i: nat) returns (next: nat)
      requires Valid() && i < buffer.Length
      ensures next == if i + 1 < buffer.Length then i + 1 else 0
    {
      next := And(i + 1, buffer.Length - 1);
      AndNext(i, exponent);
    }

    method TryPush(item: T) returns (ok: bool)
      requires Valid()
      modifies this`head, buffer
      ensures Valid()
      ensures ok <==> |old(Contents())| < buffer.Length - 1
      ensures Contents() == if ok then old(Contents()) + [item] else old(Contents())
    {
      var next := Advance(head);
      if next == tail {
        return false;
      }
      buffer[head] := item;
      head := next;
      return true;
    }

    /** None stands for an untouched out-parameter. */
    method TryPop() returns (out: Option<T>)
      requires Valid()
      modifies this`tail
      ensures Valid()
      ensures out == if old(Contents()) == [] then None else Some(old(Contents())[0])
      ensures Contents() == if old(Contents()) == [] then [] else old(Contents())[1..]
    {
      if tail == head {
        return None;
      }
      out := Some(buffer[tail]);
      tail := Advance(tail);
    }

    /** With no consumer in the middle of a pop: a full ring loses its oldest item. */
    method ForcePushOverwrite(item: T) returns (ok: bool)
      requires Valid()
      modifies this, buffer
      ensures Valid() && ok
      ensures Contents() == (if |old(Contents())| < Capacity() then old(Contents()) else old(Contents())[1..]) + [item]
    {
      ok := TryPush(item);
      if ok {
        return;
      }
      ghost var full := Contents();
      tail := Advance(tail);
      assert Contents() == full[1..];
      ok := TryPush(item);
    }

    /** head - tail wraps as an unsigned 64-bit number before it is masked. */
    method SizeApprox() returns (size: nat)
      requires Valid()
      ensures size == |Contents()|
    {
      size := And(Wrap64(head - tail), buffer.Length - 1);
      WrapThenMask(head - tail, exponent);
      if tail <= head {
        RemainderIs(head - tail, buffer.Length, 0, head - tail);
      } else {
        RemainderIs(head - tail, buffer.Length, -1, head - tail + buffer.Length);
      }
    }

    method EmptyApprox() returns (empty: bool)
      requires Valid()
      ensures empty <==> Contents() == []
    {
      var size := SizeApprox();
      empty := size == 0;
    }
  }
}

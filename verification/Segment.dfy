/** Segment file names: zero-padded decimal ids between a fixed prefix and suffix. */
module Segment {
  import opened Bytes

  const PREFIX := "segment-"
  const SUFFIX := ".sflog"

  predicate IsDigit(c: char) {
    '0' <= c <= '9'
  }

  function DigitValue(c: char): nat
    requires IsDigit(c)
  {
    c as int - '0' as int
  }

  /** The number a string of digits denotes. */
  function Value(digits: string): nat
    requires forall i :: 0 <= i < |digits| ==> IsDigit(digits[i])
  {
    if digits == [] then 0 else 10 * Value(digits[..|digits| - 1]) + DigitValue(digits[|digits| - 1])
  }

  function Decimal(n: nat): (s: string)
    ensures s != [] && forall i :: 0 <= i < |s| ==> IsDigit(s[i])
  {
    var last := ('0' as int + n % 10) as char;
    if n < 10 then [last] else Decimal(n / 10) + [last]
  }

  function Zeros(k: nat): (s: string)
    ensures |s| == k && forall i :: 0 <= i < |s| ==> s[i] == '0'
  {
    if k == 0 then [] else Zeros(k - 1) + ['0']
  }

  function Padded(n: nat): (s: string)
    ensures s != [] && forall i :: 0 <= i < |s| ==> IsDigit(s[i])
  {
    var d := Decimal(n);
    if |d| < 6 then Zeros(6 - |d|) + d else d
  }

  function SegmentFilename(id: u32): string {
    PREFIX + Padded(id) + SUFFIX
  }

  /** Whether a name has the shape of a segment file: prefix, at least one character, suffix. */
  predicate Shaped(name: string) {
    |name| > |PREFIX| + |SUFFIX| && name[..|PREFIX|] == PREFIX && name[|name| - |SUFFIX|..] == SUFFIX
  }

  function Digits(name: string): string
    requires Shaped(name)
  {
    name[|PREFIX|..|name| - |SUFFIX|]
  }

  /** The id a name denotes: its digits as a 32-bit number, or 0 for anything that is not a segment file. */
  function SegmentId(name: string): u32 {
    if Shaped(name) && (forall i :: 0 <= i < |Digits(name)| ==> IsDigit(Digits(name)[i]))
    then Value(Digits(name)) % WRAP
    else 0
  }

  lemma WrapStep(v: nat, d: nat)
    ensures (10 * (v % WRAP) + d) % WRAP == (10 * v + d) % WRAP
  {
    var q, r := v / WRAP, v % WRAP;
    assert 10 * v + d == (10 * r + d) + (10 * q) * WRAP;
    ModShift(10 * r + d, 10 * q);
  }

  lemma {:induction false} ModShift(a: nat, k: nat)
    ensures (a + k * WRAP) % WRAP == a % WRAP
  {
    if k > 0 {
      ModShift(a, k - 1);
      assert a + k * WRAP == (a + (k - 1) * WRAP) + WRAP;
    }
  }

  method SegmentIdFromFilename(name: string) returns (id: u32)
    ensures id == SegmentId(name)
  {
    if |name| <= |PREFIX| + |SUFFIX| {
      return 0;
    }
    if name[..|PREFIX|] != PREFIX {
      return 0;
    }
    if name[|name| - |SUFFIX|..] != SUFFIX {
      return 0;
    }
    var digits := Digits(name);
    id := 0;
    for i := 0 to |digits|
      invariant forall j :: 0 <= j < i ==> IsDigit(digits[j])
      invariant id == Value(digits[..i]) % WRAP
    {
      var c := digits[i];
      if !IsDigit(c) {
        return 0;
      }
      assert digits[..i + 1][..i] == digits[..i];
      WrapStep(Value(digits[..i]), DigitValue(c));
      id := (10 * id + DigitValue(c)) % WRAP;
    }
    assert digits[..|digits|] == digits;
  }

  // ---- printing and parsing are inverse ---------------------------------------------

  lemma {:induction false} ValueOfDecimal(n: nat)
    ensures Value(Decimal(n)) == n
  {
    var s := Decimal(n);
    if n >= 10 {
      assert s[..|s| - 1] == Decimal(n / 10);
      ValueOfDecimal(n / 10);
    }
  }

  lemma {:induction false} ValueOfZeros(k: nat, d: string)
    requires forall i :: 0 <= i < |d| ==> IsDigit(d[i])
    ensures Value(Zeros(k) + d) == Value(d)
    decreases k + |d|
  {
    var s := Zeros(k) + d;
    if d != [] {
      assert s[..|s| - 1] == Zeros(k) + d[..|d| - 1];
      ValueOfZeros(k, d[..|d| - 1]);
    } else if k > 0 {
      assert s == Zeros(k) && s[..|s| - 1] == Zeros(k - 1) + [];
      ValueOfZeros(k - 1, []);
    }
  }

  lemma FilenameDigits(id: u32)
    ensures Shaped(SegmentFilename(id)) && Digits(SegmentFilename(id)) == Padded(id)
  {
    var name := SegmentFilename(id);
    assert name[..|PREFIX|] == PREFIX && name[|name| - |SUFFIX|..] == SUFFIX;
  }

  /** Every 32-bit id survives being printed and parsed back, however many digits it needs. */
  lemma FilenameRoundTrip(id: u32)
    ensures SegmentId(SegmentFilename(id)) == id
  {
    var d := Decimal(id);
    FilenameDigits(id);
    ValueOfDecimal(id);
    if |d| < 6 { ValueOfZeros(6 - |d|, d); }
  }

  lemma {:induction false} DecimalLeads(n: nat)
    requires n > 0
    ensures Decimal(n)[0] != '0'
  {
    if n >= 10 { DecimalLeads(n / 10); }
  }

  /** A name is the decimal digits of its id, padded to six with zeros and to no more. */
  lemma FilenameExactly(id: u32)
    ensures exists d: string ::
              && SegmentFilename(id) == "segment-" + d + ".sflog"
              && |d| >= 6 && (forall i :: 0 <= i < |d| ==> IsDigit(d[i])) && Value(d) == id && (|d| > 6 ==> d[0] != '0')
  {
    var d := Padded(id);
    ValueOfDecimal(id);
    if |Decimal(id)| < 6 { ValueOfZeros(6 - |Decimal(id)|, Decimal(id)); }
    if |d| > 6 { DecimalLeads(id); }
    assert SegmentFilename(id) == "segment-" + d + ".sflog";
  }

  lemma FilenameExample()
    ensures SegmentFilename(12) == "segment-000012.sflog"
  {
    assert Decimal(12) == Decimal(1) + ['2'] && Decimal(1) == ['1'];
    assert Zeros(4) == "0000";
    assert Padded(12) == "000012";
  }

  /** A name that is anything else has the id 0: another prefix or suffix, nothing between them, or a character that is
   * not a digit. */
  lemma OtherNames(name: string)
    requires |name| <= 14 || name[..8] != "segment-" || name[|name| - 6..] != ".sflog"
             || exists i :: 8 <= i < |name| - 6 && !('0' <= name[i] <= '9')
    ensures SegmentId(name) == 0
  {
    if Shaped(name) {
      var i :| 8 <= i < |name| - 6 && !('0' <= name[i] <= '9');
      assert Digits(name)[i - 8] == name[i];
    }
  }

  /** And the name of a segment file its digits' value, wrapped to 32 bits. */
  lemma NameDigits(digits: string)
    requires digits != [] && forall i :: 0 <= i < |digits| ==> IsDigit(digits[i])
    ensures SegmentId("segment-" + digits + ".sflog") == Value(digits) % 0x1_0000_0000
  {
    var name := "segment-" + digits + ".sflog";
    assert name[..8] == "segment-" && name[|name| - 6..] == ".sflog" && name[8..|name| - 6] == digits;
  }
}

/** The write-ahead-log record codec: 30-byte header, payload, CRC32C of both. */
module RecordCodec {
  import opened Bytes
  import opened Crc32c

  const HEADER_SIZE: nat := 30
  const OVERHEAD: nat := 34
  const MAX_PAYLOAD: nat := 0x40_0000
  const MAX_LENGTH: nat := 0x40_0022

  /**
   * Any 32-bit checksum. Layout, validation and the inverse laws hold whatever the checksum is; only the damage
   * theorem needs it to be `Crc`, which is what every method here uses.
   */
  type Checksum = seq<byte> -> u32

  datatype RecordHeader = RecordHeader(
    recordLength: u32, timestampNs: u64, sensorType: u16, sequence: u64, payloadSize: u32, payloadCrc: u32)

  datatype RecordError =
    | TruncatedHeader | BadLength | LengthMismatch | PayloadTooLarge
    | TruncatedRecord | PayloadCrcMismatch | RecordCrcMismatch

  datatype Decoded = Ok(header: RecordHeader) | Err(error: RecordError)

  /** What a caller appends. */
  datatype Record = Record(timestampNs: u64, sensorType: u16, sequence: u64, payload: seq<byte>)

  // ---- field helpers ----------------------------------------------------------

  /** Push the low bytes of x, least significant first. */
  method PutLe(out: seq<byte>, width: nat, x: nat) returns (r: seq<byte>)
    ensures r == out + Le(width, x)
  {
    r := out;
    var rest := x;
    assert Le(0, rest) == [];
    for i := 0 to width
      invariant r + Le(width - i, rest) == out + Le(width, x)
    {
      assert Le(width - i, rest) == [rest % 256] + Le(width - i - 1, rest / 256);
      r := r + [rest % 256];
      rest := rest / 256;
    }
  }

  lemma {:induction false} LeValSnoc(s: seq<byte>, b: byte)
    ensures LeVal(s + [b]) == LeVal(s) + Pow256(|s|) * b
  {
    if s == [] {
      assert s + [b] == [b] && LeVal([b]) == b + 256 * LeVal([]);
    } else {
      assert (s + [b])[1..] == s[1..] + [b];
      LeValSnoc(s[1..], b);
    }
  }

  /** Read a field by adding each byte at its own power of 256. */
  method GetLe(data: seq<byte>, off: nat, width: nat) returns (v: nat)
    requires off + width <= |data|
    ensures v == LeVal(data[off..off + width])
  {
    v := 0;
    for i := 0 to width
      invariant v == LeVal(data[off..off + i])
    {
      assert data[off..off + i + 1] == data[off..off + i] + [data[off + i]];
      LeValSnoc(data[off..off + i], data[off + i]);
      v := v + data[off + i] * Pow256(i);
    }
  }

  function GetU16(data: seq<byte>, off: nat): u16
    requires off + 2 <= |data|
  {
    LeValBound(data[off..off + 2]); FieldWidths(); LeVal(data[off..off + 2])
  }

  function GetU32(data: seq<byte>, off: nat): u32
    requires off + 4 <= |data|
  {
    LeValBound(data[off..off + 4]); FieldWidths(); LeVal(data[off..off + 4])
  }

  function GetU64(data: seq<byte>, off: nat): u64
    requires off + 8 <= |data|
  {
    LeValBound(data[off..off + 8]); FieldWidths(); LeVal(data[off..off + 8])
  }

  // ---- encoding ----------------------------------------------------------------

  function HeaderBytes(h: RecordHeader): (r: seq<byte>)
    ensures |r| == HEADER_SIZE
  {
    Le(4, h.recordLength) + Le(8, h.timestampNs) + Le(2, h.sensorType) + Le(8, h.sequence)
    + Le(4, h.payloadSize) + Le(4, h.payloadCrc)
  }

  /** Both lengths are truncated to 32 bits, as the casts in the encoder do. */
  function HeaderOf(crc: Checksum, r: Record): RecordHeader {
    RecordHeader((OVERHEAD + |r.payload|) % 0x1_0000_0000, r.timestampNs, r.sensorType, r.sequence,
                 |r.payload| % 0x1_0000_0000, crc(r.payload))
  }

  function Encoded(crc: Checksum, r: Record): (bytes: seq<byte>)
    ensures |bytes| == OVERHEAD + |r.payload|
  {
    var body := HeaderBytes(HeaderOf(crc, r)) + r.payload;
    body + Le(4, crc(body))
  }

  method PutHeader(h: RecordHeader) returns (out: seq<byte>)
    ensures out == HeaderBytes(h)
  {
    out := PutLe([], 4, h.recordLength);
    assert out == Le(4, h.recordLength);
    out := PutLe(out, 8, h.timestampNs);
    out := PutLe(out, 2, h.sensorType);
    out := PutLe(out, 8, h.sequence);
    out := PutLe(out, 4, h.payloadSize);
    out := PutLe(out, 4, h.payloadCrc);
  }

  method EncodeRecord(timestampNs: u64, sensorType: u16, sequence: u64, payload: seq<byte>, hasSse42: bool)
    returns (out: seq<byte>)
    ensures out == Encoded(Crc, Record(timestampNs, sensorType, sequence, payload))
  {
    var n := |payload| % 0x1_0000_0000;
    var recordLength := (OVERHEAD + |payload|) % 0x1_0000_0000;
    var payloadCrc := Crc32c.Crc32c(payload, hasSse42);
    out := PutHeader(RecordHeader(recordLength, timestampNs, sensorType, sequence, n, payloadCrc));
    ghost var head := out;
    if |payload| > 0 {
      out := out + payload;
    }
    assert out == head + payload;
    var recordCrc := Crc32c.Crc32c(out, hasSse42);
    out := PutLe(out, 4, recordCrc);
  }

  // ---- decoding ----------------------------------------------------------------

  function ParseHeader(data: seq<byte>): RecordHeader
    requires |data| >= HEADER_SIZE
  {
    RecordHeader(GetU32(data, 0), GetU64(data, 4), GetU16(data, 12), GetU64(data, 14), GetU32(data, 22),
                 GetU32(data, 26))
  }

  /** Validate the record at the start of data, with the checks in the order the decoder makes them. */
  function DecodeRecord(crc: Checksum, data: seq<byte>): Decoded {
    if |data| < HEADER_SIZE then Err(TruncatedHeader) else
    var h := ParseHeader(data);
    if h.recordLength < OVERHEAD || h.recordLength > MAX_LENGTH then Err(BadLength)
    else if h.payloadSize > MAX_PAYLOAD then Err(PayloadTooLarge)
    else if h.recordLength != OVERHEAD + h.payloadSize then Err(LengthMismatch)
    else if |data| < h.recordLength then Err(TruncatedRecord)
    else
      var crcOff := HEADER_SIZE + h.payloadSize;
      if crc(data[HEADER_SIZE..crcOff]) != h.payloadCrc then Err(PayloadCrcMismatch)
      else if crc(data[..crcOff]) != GetU32(data, crcOff) then Err(RecordCrcMismatch)
      else Ok(h)
  }

  /** The record an accepted buffer carries. */
  function RecordAt(data: seq<byte>, h: RecordHeader): Record
    requires HEADER_SIZE + h.payloadSize <= |data|
  {
    Record(h.timestampNs, h.sensorType, h.sequence, data[HEADER_SIZE..HEADER_SIZE + h.payloadSize])
  }

  // ---- the codec is a two-way inverse -------------------------------------------

  /** Six adjacent fields, cut out again at their offsets. */
  lemma CutFields(a: seq<byte>, b: seq<byte>, c: seq<byte>, d: seq<byte>, e: seq<byte>, f: seq<byte>, rest: seq<byte>)
    requires |a| == 4 && |b| == 8 && |c| == 2 && |d| == 8 && |e| == |f| == 4
    ensures var buf := a + b + c + d + e + f + rest;
            && buf[0..4] == a && buf[4..12] == b && buf[12..14] == c && buf[14..22] == d && buf[22..26] == e
            && buf[26..30] == f
  {}

  lemma ParseOfHeaderBytes(h: RecordHeader, rest: seq<byte>)
    ensures ParseHeader(HeaderBytes(h) + rest) == h
  {
    FieldWidths();
    CutFields(Le(4, h.recordLength), Le(8, h.timestampNs), Le(2, h.sensorType), Le(8, h.sequence),
              Le(4, h.payloadSize), Le(4, h.payloadCrc), rest);
    LeValOfLe(4, h.recordLength); LeValOfLe(8, h.timestampNs); LeValOfLe(2, h.sensorType);
    LeValOfLe(8, h.sequence); LeValOfLe(4, h.payloadSize); LeValOfLe(4, h.payloadCrc);
  }

  lemma HeaderBytesOfParse(data: seq<byte>)
    requires |data| >= HEADER_SIZE
    ensures HeaderBytes(ParseHeader(data)) == data[..HEADER_SIZE]
  {
    LeOfLeVal(data[0..4]); LeOfLeVal(data[4..12]); LeOfLeVal(data[12..14]);
    LeOfLeVal(data[14..22]); LeOfLeVal(data[22..26]); LeOfLeVal(data[26..30]);
    assert data[..30] == data[0..4] + data[4..12] + data[12..14] + data[14..22] + data[22..26] + data[26..30];
  }

  /** Where the parts of an encoded record lie. */
  lemma EncodedParts(head: seq<byte>, payload: seq<byte>, stored: seq<byte>, tail: seq<byte>)
    requires |head| == HEADER_SIZE && |stored| == 4
    ensures var data := head + payload + stored + tail; var crcOff := HEADER_SIZE + |payload|;
            && data == head + (payload + stored + tail)
            && data[HEADER_SIZE..crcOff] == payload
            && data[..crcOff] == head + payload
            && GetU32(data, crcOff) == LeVal(stored)
  {
    var data, crcOff := head + payload + stored + tail, HEADER_SIZE + |payload|;
    assert data[crcOff..crcOff + 4] == stored;
  }

  lemma LeValOfLe4(v: u32)
    ensures LeVal(Le(4, v)) == v
  {
    FieldWidths();
    LeValOfLe(4, v);
  }

  lemma Accepted(crc: Checksum, data: seq<byte>, h: RecordHeader)
    requires |data| >= HEADER_SIZE && ParseHeader(data) == h
    requires h.payloadSize <= MAX_PAYLOAD && h.recordLength == OVERHEAD + h.payloadSize <= |data|
    requires crc(data[HEADER_SIZE..HEADER_SIZE + h.payloadSize]) == h.payloadCrc
    requires crc(data[..HEADER_SIZE + h.payloadSize]) == GetU32(data, HEADER_SIZE + h.payloadSize)
    ensures DecodeRecord(crc, data) == Ok(h)
  {}

  lemma EncodedIs(crc: Checksum, r: Record, tail: seq<byte>)
    ensures var head := HeaderBytes(HeaderOf(crc, r));
            Encoded(crc, r) + tail == head + r.payload + Le(4, crc(head + r.payload)) + tail
  {
  }

  /** A header, its payload and their checksum are accepted if the header's own fields agree with them. */
  lemma PartsAccepted(crc: Checksum, h: RecordHeader, head: seq<byte>, payload: seq<byte>, tail: seq<byte>)
    requires |head| == HEADER_SIZE && |payload| <= MAX_PAYLOAD
    requires ParseHeader(head + (payload + Le(4, crc(head + payload)) + tail)) == h
    requires h.payloadSize == |payload| && h.recordLength == OVERHEAD + |payload| && h.payloadCrc == crc(payload)
    ensures var data := head + payload + Le(4, crc(head + payload)) + tail;
            DecodeRecord(crc, data) == Ok(h)
            && RecordAt(data, h) == Record(h.timestampNs, h.sensorType, h.sequence, payload)
  {
    var code := crc(head + payload);
    LeValOfLe4(code);
    EncodedParts(head, payload, Le(4, code), tail);
    Accepted(crc, head + payload + Le(4, code) + tail, h);
  }

  /** Decoding an encoded record, whatever bytes follow it, gives the record back. */
  lemma DecodeOfEncoded(crc: Checksum, r: Record, tail: seq<byte>)
    requires |r.payload| <= MAX_PAYLOAD
    ensures DecodeRecord(crc, Encoded(crc, r) + tail) == Ok(HeaderOf(crc, r))
    ensures HeaderOf(crc, r).recordLength == |Encoded(crc, r)| && HeaderOf(crc, r).payloadSize == |r.payload|
    ensures RecordAt(Encoded(crc, r) + tail, HeaderOf(crc, r)) == r
  {
    var h := HeaderOf(crc, r);
    var head := HeaderBytes(h);
    ParseOfHeaderBytes(h, r.payload + Le(4, crc(head + r.payload)) + tail);
    PartsAccepted(crc, h, head, r.payload, tail);
    EncodedIs(crc, r, tail);
  }

  /** An accepted buffer starts with exactly the encoding of the record it carries. */
  lemma EncodedOfDecode(crc: Checksum, data: seq<byte>, h: RecordHeader)
    requires DecodeRecord(crc, data) == Ok(h)
    ensures OVERHEAD <= h.recordLength <= |data| && h.payloadSize <= MAX_PAYLOAD
    ensures h.recordLength == OVERHEAD + h.payloadSize
    ensures Encoded(crc, RecordAt(data, h)) == data[..h.recordLength]
    ensures h == HeaderOf(crc, RecordAt(data, h))
  {
    var crcOff := HEADER_SIZE + h.payloadSize;
    var payload := data[HEADER_SIZE..crcOff];
    assert h == HeaderOf(crc, RecordAt(data, h));
    assert HeaderBytes(h) + payload == data[..crcOff] by { HeaderBytesOfParse(data); }
    assert Le(4, GetU32(data, crcOff)) == data[crcOff..crcOff + 4] by { LeOfLeVal(data[crcOff..crcOff + 4]); }
    assert data[..h.recordLength] == data[..crcOff] + data[crcOff..crcOff + 4];
  }

  // ---- the bytes on disk ---------------------------------------------------------

  /** Where each field of an encoded record lies, and in which byte order. */
  lemma DiskLayout(crc: Checksum, r: Record)
    requires |r.payload| <= 4194304
    ensures var bytes, n := Encoded(crc, r), |r.payload|;
            && |bytes| == 34 + n
            && LeVal(bytes[0..4]) == 34 + n && LeVal(bytes[4..12]) == r.timestampNs
            && LeVal(bytes[12..14]) == r.sensorType && LeVal(bytes[14..22]) == r.sequence
            && LeVal(bytes[22..26]) == n && LeVal(bytes[26..30]) == crc(r.payload)
            && bytes[30..30 + n] == r.payload && LeVal(bytes[30 + n..]) == crc(bytes[..30 + n])
  {
    HeaderOfEncoded(crc, r);
    FieldsAt(Encoded(crc, r), HeaderOf(crc, r));
    BehindHeader(crc, r);
  }

  lemma FieldsAt(data: seq<byte>, h: RecordHeader)
    requires |data| >= HEADER_SIZE && ParseHeader(data) == h
    ensures LeVal(data[0..4]) == h.recordLength && LeVal(data[4..12]) == h.timestampNs
    ensures LeVal(data[12..14]) == h.sensorType && LeVal(data[14..22]) == h.sequence
    ensures LeVal(data[22..26]) == h.payloadSize && LeVal(data[26..30]) == h.payloadCrc
  {
  }

  lemma BehindHeader(crc: Checksum, r: Record)
    ensures var bytes, n := Encoded(crc, r), 30 + |r.payload|;
            bytes[30..n] == r.payload && LeVal(bytes[n..]) == crc(bytes[..n])
  {
    var bytes, body := Encoded(crc, r), Body(crc, r);
    LeValOfLe4(crc(body));
    assert bytes[..|body|] == body && bytes[|body|..] == Le(4, crc(body));
    assert bytes[30..|body|] == body[30..] == r.payload;
  }

  /** Fields are little-endian. */
  lemma LittleEndian(b: byte, c: byte)
    ensures LeVal([b, c]) == b + 0x100 * c && Le(2, b + 0x100 * c) == [b, c]
  {
    assert LeVal([b, c]) == b + 256 * LeVal([c]) && LeVal([c]) == c + 256 * LeVal([]);
    assert Le(2, b + 0x100 * c) == [b] + Le(1, c) && Le(1, c) == [c] + Le(0, 0);
  }

  /** The checks on the bytes of a record, of which an accepted one passes all and the first to fail names the error. */
  ghost predicate Passes(crc: Checksum, data: seq<byte>, checks: nat) {
    && (checks >= 1 ==> |data| >= 30)
    && (checks >= 2 ==> 34 <= LeVal(data[0..4]) <= 4194338)
    && (checks >= 3 ==> LeVal(data[22..26]) <= 4194304)
    && (checks >= 4 ==> LeVal(data[0..4]) == 34 + LeVal(data[22..26]))
    && (checks >= 5 ==> LeVal(data[0..4]) <= |data|)
    && (checks >= 6 ==> crc(data[30..30 + LeVal(data[22..26])]) == LeVal(data[26..30]))
    && (checks >= 7 ==>
          var n := 30 + LeVal(data[22..26]); crc(data[..n]) == LeVal(data[n..n + 4]))
  }

  /** Each error is reported exactly when its check is the first to fail, and the fields come from their offsets. */
  lemma DecodedExactly(crc: Checksum, data: seq<byte>)
    ensures var d := DecodeRecord(crc, data);
            && (d == Err(TruncatedHeader) <==> !Passes(crc, data, 1))
            && (d == Err(BadLength) <==> Passes(crc, data, 1) && !Passes(crc, data, 2))
            && (d == Err(PayloadTooLarge) <==> Passes(crc, data, 2) && !Passes(crc, data, 3))
            && (d == Err(LengthMismatch) <==> Passes(crc, data, 3) && !Passes(crc, data, 4))
            && (d == Err(TruncatedRecord) <==> Passes(crc, data, 4) && !Passes(crc, data, 5))
            && (d == Err(PayloadCrcMismatch) <==> Passes(crc, data, 5) && !Passes(crc, data, 6))
            && (d == Err(RecordCrcMismatch) <==> Passes(crc, data, 6) && !Passes(crc, data, 7))
            && (d.Ok? <==> Passes(crc, data, 7))
    ensures var d := DecodeRecord(crc, data);
            d.Ok? ==>
              && |data| >= 30 && d.header.recordLength == LeVal(data[0..4])
              && d.header.timestampNs == LeVal(data[4..12]) && d.header.sensorType == LeVal(data[12..14])
              && d.header.sequence == LeVal(data[14..22]) && d.header.payloadSize == LeVal(data[22..26])
              && d.header.payloadCrc == LeVal(data[26..30])
  {
  }

  // ---- damage --------------------------------------------------------------------

  /** The message the record checksum covers. */
  function Body(crc: Checksum, r: Record): (b: seq<byte>)
    ensures |b| == HEADER_SIZE + |r.payload|
  {
    HeaderBytes(HeaderOf(crc, r)) + r.payload
  }

  lemma HeaderOfEncoded(crc: Checksum, r: Record)
    requires |r.payload| <= MAX_PAYLOAD
    ensures ParseHeader(Encoded(crc, r)) == HeaderOf(crc, r)
  {
    var good := Encoded(crc, r);
    assert good == HeaderBytes(HeaderOf(crc, r)) + good[HEADER_SIZE..];
    ParseOfHeaderBytes(HeaderOf(crc, r), good[HEADER_SIZE..]);
  }

  /** A window of 32 bits cannot reach both length fields. */
  lemma OneLengthIntact(good: seq<byte>, bad: seq<byte>, i: int, tail: seq<byte>)
    requires Burst(good, bad, i) && |good| >= OVERHEAD
    ensures GetU32(bad + tail, 0) == GetU32(good, 0) || GetU32(bad + tail, 22) == GetU32(good, 22)
  {
    var data := bad + tail;
    assert data[0..4] == bad[0..4] && data[22..26] == bad[22..26];
    if i < 32 {
      SameOutside(good, bad, i, 22, 26);
    } else {
      SameOutside(good, bad, i, 0, 4);
    }
  }

  lemma AcceptedFacts(crc: Checksum, data: seq<byte>)
    requires DecodeRecord(crc, data).Ok?
    ensures var h := ParseHeader(data); var n := HEADER_SIZE + h.payloadSize;
            h.recordLength == OVERHEAD + h.payloadSize <= |data| && crc(data[..n]) == LeVal(data[n..n + 4])
  {}

  lemma LengthsOfEncoded(crc: Checksum, r: Record)
    requires |r.payload| <= MAX_PAYLOAD
    ensures var good := Encoded(crc, r);
            |good| == OVERHEAD + |r.payload| && GetU32(good, 0) == |good| && GetU32(good, 22) == |r.payload|
  {
    HeaderOfEncoded(crc, r);
  }

  /** So the lengths of an accepted damaged record are the original ones... */
  lemma LengthsIntact(good: seq<byte>, bad: seq<byte>, i: int, tail: seq<byte>, n: nat)
    requires Burst(good, bad, i) && |good| == OVERHEAD + n && GetU32(good, 0) == OVERHEAD + n && GetU32(good, 22) == n
    requires GetU32(bad + tail, 0) == OVERHEAD + GetU32(bad + tail, 22)
    ensures GetU32(bad + tail, 22) == n
  {
    OneLengthIntact(good, bad, i, tail);
  }

  /** ... and damage is left to the record checksum. */
  lemma DamagedLengths(crc: Checksum, r: Record, good: seq<byte>, bad: seq<byte>, i: int, tail: seq<byte>)
    requires |r.payload| <= MAX_PAYLOAD && good == Encoded(crc, r)
    requires Burst(good, bad, i)
    requires DecodeRecord(crc, bad + tail).Ok?
    ensures var n := HEADER_SIZE + |r.payload|; crc(bad[..n]) == LeVal(bad[n..])
  {
    var data, n := bad + tail, HEADER_SIZE + |r.payload|;
    LengthsOfEncoded(crc, r);
    AcceptedFacts(crc, data);
    LengthsIntact(good, bad, i, tail, |r.payload|);
    assert data[..n] == bad[..n] && data[n..n + 4] == bad[n..];
  }

  /** No encoded record damaged only inside 32 adjacent bits, at any offset, is ever accepted, whatever follows it. */
  lemma BurstRejected(r: Record, bad: seq<byte>, i: int, tail: seq<byte>)
    requires |r.payload| <= MAX_PAYLOAD
    requires Burst(Encoded(Crc, r), bad, i)
    ensures DecodeRecord(Crc, bad + tail).Err?
  {
    BurstDetected(Body(Crc, r), bad, i);
    if DecodeRecord(Crc, bad + tail).Ok? {
      DamagedLengths(Crc, r, Encoded(Crc, r), bad, i, tail);
    }
  }
}

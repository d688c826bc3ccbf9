/** The binary frame protocol: 36-byte header, header CRC32C, payload; and the per-stream monotonic decoder. */
module FrameCodec {
  import opened Bytes
  import opened Crc32c
  import R = RecordCodec

  const MAGIC: u32 := 0x5346_4844
  const VERSION: u16 := 1
  const HEADER_SIZE: nat := 36
  const OVERHEAD: nat := 40
  const MAX_PAYLOAD: nat := 0x40_0000

  datatype FrameHeader = FrameHeader(
    magic: u32, version: u16, sensorType: u16, flags: u16, headerSize: u16,
    sequence: u64, timestampNs: u64, payloadSize: u32, payloadCrc: u32)

  datatype FrameError =
    | TruncatedHeader | BadMagic | UnsupportedVersion | BadHeaderSize | PayloadTooLarge | LengthOverflow
    | TruncatedPayload | HeaderCrcMismatch | PayloadCrcMismatch | SequenceRegression | TimestampRegression

  datatype Decoded = Ok(header: FrameHeader) | Err(error: FrameError)

  datatype Frame = Frame(sensorType: u16, sequence: u64, timestampNs: u64, flags: u16, payload: seq<byte>)

  // ---- encoding -------------------------------------------------------------------

  function HeaderBytes(h: FrameHeader): (r: seq<byte>)
    ensures |r| == HEADER_SIZE
  {
    Le(4, h.magic) + Le(2, h.version) + Le(2, h.sensorType) + Le(2, h.flags) + Le(2, h.headerSize)
    + Le(8, h.sequence) + Le(8, h.timestampNs) + Le(4, h.payloadSize) + Le(4, h.payloadCrc)
  }

  function HeaderOf(crc: R.Checksum, f: Frame): FrameHeader
    requires |f.payload| <= MAX_PAYLOAD
  {
    FrameHeader(MAGIC, VERSION, f.sensorType, f.flags, HEADER_SIZE, f.sequence, f.timestampNs, |f.payload|,
                crc(f.payload))
  }

  function Encoded(crc: R.Checksum, f: Frame): (bytes: seq<byte>)
    requires |f.payload| <= MAX_PAYLOAD
    ensures |bytes| == OVERHEAD + |f.payload|
  {
    var head := HeaderBytes(HeaderOf(crc, f));
    head + Le(4, crc(head)) + f.payload
  }

  method PutHeader(h: FrameHeader) returns (out: seq<byte>)
    ensures out == HeaderBytes(h)
  {
    out := R.PutLe([], 4, h.magic);
    assert out == Le(4, h.magic);
    out := R.PutLe(out, 2, h.version);
    out := R.PutLe(out, 2, h.sensorType);
    out := R.PutLe(out, 2, h.flags);
    out := R.PutLe(out, 2, h.headerSize);
    out := R.PutLe(out, 8, h.sequence);
    out := R.PutLe(out, 8, h.timestampNs);
    out := R.PutLe(out, 4, h.payloadSize);
    out := R.PutLe(out, 4, h.payloadCrc);
  }

  /** None stands for the length error thrown on an oversized payload. */
  method EncodeFrame(f: Frame, hasSse42: bool) returns (out: Option<seq<byte>>)
    ensures out.None? <==> |f.payload| > 4194304
    ensures out.Some? ==> out.value == Encoded(Crc, f)
  {
    if |f.payload| > MAX_PAYLOAD {
      return None;
    }
    var payloadCrc := Crc32c.Crc32c(f.payload, hasSse42);
    var bytes := PutHeader(FrameHeader(
      MAGIC, VERSION, f.sensorType, f.flags, HEADER_SIZE, f.sequence, f.timestampNs, |f.payload|, payloadCrc));
    var headerCrc := Crc32c.Crc32c(bytes, hasSse42);
    bytes := R.PutLe(bytes, 4, headerCrc);
    out := Some(bytes + f.payload);
  }

  // ---- decoding -------------------------------------------------------------------

  function ParseHeader(data: seq<byte>): FrameHeader
    requires |data| >= HEADER_SIZE
  {
    FrameHeader(R.GetU32(data, 0), R.GetU16(data, 4), R.GetU16(data, 6), R.GetU16(data, 8), R.GetU16(data, 10),
                R.GetU64(data, 12), R.GetU64(data, 20), R.GetU32(data, 28), R.GetU32(data, 32))
  }

  /** Stateless validation of the frame at the start of data; the first failing check decides the error. */
  function DecodeHeader(crc: R.Checksum, data: seq<byte>): Decoded {
    if |data| < OVERHEAD then Err(TruncatedHeader) else
    var h := ParseHeader(data);
    if h.magic != MAGIC then Err(BadMagic)
    else if h.version > VERSION then Err(UnsupportedVersion)
    else if h.headerSize != HEADER_SIZE then Err(BadHeaderSize)
    else if h.payloadSize > MAX_PAYLOAD then Err(PayloadTooLarge)
    else
      var need := OVERHEAD + h.payloadSize;
      if |data| < need then Err(TruncatedPayload)
      else if crc(data[..HEADER_SIZE]) != R.GetU32(data, HEADER_SIZE) then Err(HeaderCrcMismatch)
      else if crc(data[OVERHEAD..need]) != h.payloadCrc then Err(PayloadCrcMismatch)
      else Ok(h)
  }

  function FrameAt(data: seq<byte>, h: FrameHeader): Frame
    requires OVERHEAD + h.payloadSize <= |data|
  {
    Frame(h.sensorType, h.sequence, h.timestampNs, h.flags, data[OVERHEAD..OVERHEAD + h.payloadSize])
  }

  // ---- the codec is a two-way inverse -----------------------------------------------

  /** Nine adjacent fields, cut out again at their offsets. */
  lemma CutFields(a: seq<byte>, b: seq<byte>, c: seq<byte>, d: seq<byte>, e: seq<byte>,
                  f: seq<byte>, g: seq<byte>, h: seq<byte>, i: seq<byte>, rest: seq<byte>)
    requires |a| == 4 && |b| == |c| == |d| == |e| == 2 && |f| == |g| == 8 && |h| == |i| == 4
    ensures var buf := a + b + c + d + e + f + g + h + i + rest;
            && buf[0..4] == a && buf[4..6] == b && buf[6..8] == c && buf[8..10] == d && buf[10..12] == e
            && buf[12..20] == f && buf[20..28] == g && buf[28..32] == h && buf[32..36] == i
  {}

  lemma ParseOfHeaderBytes(h: FrameHeader, rest: seq<byte>)
    ensures ParseHeader(HeaderBytes(h) + rest) == h
  {
    FieldWidths();
    CutFields(Le(4, h.magic), Le(2, h.version), Le(2, h.sensorType), Le(2, h.flags), Le(2, h.headerSize),
              Le(8, h.sequence), Le(8, h.timestampNs), Le(4, h.payloadSize), Le(4, h.payloadCrc), rest);
    LeValOfLe(4, h.magic); LeValOfLe(2, h.version); LeValOfLe(2, h.sensorType); LeValOfLe(2, h.flags);
    LeValOfLe(2, h.headerSize); LeValOfLe(8, h.sequence); LeValOfLe(8, h.timestampNs);
    LeValOfLe(4, h.payloadSize); LeValOfLe(4, h.payloadCrc);
  }

  lemma HeaderBytesOfParse(data: seq<byte>)
    requires |data| >= HEADER_SIZE
    ensures HeaderBytes(ParseHeader(data)) == data[..HEADER_SIZE]
  {
    LeOfLeVal(data[0..4]); LeOfLeVal(data[4..6]); LeOfLeVal(data[6..8]); LeOfLeVal(data[8..10]);
    LeOfLeVal(data[10..12]); LeOfLeVal(data[12..20]); LeOfLeVal(data[20..28]); LeOfLeVal(data[28..32]);
    LeOfLeVal(data[32..36]);
    assert data[..36] == data[0..4] + data[4..6] + data[6..8] + data[8..10] + data[10..12]
                         + data[12..20] + data[20..28] + data[28..32] + data[32..36];
  }

  lemma EncodedParts(head: seq<byte>, stored: seq<byte>, payload: seq<byte>, tail: seq<byte>)
    requires |head| == HEADER_SIZE && |stored| == 4
    ensures var data := head + stored + payload + tail;
            && data == head + (stored + payload + tail)
            && data[..HEADER_SIZE] == head
            && R.GetU32(data, HEADER_SIZE) == LeVal(stored)
            && data[OVERHEAD..OVERHEAD + |payload|] == payload
  {
    var data := head + stored + payload + tail;
    assert data[HEADER_SIZE..HEADER_SIZE + 4] == stored;
  }

  lemma Accepted(crc: R.Checksum, data: seq<byte>, h: FrameHeader)
    requires |data| >= OVERHEAD + h.payloadSize && ParseHeader(data) == h
    requires h.magic == MAGIC && h.version <= VERSION && h.headerSize == HEADER_SIZE && h.payloadSize <= MAX_PAYLOAD
    requires crc(data[..HEADER_SIZE]) == R.GetU32(data, HEADER_SIZE)
    requires crc(data[OVERHEAD..OVERHEAD + h.payloadSize]) == h.payloadCrc
    ensures DecodeHeader(crc, data) == Ok(h)
  {}

  /** Decoding an encoded frame, whatever bytes follow it, gives the frame back. */
  lemma DecodeOfEncoded(crc: R.Checksum, f: Frame, tail: seq<byte>)
    requires |f.payload| <= MAX_PAYLOAD
    ensures DecodeHeader(crc, Encoded(crc, f) + tail) == Ok(HeaderOf(crc, f))
    ensures FrameAt(Encoded(crc, f) + tail, HeaderOf(crc, f)) == f
  {
    var h := HeaderOf(crc, f);
    var head := HeaderBytes(h);
    var stored := Le(4, crc(head));
    R.LeValOfLe4(crc(head));
    EncodedParts(head, stored, f.payload, tail);
    ParseOfHeaderBytes(h, stored + f.payload + tail);
    var data := Encoded(crc, f) + tail;
    assert data == head + stored + f.payload + tail;
    Accepted(crc, data, h);
  }

  /** An accepted frame re-encodes to the bytes it came from exactly when its version is the current one. */
  lemma EncodedOfDecode(crc: R.Checksum, data: seq<byte>, h: FrameHeader)
    requires DecodeHeader(crc, data) == Ok(h)
    ensures OVERHEAD + h.payloadSize <= |data| && h.payloadSize <= MAX_PAYLOAD
    ensures Encoded(crc, FrameAt(data, h)) == data[..OVERHEAD + h.payloadSize] <==> h.version == VERSION
  {
    var need := OVERHEAD + h.payloadSize;
    var f := FrameAt(data, h);
    HeaderBytesOfParse(data);
    assert HeaderOf(crc, f) == h.(version := VERSION);
    if h.version == VERSION {
      var stored := data[HEADER_SIZE..OVERHEAD];
      assert Le(4, R.GetU32(data, HEADER_SIZE)) == stored by { LeOfLeVal(stored); }
      assert data[..need] == data[..HEADER_SIZE] + stored + f.payload;
    } else if Encoded(crc, f) == data[..need] {
      assert Encoded(crc, f)[..HEADER_SIZE] == HeaderBytes(HeaderOf(crc, f));
      assert data[..need][..HEADER_SIZE] == data[..HEADER_SIZE] == HeaderBytes(h);
      ParseOfHeaderBytes(HeaderOf(crc, f), []);
      ParseOfHeaderBytes(h, []);
      assert false;
    }
  }

  /** A frame as a sender of another version encodes it. */
  function EncodedAs(crc: R.Checksum, f: Frame, version: u16): seq<byte>
    requires |f.payload| <= MAX_PAYLOAD
  {
    var head := HeaderBytes(HeaderOf(crc, f).(version := version));
    head + Le(4, crc(head)) + f.payload
  }

  /** Every frame of an older version is accepted, and none re-encodes to its own bytes. */
  lemma OldVersionNotItself(crc: R.Checksum, f: Frame, version: u16)
    requires |f.payload| <= MAX_PAYLOAD && version < VERSION
    ensures var data, h := EncodedAs(crc, f, version), HeaderOf(crc, f).(version := version);
            DecodeHeader(crc, data) == Ok(h) && Encoded(crc, FrameAt(data, h)) != data
  {
    var h := HeaderOf(crc, f).(version := version);
    var head := HeaderBytes(h);
    var stored, data := Le(4, crc(head)), EncodedAs(crc, f, version);
    R.LeValOfLe4(crc(head));
    EncodedParts(head, stored, f.payload, []);
    ParseOfHeaderBytes(h, stored + f.payload);
    assert data == head + stored + f.payload + [] == head + (stored + f.payload);
    Accepted(crc, data, h);
    EncodedOfDecode(crc, data, h);
    assert data[..OVERHEAD + h.payloadSize] == data;
  }

  // ---- the bytes on the wire --------------------------------------------------------

  lemma FixedFields()
    ensures Le(4, MAGIC) == [0x44, 0x48, 0x46, 0x53] && Le(2, VERSION) == [1, 0] && Le(2, HEADER_SIZE) == [36, 0]
  {
    assert Le(4, MAGIC) == [0x44] + Le(3, 0x53_4648) && Le(3, 0x53_4648) == [0x48] + Le(2, 0x5346);
    assert Le(2, 0x5346) == [0x46] + Le(1, 0x53);
  }

  /** Where each field of an encoded frame lies, and in which byte order. */
  lemma WireLayout(crc: R.Checksum, f: Frame)
    requires |f.payload| <= 4194304
    ensures var bytes := Encoded(crc, f);
            && |bytes| == 40 + |f.payload|
            && bytes[0..4] == [0x44, 0x48, 0x46, 0x53] && bytes[4..6] == [1, 0]
            && LeVal(bytes[6..8]) == f.sensorType && LeVal(bytes[8..10]) == f.flags && bytes[10..12] == [36, 0]
            && LeVal(bytes[12..20]) == f.sequence && LeVal(bytes[20..28]) == f.timestampNs
            && LeVal(bytes[28..32]) == |f.payload| && LeVal(bytes[32..36]) == crc(f.payload)
            && LeVal(bytes[36..40]) == crc(bytes[..36]) && bytes[40..] == f.payload
  {
    var h := HeaderOf(crc, f);
    var head := HeaderBytes(h);
    var stored := Le(4, crc(head));
    FixedFields();
    FieldWidths();
    R.LeValOfLe4(crc(head));
    CutFields(Le(4, h.magic), Le(2, h.version), Le(2, h.sensorType), Le(2, h.flags), Le(2, h.headerSize),
              Le(8, h.sequence), Le(8, h.timestampNs), Le(4, h.payloadSize), Le(4, h.payloadCrc), stored + f.payload);
    ParseOfHeaderBytes(h, stored + f.payload);
    assert Encoded(crc, f) == head + (stored + f.payload);
    EncodedParts(head, stored, f.payload, []);
    assert head + stored + f.payload + [] == Encoded(crc, f);
  }

  /** The checks on the bytes of a frame, of which an accepted one passes all and the first to fail names the error. */
  ghost predicate Passes(crc: R.Checksum, data: seq<byte>, checks: nat) {
    && (checks >= 1 ==> |data| >= 40)
    && (checks >= 2 ==> LeVal(data[0..4]) == 0x5346_4844)
    && (checks >= 3 ==> LeVal(data[4..6]) <= 1)
    && (checks >= 4 ==> LeVal(data[10..12]) == 36)
    && (checks >= 5 ==> LeVal(data[28..32]) <= 4194304)
    && (checks >= 6 ==> 40 + LeVal(data[28..32]) <= |data|)
    && (checks >= 7 ==> crc(data[..36]) == LeVal(data[36..40]))
    && (checks >= 8 ==> crc(data[40..40 + LeVal(data[28..32])]) == LeVal(data[32..36]))
  }

  /** Each error is reported exactly when its check is the first to fail, and the fields come from their offsets. */
  lemma DecodedExactly(crc: R.Checksum, data: seq<byte>)
    ensures var d := DecodeHeader(crc, data);
            && (d == Err(TruncatedHeader) <==> !Passes(crc, data, 1))
            && (d == Err(BadMagic) <==> Passes(crc, data, 1) && !Passes(crc, data, 2))
            && (d == Err(UnsupportedVersion) <==> Passes(crc, data, 2) && !Passes(crc, data, 3))
            && (d == Err(BadHeaderSize) <==> Passes(crc, data, 3) && !Passes(crc, data, 4))
            && (d == Err(PayloadTooLarge) <==> Passes(crc, data, 4) && !Passes(crc, data, 5))
            && (d == Err(TruncatedPayload) <==> Passes(crc, data, 5) && !Passes(crc, data, 6))
            && (d == Err(HeaderCrcMismatch) <==> Passes(crc, data, 6) && !Passes(crc, data, 7))
            && (d == Err(PayloadCrcMismatch) <==> Passes(crc, data, 7) && !Passes(crc, data, 8))
            && (d.Ok? <==> Passes(crc, data, 8))
    ensures var d := DecodeHeader(crc, data);
            d.Ok? ==>
              && |data| >= 40 && d.header.sensorType == LeVal(data[6..8]) && d.header.flags == LeVal(data[8..10])
              && d.header.sequence == LeVal(data[12..20]) && d.header.timestampNs == LeVal(data[20..28])
              && d.header.payloadSize == LeVal(data[28..32]) && d.header.payloadCrc == LeVal(data[32..36])
              && d.header.version == LeVal(data[4..6])
  {
  }

  // ---- damage -----------------------------------------------------------------------

  lemma DecodeOnlyReads(crc: R.Checksum, bad: seq<byte>, tail: seq<byte>, n: nat)
    requires |bad| == OVERHEAD + n && ParseHeader(bad).payloadSize == n
    requires DecodeHeader(crc, bad + tail).Ok?
    ensures crc(bad[..HEADER_SIZE]) == LeVal(bad[HEADER_SIZE..OVERHEAD])
    ensures crc(bad[OVERHEAD..]) == ParseHeader(bad).payloadCrc
  {
    var data := bad + tail;
    assert data[..HEADER_SIZE] == bad[..HEADER_SIZE];
    assert data[HEADER_SIZE..HEADER_SIZE + 4] == bad[HEADER_SIZE..OVERHEAD];
    HeaderBytesOfParse(data);
    HeaderBytesOfParse(bad);
    ParseOfHeaderBytes(ParseHeader(data), []);
    ParseOfHeaderBytes(ParseHeader(bad), []);
    assert data[OVERHEAD..OVERHEAD + n] == bad[OVERHEAD..];
  }

  lemma HeaderCheck(crc: R.Checksum, bad: seq<byte>, tail: seq<byte>)
    requires |bad| >= OVERHEAD && DecodeHeader(crc, bad + tail).Ok?
    ensures crc(bad[..HEADER_SIZE]) == LeVal(bad[HEADER_SIZE..OVERHEAD])
  {
    var data := bad + tail;
    assert data[..HEADER_SIZE] == bad[..HEADER_SIZE];
    assert data[HEADER_SIZE..HEADER_SIZE + 4] == bad[HEADER_SIZE..OVERHEAD];
  }

  /** Damage that reaches the header or its checksum is caught by the header checksum. */
  lemma HeaderDamage(head: seq<byte>, payload: seq<byte>, bad: seq<byte>, i: int)
    requires |head| == HEADER_SIZE
    requires Burst(head + Le(4, Crc(head)) + payload, bad, i)
    requires bad[..OVERHEAD] != head + Le(4, Crc(head))
    ensures Crc(bad[..HEADER_SIZE]) != LeVal(bad[HEADER_SIZE..OVERHEAD])
  {
    var word := head + Le(4, Crc(head));
    var bad' := bad[..OVERHEAD];
    assert (word + payload)[0..OVERHEAD] == word && bad[0..OVERHEAD] == bad';
    SliceBurst(word + payload, bad, i, 0, OVERHEAD);
    BurstDetected(head, bad', i);
    assert bad'[..HEADER_SIZE] == bad[..HEADER_SIZE] && bad'[HEADER_SIZE..] == bad[HEADER_SIZE..OVERHEAD];
  }

  /** Damage confined to the payload, seen on the payload followed by its own checksum. */
  lemma PayloadWindow(word: seq<byte>, payload: seq<byte>, stored: seq<byte>, bad: seq<byte>, i: int)
    requires |word| == OVERHEAD
    requires Burst(word + payload, bad, i) && bad[..OVERHEAD] == word
    ensures Burst(payload + stored, bad[OVERHEAD..] + stored, i - 8 * OVERHEAD)
  {
    var good, n := word + payload, |word| + |payload|;
    assert good[OVERHEAD..n] == payload && bad == bad[..OVERHEAD] + bad[OVERHEAD..];
    assert bad[OVERHEAD..n] == bad[OVERHEAD..] != payload;
    SliceBurst(good, bad, i, OVERHEAD, n);
    BurstBefore(payload, bad[OVERHEAD..], i - 8 * OVERHEAD, stored);
  }

  /** It is caught by the payload checksum the intact header carries. */
  lemma PayloadDamage(word: seq<byte>, payload: seq<byte>, bad: seq<byte>, i: int)
    requires |word| == OVERHEAD
    requires Burst(word + payload, bad, i)
    requires bad[..OVERHEAD] == word
    ensures Crc(bad[OVERHEAD..]) != Crc(payload)
  {
    var n, code := |payload|, Crc(payload);
    var stored := Le(4, code);
    var bad' := bad[OVERHEAD..] + stored;
    PayloadWindow(word, payload, stored, bad, i);
    BurstDetected(payload, bad', i - 8 * OVERHEAD);
    assert bad'[..n] == bad[OVERHEAD..] && bad'[n..] == stored;
    R.LeValOfLe4(code);
  }

  /** No encoded frame damaged only inside 32 adjacent bits, at any offset, is ever accepted, whatever follows it. */
  lemma BurstRejected(f: Frame, bad: seq<byte>, i: int, tail: seq<byte>)
    requires |f.payload| <= MAX_PAYLOAD
    requires Burst(Encoded(Crc, f), bad, i)
    ensures DecodeHeader(Crc, bad + tail).Err?
  {
    var h := HeaderOf(Crc, f);
    var head := HeaderBytes(h);
    var word := head + Le(4, Crc(head));
    if DecodeHeader(Crc, bad + tail).Ok? {
      if bad[..OVERHEAD] != word {
        HeaderDamage(head, f.payload, bad, i);
        HeaderCheck(Crc, bad, tail);
      } else {
        PayloadDamage(word, f.payload, bad, i);
        assert bad == head + bad[HEADER_SIZE..] by {
          assert bad[..HEADER_SIZE] == bad[..OVERHEAD][..HEADER_SIZE] == head;
        }
        ParseOfHeaderBytes(h, bad[HEADER_SIZE..]);
        DecodeOnlyReads(Crc, bad, tail, |f.payload|);
      }
    }
  }
}

/**
 * The byte-resync scan of one segment, and what it guarantees on arbitrary bytes. The log uses its record codec only
 * through the laws of `GoodCodec`, which the CRC32C record format and the segment names meet.
 */
module WalScan {
  import opened Bytes
  import R = RecordCodec
  import Segment

  datatype ReplayRecord = ReplayRecord(header: R.RecordHeader, payload: seq<byte>)

  /** An accepted record and where it starts. */
  datatype Span = Span(pos: nat, rec: ReplayRecord) {
    function End(): nat { pos + rec.header.recordLength }
  }

  /** What, if anything, decodes at each position. */
  type Decoder = nat -> Option<ReplayRecord>

  ghost predicate GoodDecoder(dec: Decoder, n: nat) {
    forall p: nat :: dec(p).Some? ==> 0 < dec(p).value.header.recordLength && p + dec(p).value.header.recordLength <= n
  }

  /**
   * How records become bytes, what a buffer starting with a record decodes to, what a record is replayed as, and how
   * segment ids are printed as file names and read back.
   */
  datatype Codec = Codec(
    encode: R.Record -> seq<byte>, decode: seq<byte> -> Option<ReplayRecord>, replay: R.Record -> ReplayRecord,
    filename: u32 -> string, segmentId: string -> u32)

  predicate Fits(r: R.Record) {
    |r.payload| <= R.MAX_PAYLOAD
  }

  /** A replayed record has everything that was appended. */
  predicate SameRecord(replayed: ReplayRecord, r: R.Record) {
    && replayed.header.timestampNs == r.timestampNs && replayed.header.sensorType == r.sensorType
    && replayed.header.sequence == r.sequence && replayed.payload == r.payload
  }

  ghost predicate GoodCodec(c: Codec) {
    && (forall data: seq<byte> {:trigger c.decode(data)} :: c.decode(data).Some?
          ==> |data| >= R.HEADER_SIZE && 0 < c.decode(data).value.header.recordLength <= |data|)
    && (forall r {:trigger c.replay(r)} :: Fits(r) ==>
          |c.encode(r)| > 0 && c.replay(r).header.recordLength == |c.encode(r)|)
    && (forall r {:trigger c.replay(r)} :: Fits(r) ==> SameRecord(c.replay(r), r))
    && (forall r, tail: seq<byte> {:trigger c.decode(c.encode(r) + tail)} :: Fits(r) ==>
          c.decode(c.encode(r) + tail) == Some(c.replay(r)))
    && (forall id: u32 {:trigger c.filename(id)} :: c.segmentId(c.filename(id)) == id)
  }

  /** The record format with a given checksum. */
  function RecordFormat(crc: R.Checksum): Codec {
    Codec(r => R.Encoded(crc, r), data => DecodeWith(crc, data), r => ReplayWith(crc, r),
          (id: u32) => Segment.SegmentFilename(id), name => Segment.SegmentId(name))
  }

  function DecodeWith(crc: R.Checksum, data: seq<byte>): Option<ReplayRecord> {
    match R.DecodeRecord(crc, data)
    case Ok(h) =>
      R.EncodedOfDecode(crc, data, h);
      Some(ReplayRecord(h, R.RecordAt(data, h).payload))
    case Err(_) => None
  }

  function ReplayWith(crc: R.Checksum, r: R.Record): ReplayRecord {
    ReplayRecord(R.HeaderOf(crc, r), r.payload)
  }

  lemma FormatDecodes(crc: R.Checksum, data: seq<byte>)
    requires DecodeWith(crc, data).Some?
    ensures |data| >= R.HEADER_SIZE && 0 < DecodeWith(crc, data).value.header.recordLength <= |data|
  {
    R.EncodedOfDecode(crc, data, R.DecodeRecord(crc, data).header);
  }

  lemma FormatInverse(crc: R.Checksum, r: R.Record, tail: seq<byte>)
    requires Fits(r)
    ensures DecodeWith(crc, R.Encoded(crc, r) + tail) == Some(ReplayWith(crc, r))
    ensures |R.Encoded(crc, r)| > 0 && ReplayWith(crc, r).header.recordLength == |R.Encoded(crc, r)|
    ensures SameRecord(ReplayWith(crc, r), r)
  {
    R.DecodeOfEncoded(crc, r, tail);
  }

  lemma RecordFormatIsGood(crc: R.Checksum)
    ensures GoodCodec(RecordFormat(crc))
  {
    var c := RecordFormat(crc);
    forall data: seq<byte> | c.decode(data).Some?
      ensures |data| >= R.HEADER_SIZE && 0 < c.decode(data).value.header.recordLength <= |data|
    {
      FormatDecodes(crc, data);
    }
    forall r, tail: seq<byte> | Fits(r) ensures c.decode(c.encode(r) + tail) == Some(c.replay(r)) {
      FormatInverse(crc, r, tail);
    }
    forall r | Fits(r)
      ensures |c.encode(r)| > 0 && c.replay(r).header.recordLength == |c.encode(r)| && SameRecord(c.replay(r), r)
    {
      FormatInverse(crc, r, []);
    }
    forall id: u32 ensures c.segmentId(c.filename(id)) == id {
      Segment.FilenameRoundTrip(id);
    }
  }

  /** What the record format decodes, read off the bytes. */
  lemma RecordDecodes(crc: R.Checksum, data: seq<byte>)
    requires RecordFormat(crc).decode(data).Some?
    ensures var rec := RecordFormat(crc).decode(data).value;
            && |data| >= 34 && rec.header.recordLength == LeVal(data[0..4]) <= |data|
            && rec.header.timestampNs == LeVal(data[4..12]) && rec.header.sensorType == LeVal(data[12..14])
            && rec.header.sequence == LeVal(data[14..22])
            && rec.payload == data[30..rec.header.recordLength - 4]
  {
    R.DecodedExactly(crc, data);
    R.EncodedOfDecode(crc, data, R.DecodeRecord(crc, data).header);
  }

  /** It decodes exactly what the record decoder accepts. */
  lemma RecordDecodesExactly(crc: R.Checksum, data: seq<byte>)
    ensures RecordFormat(crc).decode(data).Some? <==> R.Passes(crc, data, 7)
  {
    R.DecodedExactly(crc, data);
  }

  function DecodeAt(c: Codec, buf: seq<byte>, pos: nat): Option<ReplayRecord> {
    if pos > |buf| then None else c.decode(buf[pos..])
  }

  function DecoderOf(c: Codec, buf: seq<byte>): Decoder {
    (p: nat) => DecodeAt(c, buf, p)
  }

  lemma DecoderOfIsGood(c: Codec, buf: seq<byte>)
    requires GoodCodec(c)
    ensures GoodDecoder(DecoderOf(c, buf), |buf|)
    ensures forall p: nat :: p + R.HEADER_SIZE > |buf| ==> DecoderOf(c, buf)(p).None?
  {}

  /** Accept what decodes here, else move one byte on. */
  function Scan(dec: Decoder, n: nat, pos: nat): (spans: seq<Span>)
    requires GoodDecoder(dec, n)
    decreases n - pos
  {
    if pos >= n then []
    else if dec(pos).Some? then
      var s := Span(pos, dec(pos).value);
      [s] + Scan(dec, n, s.End())
    else Scan(dec, n, pos + 1)
  }

  /** Total length of the accepted records. */
  function SpanBytes(spans: seq<Span>): nat {
    if spans == [] then 0 else
    var k := |spans| - 1;
    SpanBytes(spans[..k]) + spans[k].rec.header.recordLength
  }

  // ---- leftmost-greedy -------------------------------------------------------------------

  /**
   * The spans cover `from..n` leftmost-greedily: each is what decodes at its start, nothing decodes in the gap before
   * it, the next begins at or after its end, and nothing decodes after the last.
   */
  ghost predicate LeftmostGreedy(dec: Decoder, n: nat, from: nat, spans: seq<Span>)
    decreases |spans|
  {
    if spans == [] then forall p :: from <= p < n ==> dec(p).None?
    else
      && from <= spans[0].pos
      && dec(spans[0].pos) == Some(spans[0].rec)
      && (forall p :: from <= p < spans[0].pos ==> dec(p).None?)
      && LeftmostGreedy(dec, n, spans[0].End(), spans[1..])
  }

  lemma {:induction false} GreedyOneEarlier(dec: Decoder, n: nat, from: nat, spans: seq<Span>)
    requires LeftmostGreedy(dec, n, from + 1, spans) && dec(from).None?
    ensures LeftmostGreedy(dec, n, from, spans)
  {}

  /** The scan is leftmost-greedy, and nothing else is. */
  lemma {:induction false} ScanIsGreedy(dec: Decoder, n: nat, from: nat, spans: seq<Span>)
    requires GoodDecoder(dec, n)
    ensures LeftmostGreedy(dec, n, from, spans) <==> spans == Scan(dec, n, from)
    decreases n - from, |spans|
  {
    if from >= n {
    } else if dec(from).Some? {
      var s := Span(from, dec(from).value);
      ScanIsGreedy(dec, n, s.End(), Scan(dec, n, s.End()));
      assert Scan(dec, n, from)[1..] == Scan(dec, n, s.End());
      if LeftmostGreedy(dec, n, from, spans) {
        ScanIsGreedy(dec, n, s.End(), spans[1..]);
        assert spans == [spans[0]] + spans[1..];
      }
    } else {
      ScanIsGreedy(dec, n, from + 1, Scan(dec, n, from + 1));
      GreedyOneEarlier(dec, n, from, Scan(dec, n, from + 1));
      if LeftmostGreedy(dec, n, from, spans) {
        assert LeftmostGreedy(dec, n, from + 1, spans);
        ScanIsGreedy(dec, n, from + 1, spans);
      }
    }
  }

  // ---- accepted and skipped bytes ------------------------------------------------------------

  /** Accepted spans are disjoint, in order, and inside the buffer. */
  ghost predicate Ordered(spans: seq<Span>, from: nat, n: nat) {
    && (forall i :: 0 <= i < |spans| ==> from <= spans[i].pos < spans[i].End() <= n)
    && (forall i, j :: 0 <= i < j < |spans| ==> spans[i].End() <= spans[j].pos)
  }

  lemma {:induction false} ScanOrdered(dec: Decoder, n: nat, pos: nat)
    requires GoodDecoder(dec, n)
    ensures Ordered(Scan(dec, n, pos), pos, n)
    decreases n - pos
  {
    if pos < n {
      if dec(pos).Some? {
        ScanOrdered(dec, n, Span(pos, dec(pos).value).End());
      } else {
        ScanOrdered(dec, n, pos + 1);
      }
    }
  }

  ghost predicate Covered(spans: seq<Span>, p: nat) {
    exists i :: 0 <= i < |spans| && spans[i].pos <= p < spans[i].End()
  }

  /** How many bytes before `upto` no accepted span covers. */
  ghost function Skipped(spans: seq<Span>, upto: nat): nat {
    if upto == 0 then 0 else Skipped(spans, upto - 1) + if Covered(spans, upto - 1) then 0 else 1
  }

  /** A skipped byte with no skipped byte right before it: the start of a maximal run. */
  ghost predicate RunStart(spans: seq<Span>, p: nat) {
    !Covered(spans, p) && (p == 0 || Covered(spans, p - 1))
  }

  /** How many maximal runs of skipped bytes start before `upto`. */
  ghost function Runs(spans: seq<Span>, upto: nat): nat {
    if upto == 0 then 0 else Runs(spans, upto - 1) + if RunStart(spans, upto - 1) then 1 else 0
  }

  /** The spans found so far end at or before pos. */
  ghost predicate Behind(spans: seq<Span>, pos: nat) {
    forall i :: 0 <= i < |spans| ==> spans[i].End() <= pos
  }

  /** A new span covers its own bytes and changes nothing before it. */
  lemma CoverOne(spans: seq<Span>, s: Span)
    requires Behind(spans, s.pos) && s.pos < s.End()
    ensures Behind(spans + [s], s.End())
    ensures forall p: nat :: p < s.pos ==> (Covered(spans + [s], p) <==> Covered(spans, p))
    ensures forall p: nat :: s.pos <= p < s.End() ==> Covered(spans + [s], p)
  {
    var t := spans + [s];
    assert t[|spans|] == s;
    forall p: nat ensures p < s.pos ==> (Covered(t, p) <==> Covered(spans, p)) {
      if Covered(spans, p) {
        var i :| 0 <= i < |spans| && spans[i].pos <= p < spans[i].End();
        assert t[i] == spans[i];
      }
    }
  }

  lemma {:induction false} CountsAgree(a: seq<Span>, b: seq<Span>, upto: nat)
    requires forall p: nat :: p < upto ==> (Covered(a, p) <==> Covered(b, p))
    ensures Skipped(a, upto) == Skipped(b, upto) && Runs(a, upto) == Runs(b, upto)
  {
    if upto > 0 { CountsAgree(a, b, upto - 1); }
  }

  lemma {:induction false} CoveredStretch(spans: seq<Span>, from: nat, upto: nat)
    requires from <= upto && forall p: nat :: from <= p < upto ==> Covered(spans, p)
    ensures Skipped(spans, upto) == Skipped(spans, from) && Runs(spans, upto) == Runs(spans, from)
    decreases upto
  {
    if from < upto { CoveredStretch(spans, from, upto - 1); }
  }

  lemma {:induction false} SkippedStretch(spans: seq<Span>, from: nat, upto: nat)
    requires from <= upto && forall p: nat :: from <= p < upto ==> !Covered(spans, p)
    ensures Skipped(spans, upto) == Skipped(spans, from) + (upto - from)
    ensures Runs(spans, upto)
            == Runs(spans, from) + if from < upto && (from == 0 || Covered(spans, from - 1)) then 1 else 0
    decreases upto
  {
    if from < upto { SkippedStretch(spans, from, upto - 1); }
  }

  /** Every byte is in exactly one accepted span or is skipped. */
  lemma {:induction false} Accounting(spans: seq<Span>, n: nat)
    requires Ordered(spans, 0, n)
    ensures SpanBytes(spans) + Skipped(spans, n) == n
  {
    if spans == [] {
      SkippedStretch(spans, 0, n);
    } else {
      var k := |spans| - 1;
      var init, s := spans[..k], spans[k];
      assert spans == init + [s];
      Accounting(init, s.pos);
      CoverOne(init, s);
      CountsAgree(init, spans, s.pos);
      CoveredStretch(spans, s.pos, s.End());
      SkippedStretch(spans, s.End(), n);
    }
  }

  /** How many gaps there are before, between and behind the spans. */
  function Gaps(spans: seq<Span>, n: nat): nat
    decreases |spans|
  {
    if spans == [] then if n > 0 then 1 else 0
    else
      var k := |spans| - 1;
      Gaps(spans[..k], spans[k].pos) + if spans[k].End() < n then 1 else 0
  }

  lemma {:induction false} RunsAreGaps(spans: seq<Span>, n: nat)
    requires Ordered(spans, 0, n)
    ensures Runs(spans, n) == Gaps(spans, n)
    decreases |spans|
  {
    if spans == [] {
      SkippedStretch(spans, 0, n);
    } else {
      var k := |spans| - 1;
      var init, s := spans[..k], spans[k];
      assert spans == init + [s];
      RunsAreGaps(init, s.pos);
      CoverOne(init, s);
      CountsAgree(init, spans, s.pos);
      CoveredStretch(spans, s.pos, s.End());
      SkippedStretch(spans, s.End(), n);
    }
  }

  datatype SegmentStats = SegmentStats(recordsOk: nat, corruptSkipped: nat, bytesSkipped: nat)

  /** Exact accounting: records accepted, maximal runs skipped, bytes skipped. */
  ghost function StatsOf(spans: seq<Span>, n: nat): SegmentStats {
    SegmentStats(|spans|, Runs(spans, n), Skipped(spans, n))
  }

  lemma {:induction false} NothingDecodes(dec: Decoder, n: nat, pos: nat)
    requires GoodDecoder(dec, n) && forall p: nat :: p >= pos ==> dec(p).None?
    ensures Scan(dec, n, pos) == []
    decreases n - pos
  {
    if pos < n { NothingDecodes(dec, n, pos + 1); }
  }

  /** Where the loop stands: everything before pos is accounted for. */
  ghost predicate Scanned(spans: seq<Span>, pos: nat, inSkipRun: bool, st: SegmentStats) {
    && Behind(spans, pos)
    && (inSkipRun <==> pos > 0 && !Covered(spans, pos - 1))
    && st == StatsOf(spans, pos)
  }

  lemma AcceptStep(spans: seq<Span>, pos: nat, inSkipRun: bool, st: SegmentStats, s: Span)
    requires Scanned(spans, pos, inSkipRun, st) && s.pos == pos < s.End()
    ensures Scanned(spans + [s], s.End(), false, st.(recordsOk := st.recordsOk + 1))
  {
    CoverOne(spans, s);
    CountsAgree(spans, spans + [s], pos);
    CoveredStretch(spans + [s], pos, s.End());
  }

  lemma SkipStep(spans: seq<Span>, pos: nat, inSkipRun: bool, st: SegmentStats)
    requires Scanned(spans, pos, inSkipRun, st)
    ensures Scanned(spans, pos + 1, true, st.(
              corruptSkipped := st.corruptSkipped + if inSkipRun then 0 else 1, bytesSkipped := st.bytesSkipped + 1))
  {
    SkippedStretch(spans, pos, pos + 1);
  }

  lemma FinishStep(spans: seq<Span>, pos: nat, inSkipRun: bool, st: SegmentStats, n: nat)
    requires Scanned(spans, pos, inSkipRun, st) && pos <= n
    ensures StatsOf(spans, n) == SegmentStats(
              st.recordsOk, st.corruptSkipped + if pos < n && !inSkipRun then 1 else 0, st.bytesSkipped + (n - pos))
  {
    SkippedStretch(spans, pos, n);
  }

  lemma StartStep()
    ensures Scanned([], 0, false, SegmentStats(0, 0, 0))
  {}

  lemma ScanAccept(dec: Decoder, n: nat, spans: seq<Span>, pos: nat)
    requires GoodDecoder(dec, n) && pos < n && dec(pos).Some?
    ensures var s := Span(pos, dec(pos).value); spans + [s] + Scan(dec, n, s.End()) == spans + Scan(dec, n, pos)
  {
    var s := Span(pos, dec(pos).value);
    assert Scan(dec, n, pos) == [s] + Scan(dec, n, s.End());
  }

  /** The loop over one buffer of n bytes, given what decodes at each position. */
  method ScanBuffer(dec: Decoder, n: nat) returns (spans: seq<Span>, stats: SegmentStats)
    requires GoodDecoder(dec, n)
    requires forall p: nat :: p + R.HEADER_SIZE > n ==> dec(p).None?
    ensures spans == Scan(dec, n, 0)
    ensures stats == StatsOf(spans, n)
  {
    spans := [];
    stats := SegmentStats(0, 0, 0);
    var pos := 0;
    var inSkipRun := false;
    ghost var all := Scan(dec, n, pos);
    assert spans + all == all;
    StartStep();
    while pos + R.HEADER_SIZE <= n
      invariant 0 <= pos <= n
      invariant spans + Scan(dec, n, pos) == all
      invariant Scanned(spans, pos, inSkipRun, stats)
      decreases n - pos
    {
      var r := dec(pos);
      if r.Some? {
        var s := Span(pos, r.value);
        AcceptStep(spans, pos, inSkipRun, stats, s);
        ScanAccept(dec, n, spans, pos);
        spans := spans + [s];
        stats := stats.(recordsOk := stats.recordsOk + 1);
        pos := pos + r.value.header.recordLength;
        inSkipRun := false;
      } else {
        SkipStep(spans, pos, inSkipRun, stats);
        if !inSkipRun {
          stats := stats.(corruptSkipped := stats.corruptSkipped + 1);
          inSkipRun := true;
        }
        pos := pos + 1;
        stats := stats.(bytesSkipped := stats.bytesSkipped + 1);
      }
    }
    FinishStep(spans, pos, inSkipRun, stats, n);
    NothingDecodes(dec, n, pos);
    assert spans == all;
    if pos < n {
      if !inSkipRun {
        stats := stats.(corruptSkipped := stats.corruptSkipped + 1);
      }
      stats := stats.(bytesSkipped := stats.bytesSkipped + (n - pos));
    }
  }

  /** The spans of a whole segment file. */
  function SegmentSpans(c: Codec, buf: seq<byte>): seq<Span>
    requires GoodCodec(c)
  {
    DecoderOfIsGood(c, buf);
    Scan(DecoderOf(c, buf), |buf|, 0)
  }

  method ScanSegment(c: Codec, buf: seq<byte>) returns (spans: seq<Span>, stats: SegmentStats)
    requires GoodCodec(c)
    ensures spans == SegmentSpans(c, buf)
    ensures stats == StatsOf(spans, |buf|)
    ensures SpanBytes(spans) + stats.bytesSkipped == |buf| && stats.recordsOk == |spans|
    ensures stats.corruptSkipped == Gaps(spans, |buf|)
  {
    DecoderOfIsGood(c, buf);
    spans, stats := ScanBuffer(DecoderOf(c, buf), |buf|);
    ScanOrdered(DecoderOf(c, buf), |buf|, 0);
    Accounting(spans, |buf|);
    RunsAreGaps(spans, |buf|);
  }
}

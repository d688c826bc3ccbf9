/** Loading a log directory and replaying it in time order. */
module WalReading {
  import opened Bytes
  import opened Sorting
  import opened ReplayIndexing
  import opened WalScan
  import opened WalDamage
  import opened WalWriting
  import R = RecordCodec

  datatype SegmentFile = SegmentFile(id: u32, name: string)

  // ---- orders -------------------------------------------------------------------------

  predicate StringLess(a: string, b: string) {
    b != [] && (a == [] || a[0] < b[0] || (a[0] == b[0] && StringLess(a[1..], b[1..])))
  }

  predicate SegmentLess(a: SegmentFile, b: SegmentFile) {
    a.id < b.id || (a.id == b.id && StringLess(a.name, b.name))
  }

  lemma {:induction false} StringLessTotal(a: string, b: string)
    ensures !(StringLess(a, b) && StringLess(b, a))
    ensures a != b ==> StringLess(a, b) || StringLess(b, a)
  {
    if a != [] && b != [] {
      assert a == [a[0]] + a[1..] && b == [b[0]] + b[1..];
      StringLessTotal(a[1..], b[1..]);
    }
  }

  /** Lexicographic order: a is cut off where b goes on, or has the lesser character where they first differ. */
  lemma {:induction false} StringLessExactly(a: string, b: string)
    ensures StringLess(a, b) <==>
              exists k :: 0 <= k <= |a| && k < |b| && a[..k] == b[..k] && (k < |a| ==> a[k] < b[k])
  {
    if a == [] {
      if b != [] { assert a[..0] == b[..0]; }
    } else if b != [] {
      StringLessExactly(a[1..], b[1..]);
      if StringLess(a, b) {
        if a[0] == b[0] {
          var k :| 0 <= k <= |a[1..]| && k < |b[1..]| && a[1..][..k] == b[1..][..k]
                   && (k < |a[1..]| ==> a[1..][k] < b[1..][k]);
          assert a[..k + 1] == [a[0]] + a[1..][..k] && b[..k + 1] == [b[0]] + b[1..][..k];
        } else {
          assert a[..0] == b[..0];
        }
      }
      if k :| 0 <= k <= |a| && k < |b| && a[..k] == b[..k] && (k < |a| ==> a[k] < b[k]) {
        if k > 0 {
          assert a[..k][0] == b[..k][0];
          assert a[1..][..k - 1] == a[..k][1..] && b[1..][..k - 1] == b[..k][1..];
        }
      }
    }
  }

  lemma {:induction false} StringLessSplits(a: string, b: string, c: string)
    requires StringLess(a, c)
    ensures StringLess(a, b) || StringLess(b, c)
  {
    if a != [] && b != [] && a[0] == c[0] == b[0] { StringLessSplits(a[1..], b[1..], c[1..]); }
  }

  lemma SegmentLessIsWeakOrder()
    ensures WeakOrder(SegmentLess)
  {
    forall a, b | SegmentLess(a, b) ensures !SegmentLess(b, a) { StringLessTotal(a.name, b.name); }
    forall a, b, c | SegmentLess(a, c) ensures SegmentLess(a, b) || SegmentLess(b, c) {
      if a.id == b.id == c.id { StringLessSplits(a.name, b.name, c.name); }
    }
  }

  predicate ReplaysBefore(a: ReplayRecord, b: ReplayRecord) {
    if a.header.timestampNs != b.header.timestampNs then a.header.timestampNs < b.header.timestampNs
    else a.header.sequence < b.header.sequence
  }

  lemma ReplaysBeforeIsWeakOrder()
    ensures WeakOrder(ReplaysBefore)
  {}

  /** The records of one time and sequence number, in order. */
  function SameKey(records: seq<ReplayRecord>, timestampNs: u64, sequence: u64): seq<ReplayRecord> {
    if records == [] then []
    else
      var h := records[0].header;
      (if h.timestampNs == timestampNs && h.sequence == sequence then [records[0]] else [])
      + SameKey(records[1..], timestampNs, sequence)
  }

  /**
   * replayed is scanned in replay order: by time, at equal times by sequence number, and records equal in both as they
   * were scanned.
   */
  ghost predicate InReplayOrder(replayed: seq<ReplayRecord>, scanned: seq<ReplayRecord>) {
    && multiset(replayed) == multiset(scanned)
    && (forall i, j :: 0 <= i < j < |replayed| ==>
          replayed[i].header.timestampNs < replayed[j].header.timestampNs
          || (replayed[i].header.timestampNs == replayed[j].header.timestampNs
              && replayed[i].header.sequence <= replayed[j].header.sequence))
    && forall t: u64, q: u64 :: SameKey(replayed, t, q) == SameKey(scanned, t, q)
  }

  lemma {:induction false} ClassIsSameKey(records: seq<ReplayRecord>, x: ReplayRecord)
    ensures ClassOf(ReplaysBefore, x, records) == SameKey(records, x.header.timestampNs, x.header.sequence)
  {
    if records != [] { ClassIsSameKey(records[1..], x); }
  }

  lemma SortedInReplayOrder(scanned: seq<ReplayRecord>)
    ensures InReplayOrder(StableSort(ReplaysBefore, scanned), scanned)
    ensures Sorted(ReplaysBefore, StableSort(ReplaysBefore, scanned))
  {
    var replayed := StableSort(ReplaysBefore, scanned);
    ReplaysBeforeIsWeakOrder();
    SortIsStable(ReplaysBefore, scanned);
    forall t: u64, q: u64 ensures SameKey(replayed, t, q) == SameKey(scanned, t, q) {
      var x := ReplayRecord(R.RecordHeader(0, t, 0, q, 0, 0), []);
      ClassIsSameKey(replayed, x);
      ClassIsSameKey(scanned, x);
    }
    forall i, j | 0 <= i < j < |replayed|
      ensures replayed[i].header.timestampNs < replayed[j].header.timestampNs
              || (replayed[i].header.timestampNs == replayed[j].header.timestampNs
                  && replayed[i].header.sequence <= replayed[j].header.sequence)
    {
      assert !ReplaysBefore(replayed[j], replayed[i]);
    }
  }

  function RecordTime(r: ReplayRecord): int {
    r.header.timestampNs
  }

  // ---- specification of a load -----------------------------------------------------------

  datatype ReplayStats = ReplayStats(recordsOk: nat, corruptSkipped: nat, bytesSkipped: nat, segmentsRead: nat)

  datatype Loaded = Loaded(records: seq<ReplayRecord>, entries: seq<IndexEntry>, stats: ReplayStats)

  function Records(spans: seq<Span>): (records: seq<ReplayRecord>)
    ensures |records| == |spans|
  {
    seq(|spans|, i requires 0 <= i < |spans| => spans[i].rec)
  }

  ghost function AddSegment(c: Codec, l: Loaded, id: u32, content: seq<byte>): Loaded
    requires GoodCodec(c)
  {
    var spans := SegmentSpans(c, content);
    var st := StatsOf(spans, |content|);
    Loaded(l.records + Records(spans), l.entries + EntriesOfSpans(id, spans),
           ReplayStats(l.stats.recordsOk + st.recordsOk, l.stats.corruptSkipped + st.corruptSkipped,
                       l.stats.bytesSkipped + st.bytesSkipped, l.stats.segmentsRead + 1))
  }

  /** Every segment scanned in order, before sorting. */
  ghost function ScanAll(c: Codec, disk: Disk, segs: seq<SegmentFile>, k: nat): Loaded
    requires GoodCodec(c) && k <= |segs| && forall i :: 0 <= i < |segs| ==> segs[i].name in disk
  {
    if k == 0 then Loaded([], [], ReplayStats(0, 0, 0, 0))
    else AddSegment(c, ScanAll(c, disk, segs, k - 1), segs[k - 1].id, disk[segs[k - 1].name])
  }

  /** The bytes in the first k segments. */
  function BytesIn(disk: Disk, segs: seq<SegmentFile>, k: nat): nat
    requires k <= |segs| && forall i :: 0 <= i < |segs| ==> segs[i].name in disk
  {
    if k == 0 then 0 else BytesIn(disk, segs, k - 1) + |disk[segs[k - 1].name]|
  }

  /** The gaps in them. */
  function GapsIn(c: Codec, disk: Disk, segs: seq<SegmentFile>, k: nat): nat
    requires GoodCodec(c) && k <= |segs| && forall i :: 0 <= i < |segs| ==> segs[i].name in disk
  {
    if k == 0 then 0
    else
      var content := disk[segs[k - 1].name];
      GapsIn(c, disk, segs, k - 1) + Gaps(SegmentSpans(c, content), |content|)
  }

  function RecordBytes(records: seq<ReplayRecord>): nat {
    if records == [] then 0
    else RecordBytes(records[..|records| - 1]) + records[|records| - 1].header.recordLength
  }

  lemma {:induction false} RecordBytesOfSpans(records: seq<ReplayRecord>, spans: seq<Span>)
    ensures RecordBytes(records + Records(spans)) == RecordBytes(records) + SpanBytes(spans)
    decreases |spans|
  {
    if spans == [] {
      assert records + Records(spans) == records;
    } else {
      var k, all := |spans| - 1, records + Records(spans);
      RecordBytesOfSpans(records, spans[..k]);
      assert all[..|all| - 1] == records + Records(spans[..k]) && all[|all| - 1] == spans[k].rec;
    }
  }

  /**
   * A load accounts for every byte of every segment: it is in a record or skipped, and each gap is one corruption.
   */
  lemma {:induction false} LoadAccounting(c: Codec, disk: Disk, segs: seq<SegmentFile>, k: nat)
    requires GoodCodec(c) && k <= |segs| && forall i :: 0 <= i < |segs| ==> segs[i].name in disk
    ensures var l := ScanAll(c, disk, segs, k);
            && l.stats.recordsOk == |l.records| == |l.entries| && l.stats.segmentsRead == k
            && RecordBytes(l.records) + l.stats.bytesSkipped == BytesIn(disk, segs, k)
            && l.stats.corruptSkipped == GapsIn(c, disk, segs, k)
  {
    if k > 0 {
      LoadAccounting(c, disk, segs, k - 1);
      SegmentAccounting(c, ScanAll(c, disk, segs, k - 1), segs[k - 1].id, disk[segs[k - 1].name]);
    }
  }

  lemma SegmentAccounting(c: Codec, l: Loaded, id: u32, content: seq<byte>)
    requires GoodCodec(c)
    ensures var t := AddSegment(c, l, id, content);
            && |t.records| - |l.records| == |t.entries| - |l.entries| == t.stats.recordsOk - l.stats.recordsOk
            && RecordBytes(t.records) + t.stats.bytesSkipped
               == RecordBytes(l.records) + l.stats.bytesSkipped + |content|
            && t.stats.corruptSkipped == l.stats.corruptSkipped + Gaps(SegmentSpans(c, content), |content|)
            && t.stats.segmentsRead == l.stats.segmentsRead + 1
  {
    var spans := SegmentSpans(c, content);
    SpansAccounted(c, content);
    RecordBytesOfSpans(l.records, spans);
  }

  lemma SpansAccounted(c: Codec, content: seq<byte>)
    requires GoodCodec(c)
    ensures var spans, st := SegmentSpans(c, content), StatsOf(SegmentSpans(c, content), |content|);
            && st.recordsOk == |spans| && SpanBytes(spans) + st.bytesSkipped == |content|
            && st.corruptSkipped == Gaps(spans, |content|)
  {
    DecoderOfIsGood(c, content);
    ScanOrdered(DecoderOf(c, content), |content|, 0);
    Accounting(SegmentSpans(c, content), |content|);
    RunsAreGaps(SegmentSpans(c, content), |content|);
  }

  /** The segment files of a directory in ascending (id, name) order. */
  ghost predicate IsListing(c: Codec, disk: Disk, segs: seq<SegmentFile>) {
    && (forall i :: 0 <= i < |segs| ==> segs[i].name in disk && segs[i].id == c.segmentId(segs[i].name) != 0)
    && (forall i, j :: 0 <= i < j < |segs| ==> SegmentLess(segs[i], segs[j]))
    && (forall name :: name in disk && c.segmentId(name) != 0 ==> SegmentFile(c.segmentId(name), name) in segs)
  }

  /** Records and index entries are scanned in step. */
  lemma {:induction false} TimesInStep(c: Codec, disk: Disk, segs: seq<SegmentFile>, k: nat)
    requires GoodCodec(c) && k <= |segs| && forall i :: 0 <= i < |segs| ==> segs[i].name in disk
    ensures var l := ScanAll(c, disk, segs, k); Keys(RecordTime, l.records) == Times(l.entries)
  {
    if k > 0 {
      TimesInStep(c, disk, segs, k - 1);
      var prev := ScanAll(c, disk, segs, k - 1);
      var spans := SegmentSpans(c, disk[segs[k - 1].name]);
      StepTimes(prev.records, prev.entries, segs[k - 1].id, spans);
    }
  }

  lemma StepTimes(records: seq<ReplayRecord>, entries: seq<IndexEntry>, id: u32, spans: seq<Span>)
    requires Keys(RecordTime, records) == Times(entries)
    ensures Keys(RecordTime, records + Records(spans)) == Times(entries + EntriesOfSpans(id, spans))
  {
    var r, e := records + Records(spans), entries + EntriesOfSpans(id, spans);
    assert |records| == |Keys(RecordTime, records)| == |Times(entries)| == |entries|;
    forall i | 0 <= i < |r| ensures RecordTime(r[i]) == TimeOf(e[i]) {
      if i < |records| {
        assert Keys(RecordTime, records)[i] == Times(entries)[i];
      }
    }
  }

  /** After both sorts, by different keys, records and index still agree on the timestamp at every position. */
  lemma SortsAgree(records: seq<ReplayRecord>, entries: seq<IndexEntry>)
    requires Keys(RecordTime, records) == Times(entries)
    ensures Keys(RecordTime, StableSort(ReplaysBefore, records)) == Times(StableSort(Earlier, entries))
    ensures Ascending(Times(StableSort(Earlier, entries)))
  {
    var r, e := StableSort(ReplaysBefore, records), StableSort(Earlier, entries);
    ReplaysBeforeIsWeakOrder();
    EarlierIsWeakOrder();
    SortIsStable(ReplaysBefore, records);
    SortIsStable(Earlier, entries);
    SortKeys(ReplaysBefore, RecordTime, records);
    SortKeys(Earlier, TimeOf, entries);
    SortedIsAscending(e);
    assert Ascending(Keys(RecordTime, r)) by {
      forall i, j | 0 <= i < j < |r| ensures RecordTime(r[i]) <= RecordTime(r[j]) {
        assert !ReplaysBefore(r[j], r[i]);
      }
    }
    AscendingUnique(Keys(RecordTime, r), Times(e));
  }

  // ---- the class -------------------------------------------------------------------------

  class WalReader {
    const codec: Codec
    const index: ReplayIndex
    var records: seq<ReplayRecord>
    var stats: ReplayStats
    ghost var segments: seq<SegmentFile>

    /** What every load establishes, on any directory contents. */
    ghost predicate Valid()
      reads this, index
    {
      && GoodCodec(codec) && index.Valid() && index.sorted
      && Keys(RecordTime, records) == Times(index.entries)
      && (forall i, j :: 0 <= i < j < |records| ==>
            records[i].header.timestampNs < records[j].header.timestampNs
            || (records[i].header.timestampNs == records[j].header.timestampNs
                && records[i].header.sequence <= records[j].header.sequence))
    }

    constructor (codec: Codec, disk: Disk)
      requires GoodCodec(codec)
      ensures Valid() && fresh(index) && this.codec == codec
      ensures IsListing(codec, disk, segments)
      ensures var l := ScanAll(codec, disk, segments, |segments|);
              && records == StableSort(ReplaysBefore, l.records)
              && multiset(records) == multiset(l.records)
              && (forall i, j :: 0 <= i < j < |records| ==>
                    records[i].header.timestampNs < records[j].header.timestampNs
                    || (records[i].header.timestampNs == records[j].header.timestampNs
                        && records[i].header.sequence <= records[j].header.sequence))
              && (forall t: u64, q: u64 :: SameKey(records, t, q) == SameKey(l.records, t, q))
              && index.entries == StableSort(Earlier, l.entries)
              && stats == l.stats
    {
      this.codec := codec;
      index := new ReplayIndex();
      records := [];
      stats := ReplayStats(0, 0, 0, 0);
      segments := [];
      new;
      Load(disk);
    }

    method Load(disk: Disk)
      requires GoodCodec(codec) && index.Valid()
      modifies this, index
      ensures Valid()
      ensures IsListing(codec, disk, segments)
      ensures var l := ScanAll(codec, disk, segments, |segments|);
              && records == StableSort(ReplaysBefore, l.records)
              && multiset(records) == multiset(l.records)
              && (forall i, j :: 0 <= i < j < |records| ==>
                    records[i].header.timestampNs < records[j].header.timestampNs
                    || (records[i].header.timestampNs == records[j].header.timestampNs
                        && records[i].header.sequence <= records[j].header.sequence))
              && (forall t: u64, q: u64 :: SameKey(records, t, q) == SameKey(l.records, t, q))
              && index.entries == StableSort(Earlier, l.entries)
              && stats == l.stats
    {
      records := [];
      index.Clear();
      stats := ReplayStats(0, 0, 0, 0);
      var segs := ListSegments(codec, disk);
      segments := segs;
      for k := 0 to |segs|
        invariant segments == segs && index.Valid()
        invariant Loaded(records, index.entries, stats) == ScanAll(codec, disk, segs, k)
      {
        LoadSegment(segs[k].id, disk[segs[k].name]);
      }
      TimesInStep(codec, disk, segs, |segs|);
      SortsAgree(records, index.entries);
      SortedInReplayOrder(records);
      records := StableSort(ReplaysBefore, records);
      index.Finalize();
    }

    method LoadSegment(id: u32, content: seq<byte>)
      requires GoodCodec(codec) && index.Valid()
      modifies this`records, this`stats, index
      ensures index.Valid()
      ensures Loaded(records, index.entries, stats)
              == AddSegment(codec, old(Loaded(records, index.entries, stats)), id, content)
    {
      var spans, st := ScanSegment(codec, content);
      ghost var before, beforeRecords := index.entries, records;
      for i := 0 to |spans|
        invariant index.Valid() && stats == old(stats)
        invariant records == beforeRecords + Records(spans[..i])
        invariant index.entries == before + EntriesOfSpans(id, spans[..i])
      {
        var h := spans[i].rec.header;
        assert spans[..i + 1] == spans[..i] + [spans[i]];
        assert Records(spans[..i + 1]) == Records(spans[..i]) + [spans[i].rec];
        assert EntriesOfSpans(id, spans[..i + 1])
            == EntriesOfSpans(id, spans[..i]) + [IndexEntry(h.timestampNs, id, spans[i].pos, h.recordLength)];
        index.Add(h.timestampNs, id, spans[i].pos, h.recordLength);
        records := records + [spans[i].rec];
      }
      assert spans[..|spans|] == spans;
      stats := ReplayStats(stats.recordsOk + st.recordsOk, stats.corruptSkipped + st.corruptSkipped,
                           stats.bytesSkipped + st.bytesSkipped, stats.segmentsRead + 1);
    }

    /** Deliver the records from startNs on; the result is what the callback receives, in order. */
    method Replay(startNs: u64) returns (delivered: seq<ReplayRecord>)
      requires Valid()
      ensures |delivered| == |records| - LowerBound(Times(index.entries), startNs)
      ensures delivered == From(records, startNs)
      ensures |delivered| <= |records| && delivered == records[|records| - |delivered|..]
      ensures forall i :: 0 <= i < |records| ==>
                (i < |records| - |delivered| <==> records[i].header.timestampNs < startNs)
    {
      LowerBoundSplits(Times(index.entries), startNs);
      FromIsSuffix(records, startNs);
      assert forall i :: 0 <= i < |records| ==> Keys(RecordTime, records)[i] == records[i].header.timestampNs;
      SortedIsAscending(index.entries);
      delivered := DeliverFrom(records, startNs);
    }
  }

  method Deliver(records: seq<ReplayRecord>, first: nat) returns (delivered: seq<ReplayRecord>)
    requires first <= |records|
    ensures delivered == records[first..]
  {
    delivered := [];
    for k := first to |records|
      invariant delivered == records[first..k]
    {
      delivered := delivered + [records[k]];
    }
  }

  /** The delivery loop, from the first record at or after t. */
  method DeliverFrom(records: seq<ReplayRecord>, t: u64) returns (delivered: seq<ReplayRecord>)
    requires Ascending(Keys(RecordTime, records))
    ensures |delivered| == |records| - LowerBound(Keys(RecordTime, records), t)
    ensures delivered == From(records, t)
  {
    delivered := [];
    var first := LowerBound(Keys(RecordTime, records), t);
    delivered := Deliver(records, first);
    FromIsSuffix(records, t);
  }

  /** Exactly the records at or after t, in order. */
  function From(records: seq<ReplayRecord>, t: u64): seq<ReplayRecord> {
    if records == [] then []
    else (if records[0].header.timestampNs >= t then [records[0]] else []) + From(records[1..], t)
  }

  lemma {:induction false} FromIsSuffix(records: seq<ReplayRecord>, t: u64)
    requires Ascending(Keys(RecordTime, records))
    ensures From(records, t) == records[LowerBound(Keys(RecordTime, records), t)..]
  {
    if records != [] {
      var keys := Keys(RecordTime, records);
      assert keys[1..] == Keys(RecordTime, records[1..]);
      FromIsSuffix(records[1..], t);
      if keys[0] >= t {
        AllFrom(records[1..], t);
        assert records == [records[0]] + records[1..];
      }
    }
  }

  lemma {:induction false} AllFrom(records: seq<ReplayRecord>, t: u64)
    requires forall i :: 0 <= i < |records| ==> records[i].header.timestampNs >= t
    ensures From(records, t) == records
  {
    if records != [] {
      AllFrom(records[1..], t);
      assert records == [records[0]] + records[1..];
    }
  }

  /** The segment files found so far, in whatever order the directory yields them. */
  ghost predicate Found(c: Codec, seen: set<string>, segs: seq<SegmentFile>) {
    && (forall s :: s in segs ==> s.name in seen && s.id == c.segmentId(s.name) != 0)
    && (forall i, j :: 0 <= i < j < |segs| ==> segs[i].name != segs[j].name)
    && (forall name :: name in seen && c.segmentId(name) != 0 ==> SegmentFile(c.segmentId(name), name) in segs)
  }

  lemma FoundMore(c: Codec, seen: set<string>, segs: seq<SegmentFile>, name: string)
    requires Found(c, seen, segs) && name !in seen
    ensures var id := c.segmentId(name);
            Found(c, seen + {name}, if id != 0 then segs + [SegmentFile(id, name)] else segs)
  {
    assert forall i :: 0 <= i < |segs| ==> segs[i] in segs;
  }

  method CollectSegments(c: Codec, disk: Disk) returns (segs: seq<SegmentFile>)
    ensures Found(c, disk.Keys, segs)
  {
    var rest := disk.Keys;
    segs := [];
    while rest != {}
      invariant rest <= disk.Keys
      invariant Found(c, disk.Keys - rest, segs)
      decreases rest
    {
      var name :| name in rest;
      FoundMore(c, disk.Keys - rest, segs, name);
      assert disk.Keys - rest + {name} == disk.Keys - (rest - {name});
      rest := rest - {name};
      var id := c.segmentId(name);
      if id != 0 {
        segs := segs + [SegmentFile(id, name)];
      }
    }
    assert disk.Keys - rest == disk.Keys;
  }

  /** Collect the segment files, then sort. */
  method ListSegments(c: Codec, disk: Disk) returns (segs: seq<SegmentFile>)
    ensures IsListing(c, disk, segs)
    ensures forall i, j :: 0 <= i < j < |segs| ==>
              segs[i].id < segs[j].id || (segs[i].id == segs[j].id && StringLess(segs[i].name, segs[j].name))
  {
    var found := CollectSegments(c, disk);
    SegmentLessIsWeakOrder();
    SortIsStable(SegmentLess, found);
    segs := StableSort(SegmentLess, found);
    SortStrict(found, segs);
    assert forall i :: 0 <= i < |segs| ==> segs[i] in found;
  }

  lemma {:induction false} OnceInBag(segs: seq<SegmentFile>, x: SegmentFile)
    requires forall i, j :: 0 <= i < j < |segs| ==> segs[i].name != segs[j].name
    ensures multiset(segs)[x] <= 1
  {
    if segs != [] {
      var k := |segs| - 1;
      assert segs == segs[..k] + [segs[k]];
      OnceInBag(segs[..k], x);
      if x == segs[k] { assert forall i :: 0 <= i < k ==> segs[..k][i] != x; }
    }
  }

  lemma TwiceInBag(s: seq<SegmentFile>, i: nat, j: nat)
    requires i < j < |s| && s[i] == s[j]
    ensures multiset(s)[s[i]] >= 2
  {
    assert s == s[..j] + ([s[j]] + s[j + 1..]);
    assert s[..j][i] == s[i];
  }

  /** Distinct names sort strictly. */
  lemma SortStrict(segs: seq<SegmentFile>, sorted: seq<SegmentFile>)
    requires Sorted(SegmentLess, sorted) && multiset(sorted) == multiset(segs)
    requires forall i, j :: 0 <= i < j < |segs| ==> segs[i].name != segs[j].name
    ensures forall i, j :: 0 <= i < j < |sorted| ==> SegmentLess(sorted[i], sorted[j])
    ensures forall s :: s in sorted <==> s in segs
  {
    forall s ensures s in sorted <==> s in segs {
      assert s in sorted <==> s in multiset(sorted);
    }
    forall i, j | 0 <= i < j < |sorted| ensures SegmentLess(sorted[i], sorted[j]) {
      StringLessTotal(sorted[i].name, sorted[j].name);
      assert sorted[i] in segs && sorted[j] in segs;
      if sorted[i] == sorted[j] {
        TwiceInBag(sorted, i, j);
        OnceInBag(segs, sorted[i]);
      }
      assert !SegmentLess(sorted[j], sorted[i]);
    }
  }

  // ---- the round trip --------------------------------------------------------------------

  /** The directory holds exactly the segments of the layout under their own names. */
  ghost predicate Holds(c: Codec, disk: Disk, l: Layout) {
    l.Then? ==> Count(l) < WRAP && c.filename(Count(l)) in disk
                && disk[c.filename(Count(l))] == EncodeAll(c, l.last) && Holds(c, disk, l.init)
  }

  lemma DistinctNames(c: Codec, a: u32, b: u32)
    requires GoodCodec(c) && a != b
    ensures c.filename(a) != c.filename(b)
  {
    assert c.segmentId(c.filename(a)) == a && c.segmentId(c.filename(b)) == b;
  }

  lemma {:induction false} HoldsAfter(c: Codec, disk: Disk, l: Layout, k: u32, content: seq<byte>)
    requires GoodCodec(c) && Holds(c, disk, l) && Count(l) < k
    ensures Holds(c, disk[c.filename(k) := content], l)
  {
    if l.Then? {
      DistinctNames(c, Count(l), k);
      HoldsAfter(c, disk, l.init, k, content);
    }
  }

  lemma {:induction false} DiskOfHolds(c: Codec, l: Layout)
    requires GoodCodec(c) && Count(l) < WRAP
    ensures Holds(c, DiskOf(c, l), l)
    ensures forall name :: name in DiskOf(c, l) <==>
              1 <= c.segmentId(name) <= Count(l) && name == c.filename(c.segmentId(name))
  {
    if l.Then? {
      var k := Count(l);
      DiskOfHolds(c, l.init);
      HoldsAfter(c, DiskOf(c, l.init), l.init, k, EncodeAll(c, l.last));
      assert c.segmentId(c.filename(k)) == k;
    }
  }

  /** The listing of a layout's directory is its ids from 1 up, each under its own name. */
  lemma {:induction false} ListingPrefix(c: Codec, l: Layout, segs: seq<SegmentFile>, k: nat)
    requires GoodCodec(c) && Count(l) < WRAP && IsListing(c, DiskOf(c, l), segs) && k <= |segs|
    ensures k <= Count(l) && forall i :: 0 <= i < k ==> segs[i] == SegmentFile(i + 1, c.filename(i + 1))
  {
    if k > 0 {
      ListingPrefix(c, l, segs, k - 1);
      DiskOfHolds(c, l);
      var s := segs[k - 1];
      assert s.id >= k by {
        if k > 1 { assert SegmentLess(segs[k - 2], s); StringLessTotal(s.name, s.name); }
      }
      var j := FindId(c, l, segs, k);
      if j > k - 1 { assert SegmentLess(s, segs[j]); }
    }
  }

  lemma FindId(c: Codec, l: Layout, segs: seq<SegmentFile>, k: nat) returns (j: nat)
    requires GoodCodec(c) && Count(l) < WRAP && IsListing(c, DiskOf(c, l), segs) && 1 <= k <= Count(l)
    ensures j < |segs| && segs[j] == SegmentFile(k, c.filename(k))
  {
    DiskOfHolds(c, l);
    assert c.segmentId(c.filename(k)) == k;
    j :| 0 <= j < |segs| && segs[j] == SegmentFile(k, c.filename(k));
  }

  lemma ListingOfLayout(c: Codec, l: Layout, segs: seq<SegmentFile>)
    requires GoodCodec(c) && Count(l) < WRAP && IsListing(c, DiskOf(c, l), segs)
    ensures |segs| == Count(l) && forall i :: 0 <= i < |segs| ==> segs[i] == SegmentFile(i + 1, c.filename(i + 1))
  {
    ListingPrefix(c, l, segs, |segs|);
    if l.Then? { var j := FindId(c, l, segs, Count(l)); }
  }

  /** What a record is replayed as, for each record. */
  function Replays(c: Codec, rs: seq<R.Record>): (r: seq<ReplayRecord>)
    ensures |r| == |rs|
  {
    seq(|rs|, i requires 0 <= i < |rs| => c.replay(rs[i]))
  }

  lemma {:induction false} RecordsOfTiles(c: Codec, rs: seq<R.Record>, at: nat)
    ensures Records(Tiles(c, rs, at)) == Replays(c, rs)
  {
    if rs != [] {
      RecordsOfTiles(c, rs[1..], at + |c.encode(rs[0])|);
      var t := Tiles(c, rs, at);
      assert Records(t) == [t[0].rec] + Records(t[1..]);
      assert Replays(c, rs) == [c.replay(rs[0])] + Replays(c, rs[1..]);
    }
  }

  /** A load with one clean segment more. */
  function OneMore(c: Codec, prev: Loaded, id: u32, rs: seq<R.Record>): Loaded {
    Loaded(prev.records + Replays(c, rs), prev.entries + EntriesOfSpans(id, Tiles(c, rs, 0)),
           ReplayStats(prev.stats.recordsOk + |rs|, prev.stats.corruptSkipped, prev.stats.bytesSkipped,
                       prev.stats.segmentsRead + 1))
  }

  lemma AddClean(c: Codec, prev: Loaded, id: u32, rs: seq<R.Record>)
    requires GoodCodec(c) && AllFit(rs)
    ensures AddSegment(c, prev, id, EncodeAll(c, rs)) == OneMore(c, prev, id, rs)
  {
    CleanSegment(c, rs);
    RecordsOfTiles(c, rs, 0);
  }

  lemma ScanOneMore(c: Codec, disk: Disk, segs: seq<SegmentFile>, k: u32, rs: seq<R.Record>)
    requires GoodCodec(c) && AllFit(rs) && 1 <= k <= |segs| && forall i :: 0 <= i < |segs| ==> segs[i].name in disk
    requires segs[k - 1] == SegmentFile(k, c.filename(k)) && disk[c.filename(k)] == EncodeAll(c, rs)
    ensures ScanAll(c, disk, segs, k) == OneMore(c, ScanAll(c, disk, segs, k - 1), k, rs)
  {
    AddClean(c, ScanAll(c, disk, segs, k - 1), k, rs);
  }

  lemma ReplaysAppend(c: Codec, a: seq<R.Record>, b: seq<R.Record>)
    ensures Replays(c, a + b) == Replays(c, a) + Replays(c, b)
  {}

  /** What a layout says of a load, and how one more segment extends it. */
  function LoadedLayout(c: Codec, l: Layout): Loaded {
    Loaded(Replays(c, Flat(l)), EntriesOf(c, l), ReplayStats(|Flat(l)|, 0, 0, Count(l)))
  }

  lemma LayoutStep(c: Codec, l: Layout)
    requires l.Then?
    ensures LoadedLayout(c, l) == OneMore(c, LoadedLayout(c, l.init), IdOf(l), l.last)
  {
    ReplaysAppend(c, Flat(l.init), l.last);
  }

  lemma ScanLast(c: Codec, disk: Disk, l: Layout, segs: seq<SegmentFile>, k: u32)
    requires GoodCodec(c) && l.Then? && AllFit(l.last) && k == IdOf(l) && 1 <= k <= |segs|
    requires forall i :: 0 <= i < |segs| ==> segs[i].name in disk
    requires segs[k - 1] == SegmentFile(k, c.filename(k)) && disk[c.filename(k)] == EncodeAll(c, l.last)
    requires ScanAll(c, disk, segs, k - 1) == LoadedLayout(c, l.init)
    ensures ScanAll(c, disk, segs, k) == LoadedLayout(c, l)
  {
    ScanOneMore(c, disk, segs, k, l.last);
    LayoutStep(c, l);
  }

  /** Scanning a laid-out log gives back its records in order, its index entry by entry, and skips nothing. */
  lemma {:induction false} ScanLayout(c: Codec, disk: Disk, l: Layout, limit: nat, segs: seq<SegmentFile>)
    requires GoodCodec(c) && Holds(c, disk, l) && GoodSegments(c, l, limit)
    requires Count(l) <= |segs| && Count(l) < WRAP && forall i :: 0 <= i < |segs| ==> segs[i].name in disk
    requires forall i :: 0 <= i < Count(l) ==> segs[i] == SegmentFile(i + 1, c.filename(i + 1))
    ensures ScanAll(c, disk, segs, Count(l))
            == LoadedLayout(c, l)
  {
    if l.Then? {
      ScanLayout(c, disk, l.init, limit, segs);
      ScanLast(c, disk, l, segs, Count(l));
    }
  }

  /**
   * Write any records to a fresh directory with any segment size, then load it: the scan recovers exactly the accepted
   * records and the writer's own index, with nothing skipped, across every rollover.
   */
  lemma RoundTrip(c: Codec, segmentBytes: nat, rs: seq<R.Record>, segs: seq<SegmentFile>)
    requires GoodCodec(c) && SegmentCount(c, segmentBytes, rs) < WRAP
    requires IsListing(c, AppendAll(c, Start(c, segmentBytes), rs).disk, segs)
    ensures var s := AppendAll(c, Start(c, segmentBytes), rs);
            ScanAll(c, s.disk, segs, |segs|)
            == Loaded(Replays(c, Accepted(rs)), s.entries,
                      ReplayStats(|Accepted(rs)|, 0, 0, SegmentCount(c, segmentBytes, rs)))
  {
    var l := WriterLayout(c, segmentBytes, rs);
    var s := AppendAll(c, Start(c, segmentBytes), rs);
    DiskOfHolds(c, l);
    ListingOfLayout(c, l, segs);
    ScanLayout(c, s.disk, l, s.segmentBytes, segs);
  }

  // ---- where the index points ----------------------------------------------------------------

  /** A stretch of the bytes behind the first ones. */
  lemma SliceBehind(first: seq<byte>, rest: seq<byte>, p: nat, rec: seq<byte>)
    requires p + |rec| <= |rest| && rest[p..p + |rec|] == rec
    ensures (first + rest)[|first| + p..|first| + p + |rec|] == rec
  {
  }

  /** Record j of a segment lies where its span says. */
  lemma {:induction false} TileLocates(c: Codec, rs: seq<R.Record>, at: nat, j: nat) returns (p: nat)
    requires j < |rs|
    ensures Tiles(c, rs, at)[j] == Span(at + p, c.replay(rs[j])) && p + |c.encode(rs[j])| <= |EncodeAll(c, rs)|
    ensures EncodeAll(c, rs)[p..p + |c.encode(rs[j])|] == c.encode(rs[j])
    decreases j
  {
    var first, rest := c.encode(rs[0]), EncodeAll(c, rs[1..]);
    if j == 0 {
      p := 0;
    } else {
      var q := TileLocates(c, rs[1..], at + |first|, j - 1);
      p := |first| + q;
      SliceBehind(first, rest, q, c.encode(rs[j]));
    }
  }

  /** The entry leads to the bytes of the record. */
  ghost predicate Locates(c: Codec, disk: Disk, e: IndexEntry, r: R.Record) {
    && e.timestampNs == r.timestampNs && c.filename(e.segmentId) in disk
    && e.recordLength == |c.encode(r)|
    && e.offset + e.recordLength <= |disk[c.filename(e.segmentId)]|
    && disk[c.filename(e.segmentId)][e.offset..e.offset + e.recordLength] == c.encode(r)
  }

  lemma {:induction false} EntriesLocate(c: Codec, disk: Disk, l: Layout, limit: nat, i: nat)
    requires GoodCodec(c) && Holds(c, disk, l) && GoodSegments(c, l, limit) && i < |Flat(l)|
    ensures |EntriesOf(c, l)| == |Flat(l)| && Fits(Flat(l)[i]) && Locates(c, disk, EntriesOf(c, l)[i], Flat(l)[i])
    decreases l
  {
    SameLength(c, l);
    SameLength(c, l.init);
    if i < |Flat(l.init)| {
      EntriesLocate(c, disk, l.init, limit, i);
    } else {
      var j := i - |Flat(l.init)|;
      var _ := TileLocates(c, l.last, 0, j);
      assert Fits(l.last[j]);
      assert SameRecord(c.replay(l.last[j]), l.last[j]);
      assert c.replay(l.last[j]).header.recordLength == |c.encode(l.last[j])|;
    }
  }

  lemma {:induction false} SameLength(c: Codec, l: Layout)
    ensures |EntriesOf(c, l)| == |Flat(l)|
    decreases l
  {
    if l.Then? { SameLength(c, l.init); }
  }

  /**
   * Every entry of the writer's index, in the order of the appends, leads to the bytes of its record, as long as
   * segment ids have not wrapped.
   */
  lemma IndexLocates(c: Codec, segmentBytes: nat, rs: seq<R.Record>, i: nat)
    requires GoodCodec(c) && SegmentCount(c, segmentBytes, rs) < WRAP && i < |Accepted(rs)|
    ensures var s, r := AppendAll(c, Start(c, segmentBytes), rs), Accepted(rs)[i];
            && |s.entries| == |Accepted(rs)|
            && var e := s.entries[i];
               && e.timestampNs == r.timestampNs && c.filename(e.segmentId) in s.disk
               && e.offset + |c.encode(r)| <= |s.disk[c.filename(e.segmentId)]| && e.recordLength == |c.encode(r)|
               && s.disk[c.filename(e.segmentId)][e.offset..e.offset + |c.encode(r)|] == c.encode(r)
  {
    var l := WriterLayout(c, segmentBytes, rs);
    var s := AppendAll(c, Start(c, segmentBytes), rs);
    DiskOfHolds(c, l);
    EntriesLocate(c, s.disk, l, s.segmentBytes, i);
  }

  lemma {:induction false} AcceptedFit(rs: seq<R.Record>)
    ensures forall i :: 0 <= i < |Accepted(rs)| ==> Fits(Accepted(rs)[i])
  {
    if rs != [] { AcceptedFit(rs[1..]); }
  }

  /** The same for the record format itself, under its own file names. */
  lemma RoundTripRecordFormat(crc: R.Checksum, segmentBytes: nat, rs: seq<R.Record>, segs: seq<SegmentFile>)
    requires SegmentCount(RecordFormat(crc), segmentBytes, rs) < WRAP
    requires var c := RecordFormat(crc);
             IsListing(c, AppendAll(c, Start(c, segmentBytes), rs).disk, segs)
    ensures var c := RecordFormat(crc); var s := AppendAll(c, Start(c, segmentBytes), rs);
            GoodCodec(c) && ScanAll(c, s.disk, segs, |segs|)
            == Loaded(Replays(c, Accepted(rs)), s.entries,
                      ReplayStats(|Accepted(rs)|, 0, 0, SegmentCount(c, segmentBytes, rs)))
    ensures var c := RecordFormat(crc); var s := AppendAll(c, Start(c, segmentBytes), rs);
            GoodCodec(c) && var records := ScanAll(c, s.disk, segs, |segs|).records;
            && |records| == |Accepted(rs)|
            && forall i :: 0 <= i < |records| ==>
                 && records[i].payload == Accepted(rs)[i].payload
                 && records[i].header.timestampNs == Accepted(rs)[i].timestampNs
                 && records[i].header.sequence == Accepted(rs)[i].sequence
                 && records[i].header.sensorType == Accepted(rs)[i].sensorType
  {
    RecordFormatIsGood(crc);
    RoundTrip(RecordFormat(crc), segmentBytes, rs, segs);
    AcceptedFit(rs);
  }

  /** A method that writes and loads, so that nothing stands between the two classes. */
  method WriteThenLoad(c: Codec, segmentBytes: nat, rs: seq<R.Record>) returns (loaded: WalReader)
    requires GoodCodec(c) && SegmentCount(c, segmentBytes, rs) < WRAP
    ensures fresh(loaded) && loaded.Valid()
    ensures loaded.records == StableSort(ReplaysBefore, Replays(c, Accepted(rs)))
    ensures InReplayOrder(loaded.records, Replays(c, Accepted(rs)))
    ensures loaded.index.entries == StableSort(Earlier, AppendAll(c, Start(c, segmentBytes), rs).entries)
    ensures loaded.stats == ReplayStats(|Accepted(rs)|, 0, 0, SegmentCount(c, segmentBytes, rs))
  {
    var w := new WalWriter(c, segmentBytes);
    ghost var final := AppendAll(c, w.State(), rs);
    for i := 0 to |rs|
      invariant w.Valid() && w.codec == c && fresh(w) && fresh(w.index)
      invariant AppendAll(c, w.State(), rs[i..]) == final
    {
      var r := rs[i];
      assert rs[i..][0] == r && rs[i..][1..] == rs[i + 1..];
      var _ := w.AppendRecord(r.timestampNs, r.sensorType, r.sequence, r.payload);
    }
    w.Close();
    assert rs[|rs|..] == [];
    loaded := new WalReader(c, w.disk);
    RoundTrip(c, segmentBytes, rs, loaded.segments);
    SortedInReplayOrder(Replays(c, Accepted(rs)));
  }
}

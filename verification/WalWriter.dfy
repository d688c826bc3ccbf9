/** The rolling log writer, and the layout it keeps on disk. */
module WalWriting {
  import opened Bytes
  import opened ReplayIndexing
  import opened WalScan
  import opened WalDamage
  import R = RecordCodec

  const DEFAULT_SEGMENT_BYTES: nat := 0x400_0000

  /** File name to contents. */
  type Disk = map<string, seq<byte>>

  datatype Log = Log(
    segmentBytes: nat, disk: Disk, isOpen: bool, id: u32, offset: nat, written: nat, entries: seq<IndexEntry>)

  // ---- specification ---------------------------------------------------------------

  /** The current segment's file exists. */
  predicate HasCurrent(c: Codec, s: Log) {
    c.filename(s.id) in s.disk
  }

  /** The id is a 32-bit counter and opening truncates. */
  function OpenNext(c: Codec, s: Log): (t: Log)
    ensures HasCurrent(c, t)
  {
    var id := (s.id + 1) % WRAP;
    s.(isOpen := true, id := id, offset := 0, disk := s.disk[c.filename(id) := []])
  }

  function Start(c: Codec, segmentBytes: nat): (s: Log)
    ensures HasCurrent(c, s)
  {
    OpenNext(c, Log(if segmentBytes == 0 then DEFAULT_SEGMENT_BYTES else segmentBytes, map[], false, 0, 0, 0, []))
  }

  predicate Rolls(s: Log, n: nat) {
    s.offset > 0 && s.offset + n > s.segmentBytes
  }

  /** Whether an append succeeds: a closed writer still accepts a record that makes it open another segment. */
  predicate Accepts(c: Codec, s: Log, r: R.Record) {
    Fits(r) && (s.isOpen || Rolls(s, |c.encode(r)|))
  }

  function Write(c: Codec, s: Log, r: R.Record): Log
    requires HasCurrent(c, s)
  {
    var rec, name := c.encode(r), c.filename(s.id);
    s.(disk := s.disk[name := s.disk[name] + rec], offset := s.offset + |rec|, written := s.written + 1,
       entries := s.entries + [IndexEntry(r.timestampNs, s.id, s.offset, |rec| % WRAP)])
  }

  function Append(c: Codec, s: Log, r: R.Record): Log
    requires HasCurrent(c, s)
  {
    if !Accepts(c, s, r) then s else Write(c, if Rolls(s, |c.encode(r)|) then OpenNext(c, s) else s, r)
  }

  /** A new log: segment 1, empty, and the default size for a size of 0. */
  lemma StartExactly(c: Codec, segmentBytes: nat)
    ensures Start(c, segmentBytes) == Log(
              if segmentBytes == 0 then 67108864 else segmentBytes, map[c.filename(1) := []], true, 1, 0, 0, [])
  {
    var none: Disk := map[];
    assert none[c.filename(1) := []] == map[c.filename(1) := []];
  }

  /**
   * What an append does to the log. A payload over 4 MiB is refused; a record that would take a segment that has one
   * past the limit goes to the start of the next, any other to the end of the current one; its index entry is where its
   * bytes went.
   */
  lemma AppendExactly(c: Codec, s: Log, r: R.Record)
    requires HasCurrent(c, s)
    ensures var t, rec := Append(c, s, r), c.encode(r);
            var rolls := s.offset > 0 && s.offset + |rec| > s.segmentBytes;
            && (|r.payload| > 4194304 || (!s.isOpen && !rolls) ==> t == s && !Accepts(c, s, r))
            && (|r.payload| <= 4194304 && rolls ==>
                  var next: u32 := (s.id + 1) % 0x1_0000_0000;
                  Accepts(c, s, r)
                  && t == Log(s.segmentBytes, s.disk[c.filename(next) := rec], true, next, |rec|, s.written + 1,
                              s.entries + [IndexEntry(r.timestampNs, next, 0, |rec| % 0x1_0000_0000)]))
            && (|r.payload| <= 4194304 && s.isOpen && !rolls ==>
                  Accepts(c, s, r)
                  && t == Log(s.segmentBytes, s.disk[c.filename(s.id) := s.disk[c.filename(s.id)] + rec], true, s.id,
                              s.offset + |rec|, s.written + 1,
                              s.entries + [IndexEntry(r.timestampNs, s.id, s.offset, |rec| % 0x1_0000_0000)]))
  {
    if Fits(r) && Rolls(s, |c.encode(r)|) {
      var name := c.filename((s.id + 1) % WRAP);
      assert [] + c.encode(r) == c.encode(r);
      assert s.disk[name := []][name := c.encode(r)] == s.disk[name := c.encode(r)];
    }
  }

  // ---- the class ---------------------------------------------------------------------

  class WalWriter {
    const codec: Codec
    const segmentBytes: nat
    var disk: Disk
    var isOpen: bool
    var currentSegmentId: u32
    var currentSegmentOffset: nat
    var recordsWritten: nat
    const index: ReplayIndex

    ghost predicate Valid()
      reads this, index
    {
      index.Valid() && HasCurrent(codec, State())
    }

    ghost function State(): Log
      reads this, index
    {
      Log(segmentBytes, disk, isOpen, currentSegmentId, currentSegmentOffset, recordsWritten, index.entries)
    }

    constructor (codec: Codec, segmentBytes: nat)
      ensures Valid() && fresh(index) && this.codec == codec
      ensures State() == Start(codec, segmentBytes) && currentSegmentId == 1 && recordsWritten == 0
    {
      this.codec := codec;
      this.segmentBytes := if segmentBytes == 0 then DEFAULT_SEGMENT_BYTES else segmentBytes;
      disk := map[];
      isOpen := false;
      currentSegmentId := 0;
      currentSegmentOffset := 0;
      recordsWritten := 0;
      index := new ReplayIndex();
      new;
      OpenNewSegment();
    }

    method OpenNewSegment()
      modifies this
      ensures State() == OpenNext(codec, old(State())) && HasCurrent(codec, State())
    {
      currentSegmentId := (currentSegmentId + 1) % WRAP;
      currentSegmentOffset := 0;
      disk := disk[codec.filename(currentSegmentId) := []];
      isOpen := true;
    }

    method AppendRecord(timestampNs: u64, sensorType: u16, sequence: u64, payload: seq<byte>) returns (ok: bool)
      requires Valid()
      modifies this, index
      ensures Valid()
      ensures var r := R.Record(timestampNs, sensorType, sequence, payload);
              ok == Accepts(codec, old(State()), r) && State() == Append(codec, old(State()), r)
      ensures recordsWritten == old(recordsWritten) + (if ok then 1 else 0)
      ensures |index.entries| == |old(index.entries)| + if ok then 1 else 0
    {
      if |payload| > R.MAX_PAYLOAD {
        return false;
      }
      var rec := codec.encode(R.Record(timestampNs, sensorType, sequence, payload));
      if currentSegmentOffset > 0 && currentSegmentOffset + |rec| > segmentBytes {
        OpenNewSegment();
      }
      if !isOpen {
        return false;
      }
      var offset, name := currentSegmentOffset, codec.filename(currentSegmentId);
      disk := disk[name := disk[name] + rec];
      index.Add(timestampNs, currentSegmentId, offset, |rec| % WRAP);
      currentSegmentOffset := currentSegmentOffset + |rec|;
      recordsWritten := recordsWritten + 1;
      ok := true;
    }

    method Close()
      requires Valid()
      modifies this
      ensures Valid() && State() == old(State()).(isOpen := false)
    {
      isOpen := false;
    }
  }

  // ---- the layout --------------------------------------------------------------------

  /** The records of every segment, in order. */
  datatype Layout = Empty | Then(init: Layout, last: seq<R.Record>)

  function Count(l: Layout): nat {
    if l.Empty? then 0 else Count(l.init) + 1
  }

  /** The id of the last segment: ids wrap, and a segment that comes round again overwrites the one before. */
  function IdOf(l: Layout): u32 { Count(l) % WRAP }

  function DiskOf(c: Codec, l: Layout): Disk {
    if l.Empty? then map[] else DiskOf(c, l.init)[c.filename(IdOf(l)) := EncodeAll(c, l.last)]
  }

  /** Index entries for the spans of one segment. */
  function EntriesOfSpans(id: u32, spans: seq<Span>): (entries: seq<IndexEntry>)
    ensures |entries| == |spans|
  {
    seq(|spans|, i requires 0 <= i < |spans| =>
      IndexEntry(spans[i].rec.header.timestampNs, id, spans[i].pos, spans[i].rec.header.recordLength))
  }

  function EntriesOf(c: Codec, l: Layout): seq<IndexEntry> {
    if l.Empty? then [] else EntriesOf(c, l.init) + EntriesOfSpans(IdOf(l), Tiles(c, l.last, 0))
  }

  function Flat(l: Layout): seq<R.Record> {
    if l.Empty? then [] else Flat(l.init) + l.last
  }

  /** Every segment is within the limit, or holds a single record, or is the empty first one. */
  ghost predicate GoodSegments(c: Codec, l: Layout, limit: nat) {
    l.Then? ==> AllFit(l.last) && (|l.last| <= 1 || |EncodeAll(c, l.last)| <= limit) && GoodSegments(c, l.init, limit)
  }

  /** Every segment but the first was opened for a record. */
  predicate NoneEmpty(l: Layout) {
    l.Then? ==> (l.init.Then? ==> l.last != []) && NoneEmpty(l.init)
  }

  /** The files, the index and the counters say exactly what the layout says. */
  ghost predicate LaidOut(c: Codec, s: Log, l: Layout) {
    && l.Then? && s.isOpen && s.id == IdOf(l)
    && s.disk == DiskOf(c, l)
    && s.offset == |EncodeAll(c, l.last)|
    && s.entries == EntriesOf(c, l)
    && s.written == |Flat(l)|
    && GoodSegments(c, l, s.segmentBytes)
  }

  lemma StartLaidOut(c: Codec, segmentBytes: nat)
    ensures LaidOut(c, Start(c, segmentBytes), Then(Empty, []))
    ensures Flat(Then(Empty, [])) == []
  {
    assert EntriesOfSpans(1, []) == [];
  }

  lemma {:induction false} TilesSnoc(c: Codec, rs: seq<R.Record>, r: R.Record, at: nat)
    ensures EncodeAll(c, rs + [r]) == EncodeAll(c, rs) + c.encode(r)
    ensures Tiles(c, rs + [r], at) == Tiles(c, rs, at) + [Span(at + |EncodeAll(c, rs)|, c.replay(r))]
  {
    if rs == [] {
      assert rs + [r] == [r] && [r][1..] == [];
    } else {
      assert (rs + [r])[1..] == rs[1..] + [r];
      TilesSnoc(c, rs[1..], r, at + |c.encode(rs[0])|);
    }
  }

  /** Opening the next segment adds an empty one to the layout. */
  lemma OpenKeepsLayout(c: Codec, s: Log, l: Layout)
    requires LaidOut(c, s, l)
    ensures LaidOut(c, OpenNext(c, s), Then(l, [])) && Flat(Then(l, [])) == Flat(l)
  {
    var t, more := OpenNext(c, s), Then(l, []);
    assert EncodeAll(c, []) == [];
    assert EntriesOfSpans(IdOf(more), Tiles(c, [], 0)) == [];
    assert t.entries == EntriesOf(c, more);
    assert Flat(more) == Flat(l);
  }

  lemma NonEmptyBytes(c: Codec, rs: seq<R.Record>)
    requires GoodCodec(c) && AllFit(rs) && rs != []
    ensures |EncodeAll(c, rs)| > 0
  {
    assert c.replay(rs[0]).header.recordLength == |c.encode(rs[0])|;
  }

  /** Writing a record puts it at the end of the last segment. */
  lemma WriteKeepsLayout(c: Codec, s: Log, l: Layout, r: R.Record)
    requires GoodCodec(c) && LaidOut(c, s, l) && HasCurrent(c, s) && Fits(r)
    requires !Rolls(s, |c.encode(r)|)
    ensures LaidOut(c, Write(c, s, r), Then(l.init, l.last + [r]))
    ensures Flat(Then(l.init, l.last + [r])) == Flat(l) + [r]
  {
    var t, next := Write(c, s, r), Then(l.init, l.last + [r]);
    TilesSnoc(c, l.last, r, 0);
    assert SameRecord(c.replay(r), r) && c.replay(r).header.recordLength == |c.encode(r)|;
    var e := IndexEntry(r.timestampNs, s.id, s.offset, |c.encode(r)| % WRAP);
    assert EntriesOfSpans(s.id, Tiles(c, next.last, 0)) == EntriesOfSpans(s.id, Tiles(c, l.last, 0)) + [e];
    assert t.entries == EntriesOf(c, next);
    if l.last != [] { NonEmptyBytes(c, l.last); }
  }

  /** Where one append leaves the layout. */
  function Place(c: Codec, s: Log, l: Layout, r: R.Record): Layout
    requires l.Then?
  {
    if !Fits(r) then l
    else if Rolls(s, |c.encode(r)|) then Then(l, [r])
    else Then(l.init, l.last + [r])
  }

  /** One append keeps the layout; a record that succeeds is added at its end, one that fails changes nothing. */
  lemma AppendKeepsLayout(c: Codec, s: Log, l: Layout, r: R.Record)
    requires GoodCodec(c) && LaidOut(c, s, l)
    ensures HasCurrent(c, s) && LaidOut(c, Append(c, s, r), Place(c, s, l, r))
    ensures Flat(Place(c, s, l, r)) == Flat(l) + if Fits(r) then [r] else []
    ensures NoneEmpty(l) ==> NoneEmpty(Place(c, s, l, r))
  {
    if Fits(r) {
      if Rolls(s, |c.encode(r)|) {
        OpenKeepsLayout(c, s, l);
        assert [] + [r] == [r];
        WriteKeepsLayout(c, OpenNext(c, s), Then(l, []), r);
      } else {
        WriteKeepsLayout(c, s, l, r);
      }
    }
  }

  /** A segment was left only for a record it had no room for. */
  ghost predicate TightSegments(c: Codec, l: Layout, limit: nat) {
    l.Then? ==>
      && TightSegments(c, l.init, limit)
      && (l.init.Then? ==> l.last != [] && |EncodeAll(c, l.init.last)| + |c.encode(l.last[0])| > limit)
  }

  lemma PlaceIsTight(c: Codec, s: Log, l: Layout, r: R.Record)
    requires LaidOut(c, s, l) && TightSegments(c, l, s.segmentBytes)
    ensures TightSegments(c, Place(c, s, l, r), s.segmentBytes)
  {
    var p := Place(c, s, l, r);
    if l.last != [] { assert (l.last + [r])[0] == l.last[0]; }
  }

  // ---- whole runs ----------------------------------------------------------------------

  function AppendAll(c: Codec, s: Log, rs: seq<R.Record>): Log
    requires HasCurrent(c, s)
    decreases |rs|
  {
    if rs == [] then s else AppendAll(c, Append(c, s, rs[0]), rs[1..])
  }

  /** The records small enough to be logged. */
  function Accepted(rs: seq<R.Record>): seq<R.Record> {
    if rs == [] then [] else (if Fits(rs[0]) then [rs[0]] else []) + Accepted(rs[1..])
  }

  /** How many more segments an open writer with `offset` bytes in the current one will need. */
  function SegmentsNeeded(c: Codec, limit: nat, offset: nat, rs: seq<R.Record>): nat
    decreases |rs|
  {
    if rs == [] then 0
    else if !Fits(rs[0]) then SegmentsNeeded(c, limit, offset, rs[1..])
    else
      var n := |c.encode(rs[0])|;
      if offset > 0 && offset + n > limit then 1 + SegmentsNeeded(c, limit, n, rs[1..])
      else SegmentsNeeded(c, limit, offset + n, rs[1..])
  }

  lemma SegmentsNeededStep(c: Codec, s: Log, r: R.Record, rest: seq<R.Record>)
    requires HasCurrent(c, s) && s.isOpen
    ensures var t := Append(c, s, r);
            && HasCurrent(c, t) && t.isOpen && t.segmentBytes == s.segmentBytes
            && SegmentsNeeded(c, s.segmentBytes, s.offset, [r] + rest)
               == (if Fits(r) && Rolls(s, |c.encode(r)|) then 1 else 0)
                  + SegmentsNeeded(c, s.segmentBytes, t.offset, rest)
  {
    assert ([r] + rest)[0] == r && ([r] + rest)[1..] == rest;
  }

  /** One append of a run. */
  lemma RunStep(c: Codec, s: Log, l: Layout, r: R.Record, rest: seq<R.Record>)
    requires GoodCodec(c) && LaidOut(c, s, l) && HasCurrent(c, s) && NoneEmpty(l)
    requires TightSegments(c, l, s.segmentBytes)
    ensures var t, p := Append(c, s, r), Place(c, s, l, r);
            && HasCurrent(c, t) && t.segmentBytes == s.segmentBytes && LaidOut(c, t, p) && NoneEmpty(p)
            && TightSegments(c, p, s.segmentBytes)
            && Flat(p) + Accepted(rest) == Flat(l) + Accepted([r] + rest)
            && Count(p) + SegmentsNeeded(c, s.segmentBytes, t.offset, rest)
               == Count(l) + SegmentsNeeded(c, s.segmentBytes, s.offset, [r] + rest)
  {
    assert ([r] + rest)[0] == r && ([r] + rest)[1..] == rest;
    SegmentsNeededStep(c, s, r, rest);
    AppendKeepsLayout(c, s, l, r);
    PlaceIsTight(c, s, l, r);
  }

  lemma {:induction false} AppendAllKeepsLayout(c: Codec, s: Log, l: Layout, rs: seq<R.Record>) returns (next: Layout)
    requires GoodCodec(c) && LaidOut(c, s, l) && HasCurrent(c, s) && NoneEmpty(l)
    requires TightSegments(c, l, s.segmentBytes)
    ensures LaidOut(c, AppendAll(c, s, rs), next) && NoneEmpty(next) && TightSegments(c, next, s.segmentBytes)
    ensures Flat(next) == Flat(l) + Accepted(rs)
    ensures Count(next) == Count(l) + SegmentsNeeded(c, s.segmentBytes, s.offset, rs)
    decreases |rs|
  {
    next := l;
    if rs != [] {
      var r, rest := rs[0], rs[1..];
      assert rs == [r] + rest;
      RunStep(c, s, l, r, rest);
      next := AppendAllKeepsLayout(c, Append(c, s, r), Place(c, s, l, r), rest);
    }
  }

  /** The segments a writer started with this limit will open for these records. */
  function SegmentCount(c: Codec, segmentBytes: nat, rs: seq<R.Record>): nat {
    1 + SegmentsNeeded(c, Start(c, segmentBytes).segmentBytes, 0, rs)
  }

  /**
   * Any run of appends on a fresh directory: the files are the encoded records of a layout of exactly the accepted
   * records, the index names every one of them, every segment is within the limit or holds a single record, and none
   * was left while it had room for the next. The 32-bit id of the k-th segment is k while ids do not wrap.
   */
  lemma WriterLayout(c: Codec, segmentBytes: nat, rs: seq<R.Record>) returns (layout: Layout)
    requires GoodCodec(c)
    ensures LaidOut(c, AppendAll(c, Start(c, segmentBytes), rs), layout)
    ensures Flat(layout) == Accepted(rs) && Count(layout) == SegmentCount(c, segmentBytes, rs) && NoneEmpty(layout)
    ensures TightSegments(c, layout, if segmentBytes == 0 then 67108864 else segmentBytes)
  {
    StartLaidOut(c, segmentBytes);
    layout := AppendAllKeepsLayout(c, Start(c, segmentBytes), Then(Empty, []), rs);
  }
}

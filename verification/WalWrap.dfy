/**
 * A log of so many segments that the 32-bit segment id wraps: what the reader then misses, and so when a log reads
 * back.
 */
module WalWrapping {
  import opened Bytes
  import opened Sorting
  import opened WalScan
  import opened WalDamage
  import opened WalWriting
  import opened WalReading
  import R = RecordCodec

  /** The records a file holds, if it is there. */
  ghost function InFile(c: Codec, disk: Disk, id: u32): nat
    requires GoodCodec(c)
  {
    if c.filename(id) in disk then |SegmentSpans(c, disk[c.filename(id)])| else 0
  }

  /** The records in the files of ids 1 to k. */
  ghost function Total(c: Codec, disk: Disk, k: u32): nat
    requires GoodCodec(c)
    decreases k
  {
    if k == 0 then 0 else Total(c, disk, k - 1) + InFile(c, disk, k)
  }

  // ---- a listing holds what the files hold -----------------------------------------------------

  /** Only segment files under their own names. */
  ghost predicate Canonical(c: Codec, disk: Disk) {
    forall name :: name in disk ==> name == c.filename(c.segmentId(name))
  }

  lemma {:induction false} DiskIsCanonical(c: Codec, l: Layout)
    requires GoodCodec(c)
    ensures Canonical(c, DiskOf(c, l))
    decreases l
  {
    if l.Then? {
      DiskIsCanonical(c, l.init);
      assert c.segmentId(c.filename(IdOf(l))) == IdOf(l);
    }
  }

  /** Listed ids strictly increase. */
  lemma ListedIds(c: Codec, disk: Disk, segs: seq<SegmentFile>, i: nat, j: nat)
    requires GoodCodec(c) && Canonical(c, disk) && IsListing(c, disk, segs) && i < j < |segs|
    ensures segs[i].id < segs[j].id
  {
    assert SegmentLess(segs[i], segs[j]);
    StringLessTotal(segs[i].name, segs[i].name);
  }

  lemma LastListed(c: Codec, disk: Disk, segs: seq<SegmentFile>, m: nat, k: u32)
    requires GoodCodec(c) && Canonical(c, disk) && IsListing(c, disk, segs) && 0 < m <= |segs| && k > 0
    requires forall i :: 0 <= i < |segs| ==> (i < m <==> segs[i].id <= k)
    requires segs[m - 1].id == k
    ensures segs[m - 1].name == c.filename(k)
    ensures forall i :: 0 <= i < |segs| ==> (i < m - 1 <==> segs[i].id <= k - 1)
  {
    forall i | 0 <= i < |segs| ensures i < m - 1 <==> segs[i].id <= k - 1 {
      if i < m - 1 { ListedIds(c, disk, segs, i, m - 1); }
    }
  }

  /** The first m listed files, when those are the ones with ids up to k, hold what the files of ids 1 to k hold. */
  lemma {:induction false} ListedTotal(c: Codec, disk: Disk, segs: seq<SegmentFile>, m: nat, k: u32)
    requires GoodCodec(c) && Canonical(c, disk) && IsListing(c, disk, segs) && m <= |segs|
    requires forall i :: 0 <= i < |segs| ==> (i < m <==> segs[i].id <= k)
    ensures |ScanAll(c, disk, segs, m).records| == Total(c, disk, k)
    decreases k
  {
    if k > 0 && m > 0 && segs[m - 1].id == k {
      LastListed(c, disk, segs, m, k);
      ListedTotal(c, disk, segs, m - 1, k - 1);
    } else if k > 0 {
      NotListed(c, disk, segs, m, k);
      ListedTotal(c, disk, segs, m, k - 1);
    }
  }

  lemma NotListed(c: Codec, disk: Disk, segs: seq<SegmentFile>, m: nat, k: u32)
    requires GoodCodec(c) && Canonical(c, disk) && IsListing(c, disk, segs) && m <= |segs| && k > 0
    requires forall i :: 0 <= i < |segs| ==> (i < m <==> segs[i].id <= k)
    requires m == 0 || segs[m - 1].id != k
    ensures c.filename(k) !in disk
    ensures forall i :: 0 <= i < |segs| ==> (i < m <==> segs[i].id <= k - 1)
  {
    forall i | 0 <= i < m ensures segs[i].id < k {
      if i < m - 1 { ListedIds(c, disk, segs, i, m - 1); }
    }
    assert c.segmentId(c.filename(k)) == k;
    assert c.filename(k) in disk ==> SegmentFile(k, c.filename(k)) in segs;
  }

  lemma LoadedTotal(c: Codec, disk: Disk, segs: seq<SegmentFile>)
    requires GoodCodec(c) && Canonical(c, disk) && IsListing(c, disk, segs)
    ensures |ScanAll(c, disk, segs, |segs|).records| == Total(c, disk, WRAP - 1)
  {
    ListedTotal(c, disk, segs, |segs|, WRAP - 1);
  }

  // ---- what a layout leaves visible ------------------------------------------------------------

  /** The records of the segments with id 0, a name the reader does not take for a segment. */
  function Unseen(l: Layout): nat
    decreases l
  {
    if l.Empty? then 0 else Unseen(l.init) + if IdOf(l) == 0 then |l.last| else 0
  }

  /** Writing one file changes the total by at most what it now holds, and by nothing if its id is not counted. */
  lemma {:induction false} TotalAfter(c: Codec, disk: Disk, id: u32, content: seq<byte>, k: u32)
    requires GoodCodec(c)
    ensures Total(c, disk[c.filename(id) := content], k)
            <= Total(c, disk, k) + if 1 <= id <= k then |SegmentSpans(c, content)| else 0
    decreases k
  {
    if k > 0 {
      TotalAfter(c, disk, id, content, k - 1);
      if k != id { DistinctNames(c, k, id); }
    }
  }

  lemma {:induction false} VisibleAtMost(c: Codec, l: Layout, limit: nat)
    requires GoodCodec(c) && GoodSegments(c, l, limit)
    ensures Total(c, DiskOf(c, l), WRAP - 1) + Unseen(l) <= |Flat(l)|
    decreases l
  {
    if l.Empty? {
      NothingIn(c, WRAP - 1);
    } else {
      VisibleAtMost(c, l.init, limit);
      TotalAfter(c, DiskOf(c, l.init), IdOf(l), EncodeAll(c, l.last), WRAP - 1);
      CleanSegment(c, l.last);
    }
  }

  lemma {:induction false} NothingIn(c: Codec, k: u32)
    requires GoodCodec(c)
    ensures Total(c, map[], k) == 0
    decreases k
  {
    if k > 0 { NothingIn(c, k - 1); }
  }

  /** From the 2^32-th segment on, something is out of sight. */
  lemma {:induction false} WrapHidesSome(l: Layout)
    requires NoneEmpty(l) && Count(l) >= WRAP
    ensures Unseen(l) > 0
    decreases l
  {
    if Count(l) > WRAP {
      WrapHidesSome(l.init);
    } else {
      assert Count(l.init) == WRAP - 1;
      assert l.init.Then?;
    }
  }

  /**
   * For any records and any segment size, loading a freshly written log gives back every accepted record exactly when
   * the log took fewer than 2^32 segments; otherwise some are missing.
   */
  lemma RoundTripExactly(c: Codec, segmentBytes: nat, rs: seq<R.Record>, segs: seq<SegmentFile>)
    requires GoodCodec(c)
    requires IsListing(c, AppendAll(c, Start(c, segmentBytes), rs).disk, segs)
    ensures ScanAll(c, AppendAll(c, Start(c, segmentBytes), rs).disk, segs, |segs|).records == Replays(c, Accepted(rs))
            <==> SegmentCount(c, segmentBytes, rs) < WRAP
    ensures SegmentCount(c, segmentBytes, rs) >= WRAP ==>
              |ScanAll(c, AppendAll(c, Start(c, segmentBytes), rs).disk, segs, |segs|).records| < |Accepted(rs)|
  {
    var s := AppendAll(c, Start(c, segmentBytes), rs);
    if SegmentCount(c, segmentBytes, rs) < WRAP {
      RoundTrip(c, segmentBytes, rs, segs);
    } else {
      var l := WriterLayout(c, segmentBytes, rs);
      DiskIsCanonical(c, l);
      LoadedTotal(c, s.disk, segs);
      VisibleAtMost(c, l, s.segmentBytes);
      WrapHidesSome(l);
      assert |ScanAll(c, s.disk, segs, |segs|).records| < |Accepted(rs)| == |Replays(c, Accepted(rs))|;
    }
  }

  // ---- a log that does not read back -------------------------------------------------------------

  function Copies(r: R.Record, n: nat): seq<R.Record> { seq(n, _ => r) }

  /** With room for one byte every record but the first opens a segment. */
  lemma {:induction false} CopiesNeed(c: Codec, r: R.Record, offset: nat, n: nat)
    requires GoodCodec(c) && Fits(r)
    ensures SegmentsNeeded(c, 1, offset, Copies(r, n)) == if offset > 0 || n == 0 then n else n - 1
    decreases n
  {
    if n > 0 {
      assert Copies(r, n)[0] == r && Copies(r, n)[1..] == Copies(r, n - 1);
      assert c.replay(r).header.recordLength == |c.encode(r)|;
      CopiesNeed(c, r, |c.encode(r)|, n - 1);
      assert |c.encode(r)| > 0;
    }
  }

  /** With segments of a single byte every record opens its own. */
  lemma SegmentOfEach(c: Codec, r: R.Record, n: nat)
    requires GoodCodec(c) && Fits(r) && n > 0
    ensures SegmentCount(c, 1, Copies(r, n)) == n
  {
    CopiesNeed(c, r, 0, n);
  }

  /** 2^32 copies of any record small enough, in segments of one record each: the log does not read back. */
  lemma LogLost(c: Codec, r: R.Record, segs: seq<SegmentFile>)
    requires GoodCodec(c) && Fits(r)
    requires IsListing(c, AppendAll(c, Start(c, 1), Copies(r, WRAP)).disk, segs)
    ensures SegmentCount(c, 1, Copies(r, WRAP)) == WRAP
    ensures |ScanAll(c, AppendAll(c, Start(c, 1), Copies(r, WRAP)).disk, segs, |segs|).records|
            < |Accepted(Copies(r, WRAP))|
  {
    SegmentOfEach(c, r, WRAP);
    RoundTripExactly(c, 1, Copies(r, WRAP), segs);
  }

  /** A reader on that log's directory has fewer records than were accepted. */
  method LoadLostLog(c: Codec, r: R.Record) returns (loaded: WalReader)
    requires GoodCodec(c) && Fits(r)
    ensures fresh(loaded) && loaded.Valid() && |loaded.records| < |Accepted(Copies(r, WRAP))|
  {
    var disk := AppendAll(c, Start(c, 1), Copies(r, WRAP)).disk;
    loaded := new WalReader(c, disk);
    LogLost(c, r, loaded.segments);
    ReplaysBeforeIsWeakOrder();
    SortIsStable(ReplaysBefore, ScanAll(c, disk, loaded.segments, |loaded.segments|).records);
    SameSize(loaded.records, ScanAll(c, disk, loaded.segments, |loaded.segments|).records);
  }

  lemma SameSize(a: seq<ReplayRecord>, b: seq<ReplayRecord>)
    requires multiset(a) == multiset(b)
    ensures |a| == |b|
  {
    assert |multiset(a)| == |multiset(b)|;
  }
}

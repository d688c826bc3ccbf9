/** The in-memory replay index: record timestamps to physical locations, kept sorted by time. */
module ReplayIndexing {
  import opened Bytes
  import opened Sorting

  datatype IndexEntry = IndexEntry(timestampNs: u64, segmentId: u32, offset: nat, recordLength: u32)

  predicate Earlier(a: IndexEntry, b: IndexEntry) {
    a.timestampNs < b.timestampNs
  }

  function TimeOf(e: IndexEntry): int {
    e.timestampNs
  }

  function Times(entries: seq<IndexEntry>): seq<int> {
    Keys(TimeOf, entries)
  }

  lemma EarlierIsWeakOrder()
    ensures WeakOrder(Earlier)
  {}

  lemma SortedIsAscending(entries: seq<IndexEntry>)
    ensures Sorted(Earlier, entries) <==> Ascending(Times(entries))
  {
    if Ascending(Times(entries)) {
      forall i, j | 0 <= i < j < |entries| ensures !Earlier(entries[j], entries[i]) {
        assert Times(entries)[i] <= Times(entries)[j];
      }
    }
    if Sorted(Earlier, entries) {
      forall i, j | 0 <= i < j < |entries| ensures Times(entries)[i] <= Times(entries)[j] {
        assert !Earlier(entries[j], entries[i]);
      }
    }
  }

  class ReplayIndex {
    var entries: seq<IndexEntry>
    var sorted: bool

    /** The flag is exact: it is set precisely when the entries are in time order. */
    ghost predicate Valid()
      reads this
    {
      sorted <==> Ascending(Times(entries))
    }

    constructor ()
      ensures Valid() && entries == [] && sorted
    {
      entries := [];
      sorted := true;
    }

    method Add(timestampNs: u64, segmentId: u32, offset: nat, recordLength: u32)
      requires Valid()
      modifies this
      ensures Valid()
      ensures entries == old(entries) + [IndexEntry(timestampNs, segmentId, offset, recordLength)]
    {
      ghost var before := Times(entries);
      ghost var wasSorted := sorted;
      entries := entries + [IndexEntry(timestampNs, segmentId, offset, recordLength)];
      if |entries| > 1 && timestampNs < entries[|entries| - 2].timestampNs {
        sorted := false;
      }
      ghost var t := Times(entries);
      assert before == t[..|t| - 1];
      AscendingSnoc(t);
    }

    method Finalize()
      requires Valid()
      modifies this
      ensures Valid() && sorted
      ensures entries == StableSort(Earlier, old(entries))
    {
      EarlierIsWeakOrder();
      SortIsStable(Earlier, entries);
      SortedIsAscending(entries);
      SortedIsAscending(StableSort(Earlier, entries));
      if !sorted {
        entries := StableSort(Earlier, entries);
        sorted := true;
      } else {
        SortOfSorted(Earlier, entries);
      }
    }

    /** First position whose timestamp is at least startNs. */
    method FirstAtOrAfter(startNs: u64) returns (p: nat)
      requires Valid()
      ensures p == LowerBound(Times(entries), startNs)
      ensures p <= |entries|
      ensures sorted ==> forall i :: 0 <= i < |entries| ==> (i < p <==> entries[i].timestampNs < startNs)
    {
      p := 0;
      assert Times(entries)[0..] == Times(entries);
      while p < |entries| && entries[p].timestampNs < startNs
        invariant p <= |entries|
        invariant LowerBound(Times(entries), startNs) == p + LowerBound(Times(entries)[p..], startNs)
      {
        assert Times(entries)[p..][1..] == Times(entries)[p + 1..];
        p := p + 1;
      }
      if sorted {
        LowerBoundSplits(Times(entries), startNs);
        assert forall i :: 0 <= i < |entries| ==> Times(entries)[i] == entries[i].timestampNs;
      }
    }

    method Clear()
      modifies this
      ensures Valid() && entries == [] && sorted
    {
      entries := [];
      sorted := true;
    }
  }

  lemma AscendingSnoc(t: seq<int>)
    requires t != []
    ensures Ascending(t) <==> Ascending(t[..|t| - 1]) && (|t| > 1 ==> t[|t| - 2] <= t[|t| - 1])
  {
    if Ascending(t[..|t| - 1]) && (|t| > 1 ==> t[|t| - 2] <= t[|t| - 1]) {
      forall i, j | 0 <= i < j < |t| ensures t[i] <= t[j] {
        if j == |t| - 1 && i < |t| - 2 { assert t[..|t| - 1][i] <= t[..|t| - 1][|t| - 2]; }
        else if j < |t| - 1 { assert t[..|t| - 1][i] <= t[..|t| - 1][j]; }
      }
    }
  }
}

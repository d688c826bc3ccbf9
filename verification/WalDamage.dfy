/**
 * What the scan recovers from a segment the writer tiled with records, intact, overwritten in the middle, or cut
 * short.
 */
module WalDamage {
  import opened Bytes
  import opened WalScan
  import R = RecordCodec

  // ---- stretches of a buffer that are tiled by decodable records ------------------------

  /** spans are back to back from `from` to `to`, and each is what decodes at its start. */
  ghost predicate TiledBy(dec: Decoder, spans: seq<Span>, from: nat, to: nat)
    decreases |spans|
  {
    if spans == [] then from == to
    else spans[0].pos == from < spans[0].End() && dec(from) == Some(spans[0].rec)
         && TiledBy(dec, spans[1..], spans[0].End(), to)
  }

  lemma {:induction false} TiledInside(dec: Decoder, spans: seq<Span>, from: nat, to: nat)
    requires TiledBy(dec, spans, from, to)
    ensures from <= to && Inside(spans, from, to)
    ensures forall p: nat :: from <= p < to ==> Covered(spans, p)
    decreases |spans|
  {
    if spans != [] {
      var rest := spans[1..];
      TiledInside(dec, rest, spans[0].End(), to);
      assert forall i :: 0 < i < |spans| ==> spans[i] == rest[i - 1];
      forall p: nat | from <= p < to ensures Covered(spans, p) {
        if p < spans[0].End() {
          assert spans[0].pos <= p < spans[0].End();
        } else {
          assert Covered(rest, p);
          var i :| 0 <= i < |rest| && rest[i].pos <= p < rest[i].End();
          assert spans[i + 1] == rest[i];
        }
      }
    }
  }

  lemma ScanFirst(dec: Decoder, n: nat, from: nat, s: Span)
    requires GoodDecoder(dec, n) && s.pos == from && dec(from) == Some(s.rec)
    ensures from < n && Scan(dec, n, from) == [s] + Scan(dec, n, s.End())
  {
  }

  /** Wherever the scan meets a tiled stretch it takes exactly its tiles, and goes on right behind them. */
  lemma {:induction false} ScanTiled(dec: Decoder, n: nat, spans: seq<Span>, from: nat, to: nat)
    requires GoodDecoder(dec, n) && TiledBy(dec, spans, from, to)
    ensures Scan(dec, n, from) == spans + Scan(dec, n, to)
    decreases |spans|
  {
    if spans != [] {
      var first, rest := spans[0], spans[1..];
      ScanTiled(dec, n, rest, first.End(), to);
      ScanFirst(dec, n, from, first);
      assert spans + Scan(dec, n, to) == [first] + (rest + Scan(dec, n, to));
    }
  }

  ghost predicate Inside(spans: seq<Span>, from: nat, to: nat) {
    forall i :: 0 <= i < |spans| ==> from <= spans[i].pos && spans[i].End() <= to
  }

  /** Some accepted span starts before e and ends after it. */
  ghost predicate Crosses(spans: seq<Span>, e: nat) {
    exists i :: 0 <= i < |spans| && spans[i].pos < e < spans[i].End()
  }

  /** If no span crosses e the scan gets to e exactly. */
  lemma {:induction false} ScanReaches(dec: Decoder, n: nat, pos: nat, e: nat) returns (mid: seq<Span>)
    requires GoodDecoder(dec, n) && pos <= e <= n
    requires !Crosses(Scan(dec, n, pos), e)
    ensures Scan(dec, n, pos) == mid + Scan(dec, n, e)
    ensures Inside(mid, pos, e)
    decreases e - pos
  {
    mid := [];
    if pos < e {
      var spans := Scan(dec, n, pos);
      if dec(pos).Some? {
        var s := Span(pos, dec(pos).value);
        assert spans[0] == s && spans[1..] == Scan(dec, n, s.End());
        assert forall i :: 0 <= i < |spans[1..]| ==> spans[1..][i] == spans[i + 1];
        var more := ScanReaches(dec, n, s.End(), e);
        mid := [s] + more;
      } else {
        mid := ScanReaches(dec, n, pos + 1, e);
      }
    }
  }

  /** The tiles before the region, then spans inside the region, then all the tiles behind it. */
  ghost predicate Recovered(spans: seq<Span>, before: seq<Span>, from: nat, e: nat, behind: seq<Span>) {
    exists mid :: Inside(mid, from, e) && spans == before + mid + behind
  }

  lemma RegionContained(dec: Decoder, n: nat, before: seq<Span>, from: nat, e: nat, behind: seq<Span>)
    requires GoodDecoder(dec, n) && from <= e <= n
    requires TiledBy(dec, before, 0, from) && TiledBy(dec, behind, e, n)
    ensures before <= Scan(dec, n, 0)
    ensures Recovered(Scan(dec, n, 0), before, from, e, behind) <==> !Crosses(Scan(dec, n, 0), e)
  {
    var spans, tail := Scan(dec, n, 0), Scan(dec, n, from);
    ScanTiled(dec, n, before, 0, from);
    ScanTiled(dec, n, behind, e, n);
    TiledInside(dec, before, 0, from);
    TiledInside(dec, behind, e, n);
    assert spans == before + tail;
    if !Crosses(spans, e) {
      assert forall i :: 0 <= i < |tail| ==> tail[i] == spans[|before| + i];
      var mid := ScanReaches(dec, n, from, e);
      assert spans == before + mid + behind;
    }
    if Recovered(spans, before, from, e, behind) {
      var mid :| Inside(mid, from, e) && spans == before + mid + behind;
      forall i | 0 <= i < |spans| ensures !(spans[i].pos < e < spans[i].End()) {
        if i < |before| { assert spans[i] == before[i]; }
        else if i < |before| + |mid| { assert spans[i] == mid[i - |before|]; }
        else { assert spans[i] == behind[i - |before| - |mid|]; }
      }
    }
  }

  ghost predicate NoneDecodesPast(dec: Decoder, from: nat, e: nat) {
    forall p: nat :: from <= p < e && dec(p).Some? ==> p + dec(p).value.header.recordLength <= e
  }

  /** If nothing that starts in [from, e) decodes past e, no accepted span crosses e. */
  lemma NothingStraddles(dec: Decoder, n: nat, before: seq<Span>, from: nat, e: nat)
    requires GoodDecoder(dec, n) && from <= e && TiledBy(dec, before, 0, from)
    requires NoneDecodesPast(dec, from, e)
    ensures !Crosses(Scan(dec, n, 0), e)
  {
    var spans, tail := Scan(dec, n, 0), Scan(dec, n, from);
    ScanTiled(dec, n, before, 0, from);
    TiledInside(dec, before, 0, from);
    ScanOrdered(dec, n, from);
    ScanIsGreedy(dec, n, from, tail);
    SpansDecode(dec, n, from, tail);
    forall i | 0 <= i < |spans| ensures !(spans[i].pos < e < spans[i].End()) {
      if i < |before| { assert spans[i] == before[i]; } else { assert spans[i] == tail[i - |before|]; }
    }
  }

  lemma {:induction false} SpansDecode(dec: Decoder, n: nat, from: nat, spans: seq<Span>)
    requires LeftmostGreedy(dec, n, from, spans)
    ensures forall i :: 0 <= i < |spans| ==> dec(spans[i].pos) == Some(spans[i].rec)
    decreases |spans|
  {
    if spans != [] {
      SpansDecode(dec, n, spans[0].End(), spans[1..]);
      assert forall i :: 0 < i < |spans| ==> spans[i] == spans[1..][i - 1];
    }
  }

  // ---- segments written by the encoder ---------------------------------------------------

  ghost predicate AllFit(rs: seq<R.Record>) {
    forall i :: 0 <= i < |rs| ==> Fits(rs[i])
  }

  /** The bytes of consecutive records. */
  function EncodeAll(c: Codec, rs: seq<R.Record>): seq<byte> {
    if rs == [] then [] else c.encode(rs[0]) + EncodeAll(c, rs[1..])
  }

  lemma {:induction false} EncodeAllAppend(c: Codec, a: seq<R.Record>, b: seq<R.Record>)
    ensures EncodeAll(c, a + b) == EncodeAll(c, a) + EncodeAll(c, b)
  {
    if a == [] {
      assert a + b == b;
    } else {
      assert (a + b)[1..] == a[1..] + b;
      EncodeAllAppend(c, a[1..], b);
    }
  }

  /** The spans of consecutive records laid out from `at`. */
  function Tiles(c: Codec, rs: seq<R.Record>, at: nat): (spans: seq<Span>)
    ensures |spans| == |rs|
  {
    if rs == [] then [] else [Span(at, c.replay(rs[0]))] + Tiles(c, rs[1..], at + |c.encode(rs[0])|)
  }

  lemma DecodesAt(c: Codec, buf: seq<byte>, at: nat, r: R.Record, rest: seq<byte>)
    requires GoodCodec(c) && Fits(r)
    requires at <= |buf| && buf[at..] == c.encode(r) + rest
    ensures DecoderOf(c, buf)(at) == Some(c.replay(r))
    ensures Span(at, c.replay(r)).End() == at + |c.encode(r)| > at
  {
    assert c.decode(c.encode(r) + rest) == Some(c.replay(r));
  }

  lemma Behead(buf: seq<byte>, at: nat, head: seq<byte>, rest: seq<byte>)
    requires at <= |buf| && buf[at..] == head + rest
    ensures at + |head| <= |buf| && buf[at + |head|..] == rest
  {
    assert buf[at + |head|..] == buf[at..][|head|..];
  }

  lemma {:induction false} TilesDecode(c: Codec, buf: seq<byte>, at: nat, rs: seq<R.Record>, rest: seq<byte>)
    requires GoodCodec(c) && AllFit(rs)
    requires at <= |buf| && buf[at..] == EncodeAll(c, rs) + rest
    ensures TiledBy(DecoderOf(c, buf), Tiles(c, rs, at), at, at + |EncodeAll(c, rs)|)
    decreases |rs|
  {
    if rs != [] {
      var bytes, tail := c.encode(rs[0]), EncodeAll(c, rs[1..]);
      var next := at + |bytes|;
      assert bytes + tail + rest == bytes + (tail + rest);
      DecodesAt(c, buf, at, rs[0], tail + rest);
      Behead(buf, at, bytes, tail + rest);
      TilesDecode(c, buf, next, rs[1..], rest);
      assert Tiles(c, rs, at)[1..] == Tiles(c, rs[1..], next);
    }
  }

  lemma FrontTiles(c: Codec, buf: seq<byte>, a: seq<R.Record>, rest: seq<byte>)
    requires GoodCodec(c) && AllFit(a) && buf == EncodeAll(c, a) + rest
    ensures TiledBy(DecoderOf(c, buf), Tiles(c, a, 0), 0, |EncodeAll(c, a)|)
  {
    assert buf[0..] == buf;
    TilesDecode(c, buf, 0, a, rest);
  }

  /** A clean segment gives back its records, and nothing in it is skipped. */
  lemma CleanSegment(c: Codec, rs: seq<R.Record>)
    requires GoodCodec(c) && AllFit(rs)
    ensures SegmentSpans(c, EncodeAll(c, rs)) == Tiles(c, rs, 0)
    ensures StatsOf(Tiles(c, rs, 0), |EncodeAll(c, rs)|) == SegmentStats(|rs|, 0, 0)
  {
    var buf, spans := EncodeAll(c, rs), Tiles(c, rs, 0);
    var dec := DecoderOf(c, buf);
    assert buf + [] == buf;
    FrontTiles(c, buf, rs, []);
    DecoderOfIsGood(c, buf);
    ScanTiled(dec, |buf|, spans, 0, |buf|);
    assert spans + [] == spans;
    TiledInside(dec, spans, 0, |buf|);
    CoveredStretch(spans, 0, |buf|);
  }

  /** Records a, a region of arbitrary bytes where whole records used to be, records b. */
  function Damaged(c: Codec, a: seq<R.Record>, junk: seq<byte>, b: seq<R.Record>): seq<byte> {
    EncodeAll(c, a) + (junk + EncodeAll(c, b))
  }

  lemma Behind(buf: seq<byte>, front: seq<byte>, junk: seq<byte>, back: seq<byte>)
    requires buf == front + (junk + back)
    ensures |buf| == |front| + |junk| + |back| && buf[|front| + |junk|..] == back + []
  {
  }

  lemma BackTiles(c: Codec, buf: seq<byte>, front: seq<byte>, junk: seq<byte>, b: seq<R.Record>)
    requires GoodCodec(c) && AllFit(b) && buf == front + (junk + EncodeAll(c, b))
    ensures var e := |front| + |junk|; e <= |buf| && TiledBy(DecoderOf(c, buf), Tiles(c, b, e), e, |buf|)
  {
    Behind(buf, front, junk, EncodeAll(c, b));
    TilesDecode(c, buf, |front| + |junk|, b, []);
  }

  lemma DamagedTiles(c: Codec, a: seq<R.Record>, junk: seq<byte>, b: seq<R.Record>)
    requires GoodCodec(c) && AllFit(a) && AllFit(b)
    ensures var buf := Damaged(c, a, junk, b);
            var from := |EncodeAll(c, a)|; var e := from + |junk|;
            && e <= |buf| && GoodDecoder(DecoderOf(c, buf), |buf|)
            && TiledBy(DecoderOf(c, buf), Tiles(c, a, 0), 0, from)
            && TiledBy(DecoderOf(c, buf), Tiles(c, b, e), e, |buf|)
  {
    var buf := Damaged(c, a, junk, b);
    DecoderOfIsGood(c, buf);
    FrontTiles(c, buf, a, junk + EncodeAll(c, b));
    BackTiles(c, buf, EncodeAll(c, a), junk, b);
  }

  /**
   * Every record before the damaged region is recovered; every record after it is recovered at its original offset
   * exactly when the scan accepts nothing that straddles the region's end.
   */
  lemma DamageContained(c: Codec, a: seq<R.Record>, junk: seq<byte>, b: seq<R.Record>)
    requires GoodCodec(c) && AllFit(a) && AllFit(b)
    ensures var spans := SegmentSpans(c, Damaged(c, a, junk, b));
            var from := |EncodeAll(c, a)|; var e := from + |junk|;
            && Tiles(c, a, 0) <= spans
            && (Recovered(spans, Tiles(c, a, 0), from, e, Tiles(c, b, e)) <==> !Crosses(spans, e))
  {
    var buf, from := Damaged(c, a, junk, b), |EncodeAll(c, a)|;
    DamagedTiles(c, a, junk, b);
    RegionContained(DecoderOf(c, buf), |buf|, Tiles(c, a, 0), from, from + |junk|, Tiles(c, b, from + |junk|));
  }

  /** For that it is enough that nothing starting in the region decodes past its end. */
  lemma DamageContainedIfNothingStraddles(c: Codec, a: seq<R.Record>, junk: seq<byte>, b: seq<R.Record>)
    requires GoodCodec(c) && AllFit(a) && AllFit(b)
    requires NoneDecodesPast(DecoderOf(c, Damaged(c, a, junk, b)), |EncodeAll(c, a)|, |EncodeAll(c, a)| + |junk|)
    ensures var spans := SegmentSpans(c, Damaged(c, a, junk, b));
            var from := |EncodeAll(c, a)|; var e := from + |junk|;
            Recovered(spans, Tiles(c, a, 0), from, e, Tiles(c, b, e))
  {
    var A, B := EncodeAll(c, a), EncodeAll(c, b);
    var buf, from := A + (junk + B), |A|;
    DecoderOfIsGood(c, buf);
    FrontTiles(c, buf, a, junk + B);
    NothingStraddles(DecoderOf(c, buf), |buf|, Tiles(c, a, 0), from, from + |junk|);
    DamageContained(c, a, junk, b);
  }

  /** Cut a clean segment anywhere: every record that is still complete is recovered, first and in place. */
  lemma TruncationKeepsComplete(c: Codec, rs: seq<R.Record>, cut: nat, m: nat)
    requires GoodCodec(c) && AllFit(rs) && m <= |rs|
    requires |EncodeAll(c, rs[..m])| <= cut <= |EncodeAll(c, rs)|
    ensures Tiles(c, rs[..m], 0) <= SegmentSpans(c, EncodeAll(c, rs)[..cut])
  {
    var whole, head := EncodeAll(c, rs), EncodeAll(c, rs[..m]);
    assert rs == rs[..m] + rs[m..];
    EncodeAllAppend(c, rs[..m], rs[m..]);
    var buf, rest := whole[..cut], whole[|head|..cut];
    assert buf == head + rest;
    FrontTiles(c, buf, rs[..m], rest);
    DecoderOfIsGood(c, buf);
    ScanTiled(DecoderOf(c, buf), |buf|, Tiles(c, rs[..m], 0), 0, |head|);
  }
}

/** The stateful frame decoder: per-stream sequence and timestamp must not go backwards. */
module FrameDecoding {
  import opened Bytes
  import opened Crc32c
  import F = FrameCodec

  datatype StreamState = StreamState(lastSequence: u64, lastTimestampNs: u64, seen: bool)

  type History = map<u64, StreamState>

  /** One call: the stream it is for, and what the stateless checks say about its bytes. */
  datatype Event = Event(key: u64, decoded: F.Decoded)

  // ---- specification: one decode, and a whole trace ------------------------------------

  /** The history check on a frame that is valid on its own. */
  function Judge(last: History, key: u64, h: F.FrameHeader): F.Decoded {
    if key in last && last[key].seen && h.sequence < last[key].lastSequence then F.Err(F.SequenceRegression)
    else if key in last && last[key].seen && h.timestampNs < last[key].lastTimestampNs then F.Err(F.TimestampRegression)
    else F.Ok(h)
  }

  function Verdict(last: History, e: Event): F.Decoded {
    match e.decoded
    case Ok(h) => Judge(last, e.key, h)
    case Err(err) => F.Err(err)
  }

  function After(last: History, e: Event): History {
    match Verdict(last, e)
    case Ok(h) => last[e.key := StreamState(h.sequence, h.timestampNs, true)]
    case Err(_) => last
  }

  function Verdicts(last: History, events: seq<Event>): (r: seq<F.Decoded>)
    ensures |r| == |events|
    decreases |events|
  {
    if events == [] then [] else [Verdict(last, events[0])] + Verdicts(After(last, events[0]), events[1..])
  }

  // ---- what holds over every trace ------------------------------------------------------

  /** Once a key has accepted sequence s and timestamp t, nothing older is accepted for it again. */
  lemma {:induction false} NeverBelow(last: History, events: seq<Event>, j: nat, s: u64, t: u64)
    requires j < |events|
    requires var k := events[j].key;
             k in last && last[k].seen && last[k].lastSequence >= s && last[k].lastTimestampNs >= t
    requires Verdicts(last, events)[j].Ok?
    ensures var h := Verdicts(last, events)[j].header; h.sequence >= s && h.timestampNs >= t
    decreases |events|
  {
    if j > 0 {
      NeverBelow(After(last, events[0]), events[1..], j - 1, s, t);
    }
  }

  /** Accepted frames of one key never go back in sequence or time. */
  lemma {:induction false} AcceptedMonotone(last: History, events: seq<Event>, i: nat, j: nat)
    requires i < j < |events| && events[i].key == events[j].key
    requires Verdicts(last, events)[i].Ok? && Verdicts(last, events)[j].Ok?
    ensures var v := Verdicts(last, events);
            v[i].header.sequence <= v[j].header.sequence && v[i].header.timestampNs <= v[j].header.timestampNs
    decreases |events|
  {
    var next := After(last, events[0]);
    if i == 0 {
      var h := Verdict(last, events[0]).header;
      assert Verdicts(last, events)[0] == F.Ok(h);
      NeverBelow(next, events[1..], j - 1, h.sequence, h.timestampNs);
    } else {
      AcceptedMonotone(next, events[1..], i - 1, j - 1);
    }
  }

  /** One of the first n frames was accepted for key k and is newer than h. */
  ghost predicate SawNewer(events: seq<Event>, v: seq<F.Decoded>, n: nat, k: u64, h: F.FrameHeader)
    requires n <= |events| == |v|
  {
    exists i :: 0 <= i < n && events[i].key == k && v[i].Ok?
                && (h.sequence < v[i].header.sequence || h.timestampNs < v[i].header.timestampNs)
  }

  /** The history a key is judged against stands for every frame accepted for it so far. */
  lemma {:induction false} HistoryIsEnough(last: History, events: seq<Event>, j: nat, h: F.FrameHeader)
    requires j < |events| && events[j].decoded == F.Ok(h)
    ensures var v := Verdicts(last, events); var k := events[j].key;
            v[j].Err? <==> SawNewer(events, v, j, k, h) || Judge(last, k, h).Err?
    decreases |events|
  {
    var v := Verdicts(last, events);
    if j > 0 {
      var k, next := events[j].key, After(last, events[0]);
      var rest := Verdicts(next, events[1..]);
      assert forall i :: 0 < i <= j ==> v[i] == rest[i - 1] && events[i] == events[1..][i - 1];
      HistoryIsEnough(next, events[1..], j - 1, h);
      if SawNewer(events[1..], rest, j - 1, k, h) {
        var i :| 0 <= i < j - 1 && events[1..][i].key == k && rest[i].Ok?
                 && (h.sequence < rest[i].header.sequence || h.timestampNs < rest[i].header.timestampNs);
        assert v[i + 1] == rest[i];
      }
    }
  }

  /** A valid frame is rejected exactly when it is older than some frame already accepted for its key. */
  lemma {:induction false} RejectedIffOlder(events: seq<Event>, j: nat, h: F.FrameHeader)
    requires j < |events| && events[j].decoded == F.Ok(h)
    ensures var v := Verdicts(map[], events); v[j].Err? <==> SawNewer(events, v, j, events[j].key, h)
  {
    HistoryIsEnough(map[], events, j, h);
  }

  /** One of the first n frames was accepted for key k with a greater sequence number than h. */
  ghost predicate SawLater(events: seq<Event>, v: seq<F.Decoded>, n: nat, k: u64, h: F.FrameHeader)
    requires n <= |events| == |v|
  {
    exists i :: 0 <= i < n && events[i].key == k && v[i].Ok? && h.sequence < v[i].header.sequence
  }

  lemma {:induction false} SequenceHistoryIsEnough(last: History, events: seq<Event>, j: nat, h: F.FrameHeader)
    requires j < |events| && events[j].decoded == F.Ok(h)
    ensures var v := Verdicts(last, events); var k := events[j].key;
            v[j] == F.Err(F.SequenceRegression)
            <==> SawLater(events, v, j, k, h) || Judge(last, k, h) == F.Err(F.SequenceRegression)
    decreases |events|
  {
    var v := Verdicts(last, events);
    if j > 0 {
      var k, next := events[j].key, After(last, events[0]);
      var rest := Verdicts(next, events[1..]);
      assert forall i :: 0 < i <= j ==> v[i] == rest[i - 1] && events[i] == events[1..][i - 1];
      SequenceHistoryIsEnough(next, events[1..], j - 1, h);
      if SawLater(events[1..], rest, j - 1, k, h) {
        var i :| 0 <= i < j - 1 && events[1..][i].key == k && rest[i].Ok? && h.sequence < rest[i].header.sequence;
        assert v[i + 1] == rest[i];
      }
    }
  }

  /**
   * What a frame is rejected for: a frame that fails on its own keeps its own error, a valid one that some accepted
   * frame of its key is ahead of in sequence has gone back in sequence, and otherwise it can only have gone back in
   * time; an accepted one is handed on as it was decoded.
   */
  lemma {:induction false} VerdictExactly(events: seq<Event>, j: nat)
    requires j < |events|
    ensures var v, e := Verdicts(map[], events), events[j];
            && (e.decoded.Err? ==> v[j] == e.decoded)
            && (e.decoded.Ok? ==>
                  v[j] == if SawLater(events, v, j, e.key, e.decoded.header) then F.Err(F.SequenceRegression)
                          else if SawNewer(events, v, j, e.key, e.decoded.header) then F.Err(F.TimestampRegression)
                          else e.decoded)
  {
    VerdictAt(map[], events, j);
    if events[j].decoded.Ok? {
      HistoryIsEnough(map[], events, j, events[j].decoded.header);
      SequenceHistoryIsEnough(map[], events, j, events[j].decoded.header);
    }
  }

  lemma {:induction false} VerdictAt(last: History, events: seq<Event>, j: nat)
    requires j < |events|
    ensures var v, d := Verdicts(last, events)[j], events[j].decoded;
            v == d || (d.Ok? && (v == F.Err(F.SequenceRegression) || v == F.Err(F.TimestampRegression)))
    decreases |events|
  {
    if j > 0 { VerdictAt(After(last, events[0]), events[1..], j - 1); }
  }

  function OfKey(events: seq<Event>, k: u64): seq<Event> {
    if events == [] then [] else (if events[0].key == k then [events[0]] else []) + OfKey(events[1..], k)
  }

  /** The verdicts given to the frames of key k, in order. */
  function VerdictsOf(events: seq<Event>, v: seq<F.Decoded>, k: u64): seq<F.Decoded>
    requires |events| == |v|
  {
    if events == [] then [] else (if events[0].key == k then [v[0]] else []) + VerdictsOf(events[1..], v[1..], k)
  }

  ghost predicate AgreeAt(a: History, b: History, k: u64) {
    (k in a <==> k in b) && (k in a ==> a[k] == b[k])
  }

  /** What one key sees does not depend on the frames of other keys. */
  lemma {:induction false} KeysIndependent(a: History, b: History, events: seq<Event>, k: u64)
    requires AgreeAt(a, b, k)
    ensures VerdictsOf(events, Verdicts(a, events), k) == Verdicts(b, OfKey(events, k))
    decreases |events|
  {
    if events != [] {
      var e, rest := events[0], OfKey(events[1..], k);
      assert Verdicts(a, events)[1..] == Verdicts(After(a, e), events[1..]);
      if e.key == k {
        KeysIndependent(After(a, e), After(b, e), events[1..], k);
        assert ([e] + rest)[1..] == rest;
      } else {
        KeysIndependent(After(a, e), b, events[1..], k);
        assert OfKey(events, k) == rest;
      }
    }
  }

  // ---- the class -------------------------------------------------------------------------

  class FrameDecoder {
    var last: History

    constructor ()
      ensures last == map[]
    {
      last := map[];
    }

    method Decode(data: seq<byte>, streamKey: u64) returns (r: F.Decoded)
      modifies this
      ensures r == Verdict(old(last), Event(streamKey, F.DecodeHeader(Crc, data)))
      ensures last == After(old(last), Event(streamKey, F.DecodeHeader(Crc, data)))
      ensures r.Err? ==> last == old(last)
      ensures r.Ok? ==>
                last == old(last)[streamKey := StreamState(r.header.sequence, r.header.timestampNs, true)]
    {
      r := F.DecodeHeader(Crc, data);
      if r.Err? {
        return;
      }
      var h := r.header;
      if streamKey !in last {
        last := last[streamKey := StreamState(0, 0, false)];
      }
      var st := last[streamKey];
      if st.seen {
        if h.sequence < st.lastSequence {
          return F.Err(F.SequenceRegression);
        }
        if h.timestampNs < st.lastTimestampNs {
          return F.Err(F.TimestampRegression);
        }
      }
      last := last[streamKey := StreamState(h.sequence, h.timestampNs, true)];
    }

    method Reset()
      modifies this
      ensures last == map[]
    {
      last := map[];
    }
  }
}

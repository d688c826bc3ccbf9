/**
 * The seqlock: the class run by one thread at a time, and a step system in which one writer's and any number of
 * readers' accesses interleave, each access to the counter or to one byte being a step.
 */
module Seqlocks {
  import opened Bytes

  class Seqlock {
    var sequence: nat
    const data: array<byte>

    ghost function Contents(): seq<byte>
      reads data
    {
      data[..]
    }

    constructor (initial: seq<byte>)
      ensures fresh(data) && sequence == 0 && Contents() == initial
    {
      sequence := 0;
      data := new byte[|initial|](_ => 0);
      new;
      WriteRelaxed(initial);
    }

    method WriteRelaxed(v: seq<byte>)
      requires |v| == data.Length
      modifies data
      ensures Contents() == v
    {
      for i := 0 to data.Length
        invariant data[..i] == v[..i]
      {
        data[i] := v[i];
      }
    }

    method ReadRelaxed() returns (out: seq<byte>)
      ensures out == Contents()
    {
      out := [];
      for i := 0 to data.Length
        invariant out == data[..i]
      {
        out := out + [data[i]];
      }
    }

    method Store(desired: seq<byte>)
      requires |desired| == data.Length
      modifies this, data
      ensures Contents() == desired && sequence == old(sequence) + 2
    {
      var s := sequence;
      sequence := s + 1;
      WriteRelaxed(desired);
      sequence := s + 2;
    }

    /**
     * One pass of the retry loop of load, with nothing running beside it: it fails only while a store is in progress.
     */
    method TryLoad() returns (r: Option<seq<byte>>)
      ensures r == if sequence % 2 == 1 then None else Some(Contents())
    {
      var seq0 := sequence;
      if seq0 % 2 == 1 {
        return None;
      }
      var out := ReadRelaxed();
      var seq1 := sequence;
      r := if seq0 == seq1 then Some(out) else None;
    }
  }

  // ---- interleavings ---------------------------------------------------------------------

  type Value = seq<byte>

  datatype Writer =
    | Resting
    /** The counter is odd and the first `next` bytes have been stored. */
    | Storing(desired: Value, next: nat)

  /** began: how many stores had completed when the call to load started. */
  datatype Reader =
    | NotLoading
    | Retrying(began: nat)
    | Reading(began: nat, seq0: nat, copied: seq<byte>)
    | Returned(began: nat, value: Value)

  /** published holds the initial value and then every completed store's. */
  datatype State = State(sequence: nat, data: Value, writer: Writer, readers: seq<Reader>, published: seq<Value>)

  datatype Action =
    | BeginStore(desired: Value)
    | StoreByte
    | EndStore
    | BeginLoad(r: nat)
    | LoadSequence(r: nat)
    | LoadByte(r: nat)
    | Recheck(r: nat)

  function Init(initial: Value, readerCount: nat): State {
    State(0, initial, Resting, seq(readerCount, _ => NotLoading), [initial])
  }

  function Current(s: State): Value
    requires s.published != []
  {
    s.published[|s.published| - 1]
  }

  /** A step of the writer. An action that is not enabled changes nothing. */
  function WriterStep(s: State, a: Action): State {
    match (a, s.writer)
    case (BeginStore(v), Resting) =>
      if |v| == |s.data| then s.(sequence := s.sequence + 1, writer := Storing(v, 0)) else s
    case (StoreByte, Storing(v, i)) =>
      if i < |s.data| && i < |v| then s.(data := s.data[i := v[i]], writer := Storing(v, i + 1)) else s
    case (EndStore, Storing(v, i)) =>
      if i == |s.data| then s.(sequence := s.sequence + 1, writer := Resting, published := s.published + [v]) else s
    case _ => s
  }

  /** A step of one reader's call to load. */
  function ReaderStep(s: State, reader: Reader, a: Action): Reader
    requires s.published != []
  {
    match (a, reader)
    case (BeginLoad(_), NotLoading) => Retrying(|s.published| - 1)
    case (BeginLoad(_), Returned(_, _)) => Retrying(|s.published| - 1)
    case (LoadSequence(_), Retrying(b)) => if s.sequence % 2 == 1 then reader else Reading(b, s.sequence, [])
    case (LoadByte(_), Reading(b, seq0, c)) => if |c| < |s.data| then Reading(b, seq0, c + [s.data[|c|]]) else reader
    case (Recheck(_), Reading(b, seq0, c)) =>
      if |c| < |s.data| then reader else if s.sequence == seq0 then Returned(b, c) else Retrying(b)
    case _ => reader
  }

  function Step(s: State, a: Action): State
    requires s.published != []
  {
    if a.BeginStore? || a.StoreByte? || a.EndStore? then WriterStep(s, a)
    else if a.r < |s.readers| then s.(readers := s.readers[a.r := ReaderStep(s, s.readers[a.r], a)])
    else s
  }

  function Exec(s: State, actions: seq<Action>): (t: State)
    requires s.published != []
    ensures t.published != []
    decreases |actions|
  {
    if actions == [] then s else Step(Exec(s, actions[..|actions| - 1]), actions[|actions| - 1])
  }

  ghost predicate WriterInv(s: State) {
    && s.published != []
    && (forall v :: v in s.published ==> |v| == |s.data|)
    && s.sequence == 2 * (|s.published| - 1) + (if s.writer.Storing? then 1 else 0)
    && match s.writer
       case Resting => s.data == Current(s)
       case Storing(v, i) => |v| == |s.data| && i <= |v| && s.data == v[..i] + Current(s)[i..]
  }

  /** What a reader holds: as long as the counter has not moved, a prefix of the published value. */
  ghost predicate ReaderInv(s: State, reader: Reader)
    requires s.published != []
  {
    match reader
    case NotLoading => true
    case Retrying(b) => b < |s.published|
    case Reading(b, seq0, c) =>
      && b < |s.published| && seq0 % 2 == 0 && 2 * b <= seq0 <= s.sequence && |c| <= |s.data|
      && (seq0 == s.sequence ==> |Current(s)| == |s.data| && c == Current(s)[..|c|])
    case Returned(b, v) => exists k :: b <= k < |s.published| && v == s.published[k]
  }

  ghost predicate Inv(s: State) {
    WriterInv(s) && forall r :: 0 <= r < |s.readers| ==> ReaderInv(s, s.readers[r])
  }

  lemma WriterKeeps(s: State, a: Action)
    requires WriterInv(s)
    ensures WriterInv(WriterStep(s, a))
  {
    var t := WriterStep(s, a);
    match (a, s.writer)
    case (StoreByte, Storing(v, i)) =>
      if i < |v| { assert t.data == v[..i + 1] + Current(s)[i + 1..]; }
    case (EndStore, Storing(v, i)) =>
      if i == |s.data| { assert t.data == v; }
    case _ =>
  }

  lemma ReadersUnderWriter(s: State, a: Action, reader: Reader)
    requires WriterInv(s) && ReaderInv(s, reader)
    ensures WriterStep(s, a).published != [] && ReaderInv(WriterStep(s, a), reader)
  {
    var t := WriterStep(s, a);
    if reader.Returned? {
      var k :| reader.began <= k < |s.published| && reader.value == s.published[k];
      assert reader.value == t.published[k];
    }
  }

  lemma ReaderKeeps(s: State, a: Action, reader: Reader)
    requires WriterInv(s) && ReaderInv(s, reader)
    ensures ReaderInv(s, ReaderStep(s, reader, a))
  {
    var after := ReaderStep(s, reader, a);
    if reader.Reading? && a.LoadByte? && |reader.copied| < |s.data| && reader.seq0 == s.sequence {
      assert s.writer.Resting?;
      assert after.copied == Current(s)[..|after.copied|];
    }
    if reader.Reading? && after.Returned? {
      assert after.value == Current(s) == s.published[|s.published| - 1];
    }
  }

  lemma WriterStepKeeps(s: State, a: Action)
    requires Inv(s)
    ensures Inv(WriterStep(s, a))
  {
    var t := WriterStep(s, a);
    WriterKeeps(s, a);
    assert t.readers == s.readers;
    forall r | 0 <= r < |t.readers| ensures ReaderInv(t, t.readers[r]) { ReadersUnderWriter(s, a, s.readers[r]); }
  }

  lemma ReaderMoved(s: State, r: nat, reader: Reader)
    requires Inv(s) && r < |s.readers| && ReaderInv(s, reader)
    ensures Inv(s.(readers := s.readers[r := reader]))
  {
    var t := s.(readers := s.readers[r := reader]);
    forall i | 0 <= i < |t.readers| ensures ReaderInv(t, t.readers[i]) { SameInv(s, t, t.readers[i]); }
  }

  /** What a reader holds depends on nothing of the other readers. */
  lemma SameInv(s: State, t: State, reader: Reader)
    requires s.published != [] && t == s.(readers := t.readers)
    ensures ReaderInv(s, reader) <==> ReaderInv(t, reader)
  {
  }

  lemma {:induction false} RunKeeps(initial: Value, readerCount: nat, actions: seq<Action>)
    ensures Inv(Exec(Init(initial, readerCount), actions))
    decreases |actions|
  {
    if actions != [] {
      var before, a := actions[..|actions| - 1], actions[|actions| - 1];
      var s := Exec(Init(initial, readerCount), before);
      RunKeeps(initial, readerCount, before);
      if ByWriter(a) {
        WriterStepKeeps(s, a);
      } else if a.r < |s.readers| {
        ReaderKeeps(s, a, s.readers[a.r]);
        ReaderMoved(s, a.r, ReaderStep(s, s.readers[a.r], a));
      }
    }
  }

  /** A recheck that succeeds hands back the value that is published at that moment. */
  lemma RecheckReturnsCurrent(s: State, r: nat)
    requires Inv(s) && r < |s.readers| && s.readers[r].Reading?
    ensures var t := Step(s, Recheck(r)).readers[r];
            t.Returned? ==> s.writer.Resting? && t.value == Current(s) && t.began == s.readers[r].began
  {
    assert ReaderInv(s, s.readers[r]);
  }

  lemma {:induction false} ReaderCountKept(initial: Value, readerCount: nat, actions: seq<Action>)
    ensures |Exec(Init(initial, readerCount), actions).readers| == readerCount
    decreases |actions|
  {
    if actions != [] { ReaderCountKept(initial, readerCount, actions[..|actions| - 1]); }
  }

  /** A step publishes at most one value, the one being stored, after all the others. */
  lemma PublishedGrows(s: State, a: Action)
    requires s.published != []
    ensures var t := Step(s, a);
            t.published == s.published
            || (a.EndStore? && s.writer.Storing? && t.published == s.published + [s.writer.desired])
  {
  }

  /** Over any run, what has been published stays published, in order. */
  lemma {:induction false} PublishedStays(s: State, actions: seq<Action>)
    requires s.published != []
    ensures s.published <= Exec(s, actions).published
    decreases |actions|
  {
    if actions != [] {
      var before := actions[..|actions| - 1];
      PublishedStays(s, before);
      PublishedGrows(Exec(s, before), actions[|actions| - 1]);
    }
  }

  // ---- what the actions alone say ------------------------------------------------------------

  predicate ByWriter(a: Action) { a.BeginStore? || a.StoreByte? || a.EndStore? }

  predicate ByReader(a: Action, r: nat) { !ByWriter(a) && a.r == r }

  /** The actions that are the writer's, in order. */
  function WriterActions(actions: seq<Action>): seq<Action>
    decreases |actions|
  {
    if actions == [] then []
    else
      var last := actions[|actions| - 1];
      WriterActions(actions[..|actions| - 1]) + if ByWriter(last) then [last] else []
  }

  /** The actions that are reader r's. */
  function ReaderActions(actions: seq<Action>, r: nat): seq<Action>
    decreases |actions|
  {
    if actions == [] then []
    else
      var last := actions[|actions| - 1];
      ReaderActions(actions[..|actions| - 1], r) + if ByReader(last, r) then [last] else []
  }

  /** A call to store v, up to its first k bytes. */
  function StoreActions(v: Value, k: nat): seq<Action> { [BeginStore(v)] + seq(k, _ => StoreByte) }

  lemma StoringMore(v: Value, k: nat)
    requires k > 0
    ensures StoreActions(v, k) == StoreActions(v, k - 1) + [StoreByte]
  {
  }

  lemma {:induction false} NoWriter(s: State, actions: seq<Action>)
    requires s.published != [] && WriterActions(actions) == []
    ensures Exec(s, actions) == s.(readers := Exec(s, actions).readers)
    decreases |actions|
  {
    if actions != [] { NoWriter(s, actions[..|actions| - 1]); }
  }

  /** k bytes into a store, whatever readers do meanwhile. */
  lemma {:induction false} PartlyStored(s: State, v: Value, actions: seq<Action>, k: nat)
    requires s.published != [] && s.writer == Resting && k <= |v| == |s.data|
    requires WriterActions(actions) == StoreActions(v, k)
    ensures var t := Exec(s, actions);
            && t.writer == Writer.Storing(v, k) && t.data == v[..k] + s.data[k..]
            && t.published == s.published && t.sequence == s.sequence + 1
    decreases |actions|
  {
    var before, last := actions[..|actions| - 1], actions[|actions| - 1];
    if !ByWriter(last) {
      PartlyStored(s, v, before, k);
    } else if k == 0 {
      LastOf(WriterActions(before), [], last, BeginStore(v));
      NoWriter(s, before);
    } else {
      StoringMore(v, k);
      LastOf(WriterActions(before), StoreActions(v, k - 1), last, StoreByte);
      PartlyStored(s, v, before, k - 1);
    }
  }

  lemma LastOf(a: seq<Action>, b: seq<Action>, x: Action, y: Action)
    requires a + [x] == b + [y]
    ensures a == b && x == y
  {
    assert (a + [x])[..|a|] == a && (b + [y])[..|b|] == b;
    assert (a + [x])[|a|] == x && (b + [y])[|b|] == y;
  }

  /** A store that runs to its end publishes exactly the value it was called with, whatever readers do meanwhile. */
  lemma {:induction false} StoreTakes(s: State, v: Value, actions: seq<Action>)
    requires s.published != [] && s.writer == Resting && |v| == |s.data|
    requires WriterActions(actions) == StoreActions(v, |v|) + [EndStore]
    ensures var t := Exec(s, actions);
            && t.writer == Resting && t.data == v && t.published == s.published + [v] && t.sequence == s.sequence + 2
    decreases |actions|
  {
    var before, last := actions[..|actions| - 1], actions[|actions| - 1];
    if ByWriter(last) {
      LastOf(WriterActions(before), StoreActions(v, |v|), last, EndStore);
      PartlyStored(s, v, before, |v|);
    } else {
      StoreTakes(s, v, before);
    }
  }

  /** How many bytes the actions store. */
  function BytesStored(actions: seq<Action>): nat
    decreases |actions|
  {
    if actions == [] then 0
    else BytesStored(actions[..|actions| - 1]) + if actions[|actions| - 1] == StoreByte then 1 else 0
  }

  ghost predicate StoreBegun(actions: seq<Action>, v: Value, n: nat) {
    exists i :: 0 <= i < |actions| && actions[i] == BeginStore(v) && BytesStored(actions[i..]) >= n
  }

  /** A call to store v, as many byte stores as v has bytes behind it, and the end of a store behind those. */
  ghost predicate CompletedStore(actions: seq<Action>, v: Value) {
    exists j :: 0 <= j < |actions| && actions[j] == EndStore && StoreBegun(actions[..j], v, |v|)
  }

  lemma BegunStays(actions: seq<Action>, a: Action, v: Value, n: nat)
    requires StoreBegun(actions, v, n)
    ensures StoreBegun(actions + [a], v, if a == StoreByte then n + 1 else n)
  {
    var i :| 0 <= i < |actions| && actions[i] == BeginStore(v) && BytesStored(actions[i..]) >= n;
    var more := actions + [a];
    assert more[i..] == actions[i..] + [a];
    assert more[i..][..|more[i..]| - 1] == actions[i..];
  }

  lemma CompletedStays(actions: seq<Action>, a: Action, v: Value)
    requires CompletedStore(actions, v)
    ensures CompletedStore(actions + [a], v)
  {
    var j :| 0 <= j < |actions| && actions[j] == EndStore && StoreBegun(actions[..j], v, |v|);
    assert (actions + [a])[..j] == actions[..j];
  }

  lemma BeginsNow(actions: seq<Action>, v: Value)
    ensures StoreBegun(actions + [BeginStore(v)], v, 0)
  {
    assert (actions + [BeginStore(v)])[|actions|] == BeginStore(v);
  }

  lemma CompletesNow(actions: seq<Action>, v: Value)
    requires StoreBegun(actions, v, |v|)
    ensures CompletedStore(actions + [EndStore], v)
  {
    assert (actions + [EndStore])[..|actions|] == actions;
  }

  /** Every value ever published is the initial one or was stored by a call among the actions. */
  lemma {:induction false} PublishedWereStored(initial: Value, readerCount: nat, actions: seq<Action>)
    ensures var s := Exec(Init(initial, readerCount), actions);
            && s.published[0] == initial
            && (forall k :: 0 < k < |s.published| ==> CompletedStore(actions, s.published[k]))
            && (s.writer.Storing? ==> StoreBegun(actions, s.writer.desired, s.writer.next))
    decreases |actions|
  {
    if actions != [] {
      var before, a := actions[..|actions| - 1], actions[|actions| - 1];
      var s := Exec(Init(initial, readerCount), before);
      PublishedWereStored(initial, readerCount, before);
      RunKeeps(initial, readerCount, before);
      StoredStep(s, before, a);
      assert actions == before + [a];
    }
  }

  lemma StoredStep(s: State, before: seq<Action>, a: Action)
    requires Inv(s) && (forall k :: 0 < k < |s.published| ==> CompletedStore(before, s.published[k]))
    requires s.writer.Storing? ==> StoreBegun(before, s.writer.desired, s.writer.next)
    ensures var t := Step(s, a);
            && t.published[0] == s.published[0]
            && (forall k :: 0 < k < |t.published| ==> CompletedStore(before + [a], t.published[k]))
            && (t.writer.Storing? ==> StoreBegun(before + [a], t.writer.desired, t.writer.next))
  {
    forall k | 0 < k < |s.published| ensures CompletedStore(before + [a], s.published[k]) {
      CompletedStays(before, a, s.published[k]);
    }
    if s.writer.Storing? {
      BegunStays(before, a, s.writer.desired, s.writer.next);
      if a == EndStore && s.writer.next == |s.data| { CompletesNow(before, s.writer.desired); }
    } else if a.BeginStore? {
      BeginsNow(before, a.desired);
    }
  }

  /**
   * No load is torn: in every interleaving, what a load has handed back is the initial value or the whole argument of
   * a store that the actions call and complete, no older than the last one completed when the load began, and it was
   * the value published at the moment the load returned.
   */
  lemma NoTornLoad(initial: Value, readerCount: nat, actions: seq<Action>, r: nat)
    requires r < readerCount
    ensures var s := Exec(Init(initial, readerCount), actions);
            && |s.readers| == readerCount
            && (s.readers[r].Returned? ==>
                  exists k :: s.readers[r].began <= k < |s.published| && s.readers[r].value == s.published[k])
            && (s.readers[r].Returned? ==>
                  s.readers[r].value == initial || CompletedStore(actions, s.readers[r].value))
            && (s.readers[r].Reading? ==>
                  var t := Step(s, Recheck(r)).readers[r];
                  t.Returned? ==> s.writer.Resting? && t.value == Current(s))
  {
    var s := Exec(Init(initial, readerCount), actions);
    RunKeeps(initial, readerCount, actions);
    ReaderCountKept(initial, readerCount, actions);
    PublishedWereStored(initial, readerCount, actions);
    assert ReaderInv(s, s.readers[r]);
    if s.readers[r].Reading? { RecheckReturnsCurrent(s, r); }
  }

  lemma {:induction false} BeganStays(s: State, actions: seq<Action>, r: nat, began: nat)
    requires s.published != [] && r < |s.readers|
    requires s.readers[r] != NotLoading && s.readers[r].began == began
    requires BeginLoad(r) !in actions
    ensures var t := Exec(s, actions);
            |t.readers| == |s.readers| && t.readers[r] != NotLoading && t.readers[r].began == began
    decreases |actions|
  {
    if actions != [] { BeganStays(s, actions[..|actions| - 1], r, began); }
  }

  lemma {:induction false} ExecAppend(s: State, a: seq<Action>, b: seq<Action>)
    requires s.published != []
    ensures Exec(s, a + b) == Exec(Exec(s, a), b)
    decreases |b|
  {
    if b == [] {
      assert a + b == a;
    } else {
      ExecAppend(s, a, b[..|b| - 1]);
      assert (a + b)[..|a + b| - 1] == a + b[..|b| - 1];
    }
  }

  /** What a load hands back was published when the load began or later. */
  lemma LoadIsFresh(initial: Value, readerCount: nat, before: seq<Action>, r: nat, after: seq<Action>)
    requires r < readerCount && BeginLoad(r) !in after
    requires var c := Exec(Init(initial, readerCount), before).readers;
             r < |c| && (c[r].NotLoading? || c[r].Returned?)
    ensures var s, t := Exec(Init(initial, readerCount), before),
                        Exec(Init(initial, readerCount), before + [BeginLoad(r)] + after);
            && r < |t.readers| && s.published <= t.published
            && (t.readers[r].Returned? ==>
                  exists k :: |s.published| - 1 <= k < |t.published| && t.readers[r].value == t.published[k])
  {
    var init := Init(initial, readerCount);
    var s, mid := Exec(init, before), Exec(init, before + [BeginLoad(r)]);
    assert (before + [BeginLoad(r)])[..|before|] == before;
    ExecAppend(init, before + [BeginLoad(r)], after);
    PublishedStays(mid, after);
    BeganStays(mid, after, r, |s.published| - 1);
    NoTornLoad(initial, readerCount, before + [BeginLoad(r)] + after, r);
  }

  // ---- a load left alone by the writer --------------------------------------------------------

  function LoadActions(r: nat, k: nat): seq<Action> { [BeginLoad(r), LoadSequence(r)] + seq(k, _ => LoadByte(r)) }

  lemma LoadingMore(r: nat, k: nat)
    requires k > 0
    ensures LoadActions(r, k) == LoadActions(r, k - 1) + [LoadByte(r)]
  {
  }

  lemma {:induction false} NoReader(s: State, actions: seq<Action>, r: nat)
    requires s.published != [] && r < |s.readers| && ReaderActions(actions, r) == []
    ensures var t := Exec(s, actions); |t.readers| == |s.readers| && t.readers[r] == s.readers[r]
    decreases |actions|
  {
    if actions != [] { NoReader(s, actions[..|actions| - 1], r); }
  }

  lemma {:induction false} LoadBegins(s: State, actions: seq<Action>, r: nat)
    requires s.published != [] && r < |s.readers| && (s.readers[r].NotLoading? || s.readers[r].Returned?)
    requires WriterActions(actions) == [] && ReaderActions(actions, r) == [BeginLoad(r)]
    ensures var t := Exec(s, actions); |t.readers| == |s.readers| && t.readers[r].Retrying?
    decreases |actions|
  {
    var before, last := actions[..|actions| - 1], actions[|actions| - 1];
    NoWriter(s, before);
    if ByReader(last, r) {
      LastOf(ReaderActions(before, r), [], last, BeginLoad(r));
      NoReader(s, before, r);
    } else {
      LoadBegins(s, before, r);
    }
  }

  lemma {:induction false} PartlyLoaded(s: State, actions: seq<Action>, r: nat, k: nat)
    requires s.published != [] && s.sequence % 2 == 0 && r < |s.readers|
    requires s.readers[r].NotLoading? || s.readers[r].Returned?
    requires WriterActions(actions) == [] && ReaderActions(actions, r) == LoadActions(r, k) && k <= |s.data|
    ensures var t := Exec(s, actions);
            && |t.readers| == |s.readers| && t.readers[r].Reading?
            && t.readers[r].seq0 == s.sequence && t.readers[r].copied == s.data[..k]
    decreases |actions|
  {
    var before, last := actions[..|actions| - 1], actions[|actions| - 1];
    NoWriter(s, before);
    if !ByReader(last, r) {
      PartlyLoaded(s, before, r, k);
    } else if k == 0 {
      assert LoadActions(r, 0) == [BeginLoad(r)] + [LoadSequence(r)];
      LastOf(ReaderActions(before, r), [BeginLoad(r)], last, LoadSequence(r));
      LoadBegins(s, before, r);
    } else {
      LoadingMore(r, k);
      LastOf(ReaderActions(before, r), LoadActions(r, k - 1), last, LoadByte(r));
      PartlyLoaded(s, before, r, k - 1);
    }
  }

  /** A load that no store disturbs hands back the published value at its first attempt. */
  lemma {:induction false} LoadSucceeds(s: State, actions: seq<Action>, r: nat)
    requires Inv(s) && s.writer.Resting? && r < |s.readers| && (s.readers[r].NotLoading? || s.readers[r].Returned?)
    requires WriterActions(actions) == []
    requires ReaderActions(actions, r) == LoadActions(r, |s.data|) + [Recheck(r)]
    ensures var t := Exec(s, actions);
            |t.readers| == |s.readers| && t.readers[r].Returned? && t.readers[r].value == Current(s) == s.data
    decreases |actions|
  {
    var before, last := actions[..|actions| - 1], actions[|actions| - 1];
    NoWriter(s, before);
    if ByReader(last, r) {
      LastOf(ReaderActions(before, r), LoadActions(r, |s.data|), last, Recheck(r));
      PartlyLoaded(s, before, r, |s.data|);
      assert s.data[..|s.data|] == s.data;
    } else {
      LoadSucceeds(s, before, r);
    }
  }

  /** A load called after a store has completed, with no other store called since, hands back that store's argument. */
  lemma StoreThenLoad(initial: Value, readerCount: nat, v: Value, store: seq<Action>, load: seq<Action>, r: nat)
    requires r < readerCount && |v| == |initial|
    requires WriterActions(store) == StoreActions(v, |v|) + [EndStore] && ReaderActions(store, r) == []
    requires WriterActions(load) == [] && ReaderActions(load, r) == LoadActions(r, |v|) + [Recheck(r)]
    ensures var readers := Exec(Init(initial, readerCount), store + load).readers;
            |readers| == readerCount && readers[r].Returned? && readers[r].value == v
  {
    var init := Init(initial, readerCount);
    var mid := Exec(init, store);
    StoreTakes(init, v, store);
    NoReader(init, store, r);
    RunKeeps(initial, readerCount, store);
    ExecAppend(init, store, load);
    LoadSucceeds(mid, load, r);
  }
}

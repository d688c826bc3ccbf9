/**
 * The seqlock over the weak memory. Location 0 is the counter, location i + 1 is byte i. The program is parameterised
 * by which of its fences it has.
 */
module SeqlockViews {
  import opened Bytes
  import opened WeakMemory

  // ---- the program ---------------------------------------------------------------------------

  type Value = seq<byte>

  /** The fences of store, before and after the byte stores, and the fence of load. */
  datatype Fences = Fences(beforeBytes: bool, afterBytes: bool, inLoad: bool)

  datatype Writer =
    | Resting
    | Odd(desired: Value)
    | Copying(desired: Value, next: nat)
    | Copied(desired: Value)

  /**
   * floor: the counter value the reader had already seen when load was called. from: the messages the bytes came
   * from.
   */
  datatype Reader =
    | NotLoading
    | Retrying(floor: nat)
    | Reading(floor: nat, seq0: nat, copied: Value, from: seq<nat>)
    | Fenced(floor: nat, seq0: nat, copied: Value, from: seq<nat>)
    | Returned(floor: nat, seq0: nat, value: Value)

  datatype Loader = Loader(thread: Thread, pc: Reader)

  /** stores: the initial value and then every store begun so far. */
  datatype State = State(mem: Memory, writer: Thread, pc: Writer, loaders: seq<Loader>, stores: seq<Value>)

  datatype Action =
    | BeginStore(desired: Value)
    | FenceBefore
    | StoreByte
    | FenceAfter
    | EndStore
    | BeginLoad(r: nat)
    | LoadSequence(r: nat, t: nat)
    | LoadByte(r: nat, t: nat)
    | FenceInLoad(r: nat)
    | Recheck(r: nat, t: nat)

  /** The constructor's stores happen before every access of every thread. */
  function Init(initial: Value, readerCount: nat): State {
    var zero := Zeros(|initial| + 1);
    var th := Thread(zero, zero, zero);
    State(seq(|initial| + 1, l requires 0 <= l <= |initial| => [Message(if l == 0 then 0 else initial[l - 1], zero)]),
          th, Resting, seq(readerCount, _ => Loader(th, NotLoading)), [initial])
  }

  function ByteCount(s: State): nat {
    if |s.mem| == 0 then 0 else |s.mem| - 1
  }

  predicate Sized(s: State) {
    |s.mem| > 0 && |s.writer.cur| == |s.writer.acq| == |s.writer.rel| == |s.mem|
  }

  function WriterStep(f: Fences, s: State, a: Action): State
    requires Sized(s)
  {
    match (a, s.pc)
    case (BeginStore(v), Resting) =>
      if |v| != ByteCount(s) then s
      else s.(mem := Stored(s.mem, 0, |s.mem[0]|, s.writer.rel), writer := AfterStore(s.mem, s.writer, 0),
              pc := Odd(v), stores := s.stores + [v])
    case (FenceBefore, Odd(v)) =>
      s.(writer := if f.beforeBytes then ReleaseFence(s.writer) else s.writer, pc := Copying(v, 0))
    case (StoreByte, Copying(v, i)) =>
      if i >= |v| || i >= ByteCount(s) then s
      else s.(mem := Stored(s.mem, i + 1, v[i], s.writer.rel), writer := AfterStore(s.mem, s.writer, i + 1),
              pc := Copying(v, i + 1))
    case (FenceAfter, Copying(v, i)) =>
      if i < ByteCount(s) then s
      else s.(writer := if f.afterBytes then ReleaseFence(s.writer) else s.writer, pc := Copied(v))
    case (EndStore, Copied(v)) =>
      s.(mem := Stored(s.mem, 0, |s.mem[0]|, s.writer.cur), writer := AfterStore(s.mem, s.writer, 0), pc := Resting)
    case _ => s
  }

  /** A load picks the message to read. A pick that coherence rules out, like an action out of turn, changes nothing. */
  function LoaderStep(f: Fences, mem: Memory, l: Loader, a: Action): Loader {
    var th := l.thread;
    match (a, l.pc)
    case (BeginLoad(_), NotLoading) => if |th.cur| > 0 then l.(pc := Retrying(th.cur[0])) else l
    case (BeginLoad(_), Returned(_, _, _)) => if |th.cur| > 0 then l.(pc := Retrying(th.cur[0])) else l
    case (LoadSequence(_, t), Retrying(floor)) =>
      if !Readable(mem, th, 0, t) then l
      else
        var seq0 := mem[0][t].value;
        Loader(AcquireLoad(mem, th, 0, t), if seq0 % 2 == 1 then Retrying(floor) else Reading(floor, seq0, [], []))
    case (LoadByte(_, t), Reading(floor, seq0, c, from)) =>
      var i := |c| + 1;
      if !Readable(mem, th, i, t) || mem[i][t].value > 0xFF then l
      else Loader(RelaxedLoad(mem, th, i, t), Reading(floor, seq0, c + [mem[i][t].value], from + [t]))
    case (FenceInLoad(_), Reading(floor, seq0, c, from)) =>
      if |c| + 1 < |mem| then l
      else Loader(if f.inLoad then AcquireFence(th) else th, Fenced(floor, seq0, c, from))
    case (Recheck(_, t), Fenced(floor, seq0, c, from)) =>
      if !Readable(mem, th, 0, t) then l
      else
        var seq1 := mem[0][t].value;
        Loader(RelaxedLoad(mem, th, 0, t), if seq0 == seq1 then Returned(floor, seq0, c) else Retrying(floor))
    case _ => l
  }

  predicate ByWriter(a: Action) { a.BeginStore? || a.FenceBefore? || a.StoreByte? || a.FenceAfter? || a.EndStore? }

  function Step(f: Fences, s: State, a: Action): (t: State)
    requires Sized(s)
    ensures Sized(t) && |t.loaders| == |s.loaders|
  {
    if ByWriter(a) then WriterStep(f, s, a)
    else if a.r < |s.loaders| then s.(loaders := s.loaders[a.r := LoaderStep(f, s.mem, s.loaders[a.r], a)])
    else s
  }

  function Exec(f: Fences, s: State, actions: seq<Action>): (t: State)
    requires Sized(s)
    ensures Sized(t) && |t.loaders| == |s.loaders|
    decreases |actions|
  {
    if actions == [] then s else Step(f, Exec(f, s, actions[..|actions| - 1]), actions[|actions| - 1])
  }

  /**
   * The memory orders of store: the odd counter and the bytes are relaxed stores, which publish what was seen before
   * the last release fence, and the even counter is a release store, which publishes all that was seen.
   */
  lemma StoreOrders(f: Fences, s: State)
    requires Sized(s) && |s.mem[0]| > 0
    ensures var t := WriterStep(f, s, BeginStore(seq(ByteCount(s), _ => 0)));
            s.pc.Resting? ==> t.mem[0] == s.mem[0] + [Message(|s.mem[0]|, s.writer.rel[0 := |s.mem[0]|])]
    ensures var t := WriterStep(f, s, FenceBefore);
            s.pc.Odd? ==> t.mem == s.mem && t.writer.rel == if f.beforeBytes then s.writer.cur else s.writer.rel
    ensures var t := WriterStep(f, s, StoreByte);
            s.pc.Copying? && s.pc.next < ByteCount(s) == |s.pc.desired| ==>
              var l := s.pc.next + 1;
              t.mem[l] == s.mem[l] + [Message(s.pc.desired[l - 1], s.writer.rel[l := |s.mem[l]|])]
    ensures var t := WriterStep(f, s, EndStore);
            s.pc.Copied? ==> t.mem[0] == s.mem[0] + [Message(|s.mem[0]|, s.writer.cur[0 := |s.mem[0]|])]
  {
  }

  function Later(a: nat, b: nat): nat { if a < b then b else a }

  /**
   * The memory orders of load: the first counter read acquires all that its message carries, the bytes and the second
   * counter read are relaxed and leave that to the fence between them.
   */
  lemma LoadOrders(f: Fences, mem: Memory, l: Loader, t: nat)
    requires |l.thread.cur| == |l.thread.acq| == |mem| > 0
    ensures l.pc.Retrying? && Readable(mem, l.thread, 0, t) ==>
              var th := LoaderStep(f, mem, l, LoadSequence(0, t)).thread;
              |th.cur| == |mem| && forall k :: 0 <= k < |mem| ==> th.cur[k] == Later(l.thread.cur[k], mem[0][t].view[k])
    ensures l.pc.Reading? && Readable(mem, l.thread, |l.pc.copied| + 1, t)
            && mem[|l.pc.copied| + 1][t].value <= 0xFF ==>
              var i, th := |l.pc.copied| + 1, LoaderStep(f, mem, l, LoadByte(0, t)).thread;
              && th.cur == l.thread.cur[i := t] && |th.acq| == |mem|
              && forall k :: 0 <= k < |mem| ==> th.acq[k] == Later(l.thread.acq[k], mem[i][t].view[k])
    ensures l.pc.Reading? && |l.pc.copied| + 1 >= |mem| ==>
              var th := LoaderStep(f, mem, l, FenceInLoad(0)).thread;
              && |th.cur| == |mem|
              && forall k :: 0 <= k < |mem| ==>
                   th.cur[k] == if f.inLoad then Later(l.thread.cur[k], l.thread.acq[k]) else l.thread.cur[k]
    ensures l.pc.Fenced? && Readable(mem, l.thread, 0, t) ==>
              LoaderStep(f, mem, l, Recheck(0, t)).thread.cur == l.thread.cur[0 := t]
  {
  }

  // ---- the invariant -------------------------------------------------------------------------

  /** An even counter message carries the bytes of the store it closes. */
  ghost predicate CounterMessage(m: Message, t: nat, size: nat) {
    && m.value == t && |m.view| == size && size > 0 && m.view[0] == t
    && (t % 2 == 0 ==> forall l :: 0 < l < size ==> m.view[l] >= t / 2)
  }

  /** A byte of store k carries the odd counter message of store k. */
  ghost predicate ByteMessage(m: Message, k: nat, l: nat, size: nat, stores: seq<Value>) {
    && |m.view| == size && size > 0 && m.view[0] + 1 >= 2 * k
    && k < |stores| && 0 < l <= |stores[k]| && m.value == stores[k][l - 1]
  }

  ghost predicate MemoryInv(s: State) {
    && |s.mem| > 0
    && (forall v :: v in s.stores ==> |v| + 1 == |s.mem|)
    && (forall t :: 0 <= t < |s.mem[0]| ==> CounterMessage(s.mem[0][t], t, |s.mem|))
    && (forall l, k :: 0 < l < |s.mem| && 0 <= k < |s.mem[l]| ==> ByteMessage(s.mem[l][k], k, l, |s.mem|, s.stores))
  }

  /** How far the store in progress has come: bytes below `next` have its message already. */
  ghost predicate Progress(s: State, next: nat)
    requires |s.mem| > 0
  {
    && |s.mem[0]| == 2 * (|s.stores| - 1)
    && forall l :: 0 < l < |s.mem| ==> |s.mem[l]| == |s.stores| - (if l <= next then 0 else 1)
  }

  ghost predicate WriterInv(s: State) {
    && Sized(s) && |s.stores| > 0
    && (forall l :: 0 <= l < |s.mem| ==> |s.mem[l]| > 0 && s.writer.cur[l] == |s.mem[l]| - 1)
    && match s.pc
       case Resting =>
         |s.mem[0]| == 2 * |s.stores| - 1 && forall l :: 0 < l < |s.mem| ==> |s.mem[l]| == |s.stores|
       case Odd(v) => v == s.stores[|s.stores| - 1] && Progress(s, 0)
       case Copying(v, i) =>
         v == s.stores[|s.stores| - 1] && i < |s.mem| && Progress(s, i) && s.writer.rel[0] == |s.mem[0]| - 1
       case Copied(v) => Progress(s, |s.mem|)
  }

  ghost predicate LoaderInv(mem: Memory, stores: seq<Value>, l: Loader) {
    var th := l.thread;
    && |mem| > 0 && |th.cur| == |th.acq| == |mem|
    && match l.pc
       case NotLoading => true
       case Retrying(floor) => floor <= th.cur[0]
       case Reading(floor, seq0, c, from) =>
         && SnapshotInv(mem, stores, floor, seq0, c, from, th.acq[0])
         && (forall j :: 0 < j < |mem| ==> th.cur[j] >= seq0 / 2) && seq0 <= th.cur[0]
       case Fenced(floor, seq0, c, from) =>
         SnapshotInv(mem, stores, floor, seq0, c, from, th.cur[0]) && |c| + 1 == |mem| && seq0 <= th.cur[0]
       case Returned(floor, seq0, v) =>
         && floor <= seq0 < |mem[0]| && seq0 % 2 == 0 && seq0 <= th.cur[0]
         && seq0 / 2 < |stores| && v == stores[seq0 / 2]
  }

  /**
   * Each byte comes from a store no older than the snapshot's, and seen: the counter has been seen odd for that
   * store.
   */
  ghost predicate SnapshotInv(mem: Memory, stores: seq<Value>, floor: nat, seq0: nat, c: Value, from: seq<nat>,
                              seen: nat)
    requires |mem| > 0
  {
    && floor <= seq0 < |mem[0]| && seq0 % 2 == 0 && |c| == |from| < |mem|
    && forall j :: 0 <= j < |c| ==>
         && seq0 / 2 <= from[j] < |stores| && seen + 1 >= 2 * from[j]
         && j < |stores[from[j]]| && c[j] == stores[from[j]][j]
  }

  ghost predicate Inv(s: State) {
    && MemoryInv(s) && WriterInv(s)
    && forall r :: 0 <= r < |s.loaders| ==> LoaderInv(s.mem, s.stores, s.loaders[r])
  }

  /** A counter store keeps the memory well formed if an even message carries the bytes. */
  lemma CounterStoreKeeps(s: State, view: View)
    requires MemoryInv(s) && Sized(s) && |view| == |s.mem|
    requires |s.mem[0]| % 2 == 0 ==> forall l :: 0 < l < |s.mem| ==> view[l] >= |s.mem[0]| / 2
    ensures MemoryInv(s.(mem := Stored(s.mem, 0, |s.mem[0]|, view)))
  {
  }

  lemma BeginStoreKeeps(f: Fences, s: State, v: Value)
    requires MemoryInv(s) && WriterInv(s) && s.pc.Resting?
    ensures var t := WriterStep(f, s, BeginStore(v)); MemoryInv(t) && WriterInv(t)
  {
    if |v| == ByteCount(s) {
      CounterStoreKeeps(s, s.writer.rel);
    }
  }

  /** A byte store keeps the memory well formed if the view it publishes holds the odd counter message. */
  lemma ByteStoreKeeps(s: State, l: nat, value: nat, view: View)
    requires MemoryInv(s) && Sized(s) && |view| == |s.mem| && 0 < l < |s.mem|
    requires |s.mem[l]| < |s.stores| && value == s.stores[|s.mem[l]|][l - 1] && view[0] + 1 >= 2 * |s.mem[l]|
    ensures MemoryInv(s.(mem := Stored(s.mem, l, value, view)))
  {
    var k, mem := |s.mem[l]|, Stored(s.mem, l, value, view);
    assert ByteMessage(mem[l][k], k, l, |mem|, s.stores);
  }

  lemma StoreByteWriter(f: Fences, s: State)
    requires WriterInv(s) && s.pc.Copying?
    ensures WriterInv(WriterStep(f, s, StoreByte))
  {
  }

  lemma StoreByteKeeps(f: Fences, s: State)
    requires MemoryInv(s) && WriterInv(s) && s.pc.Copying?
    ensures MemoryInv(WriterStep(f, s, StoreByte))
  {
    var i := s.pc.next;
    if i < |s.pc.desired| && i < ByteCount(s) {
      ByteStoreKeeps(s, i + 1, s.pc.desired[i], s.writer.rel);
    }
  }

  lemma EndStoreKeeps(f: Fences, s: State)
    requires MemoryInv(s) && WriterInv(s) && s.pc.Copied?
    ensures var t := WriterStep(f, s, EndStore); MemoryInv(t) && WriterInv(t)
  {
    CounterStoreKeeps(s, s.writer.cur);
  }

  lemma WriterKeeps(f: Fences, s: State, a: Action)
    requires f.beforeBytes && MemoryInv(s) && WriterInv(s)
    ensures var t := WriterStep(f, s, a);
            MemoryInv(t) && WriterInv(t)
  {
    match (a, s.pc)
    case (BeginStore(v), Resting) => BeginStoreKeeps(f, s, v);
    case (StoreByte, Copying(_, _)) => StoreByteWriter(f, s); StoreByteKeeps(f, s);
    case (EndStore, Copied(_)) => EndStoreKeeps(f, s);
    case _ =>
  }

  lemma LoaderUnderWriter(f: Fences, s: State, a: Action, l: Loader)
    requires MemoryInv(s) && WriterInv(s) && LoaderInv(s.mem, s.stores, l)
    ensures var t := WriterStep(f, s, a);
            LoaderInv(t.mem, t.stores, l)
  {
  }

  lemma LoadSequenceKeeps(mem: Memory, stores: seq<Value>, f: Fences, l: Loader, a: Action)
    requires l.pc.Retrying? && a.LoadSequence? && LoaderInv(mem, stores, l)
    requires a.t < |mem[0]| ==> CounterMessage(mem[0][a.t], a.t, |mem|)
    ensures LoaderInv(mem, stores, LoaderStep(f, mem, l, a))
  {
  }

  lemma LoadByteKeeps(mem: Memory, stores: seq<Value>, f: Fences, l: Loader, a: Action)
    requires l.pc.Reading? && a.LoadByte? && LoaderInv(mem, stores, l)
    requires var i := |l.pc.copied| + 1; i < |mem| && a.t < |mem[i]| ==> ByteMessage(mem[i][a.t], a.t, i, |mem|, stores)
    ensures LoaderInv(mem, stores, LoaderStep(f, mem, l, a))
  {
  }

  /**
   * After the fence a load of the counter cannot miss a store that a byte came from: so none came from a later store.
   */
  lemma RecheckKeeps(mem: Memory, stores: seq<Value>, f: Fences, l: Loader, a: Action)
    requires l.pc.Fenced? && a.Recheck? && LoaderInv(mem, stores, l)
    requires (forall v :: v in stores ==> |v| + 1 == |mem|) && |mem[0]| < 2 * |stores|
    requires a.t < |mem[0]| ==> CounterMessage(mem[0][a.t], a.t, |mem|)
    ensures LoaderInv(mem, stores, LoaderStep(f, mem, l, a))
  {
    var after := LoaderStep(f, mem, l, a).pc;
    if after.Returned? {
      var k := l.pc.seq0 / 2;
      assert forall j :: 0 <= j < |l.pc.from| ==> l.pc.from[j] == k;
      assert |stores[k]| + 1 == |mem|;
      assert l.pc.copied == stores[k];
    }
  }

  lemma LoaderKeeps(f: Fences, s: State, a: Action, l: Loader)
    requires f.inLoad && MemoryInv(s) && WriterInv(s) && LoaderInv(s.mem, s.stores, l)
    ensures LoaderInv(s.mem, s.stores, LoaderStep(f, s.mem, l, a))
  {
    match (a, l.pc)
    case (LoadSequence(_, _), Retrying(_)) => LoadSequenceKeeps(s.mem, s.stores, f, l, a);
    case (LoadByte(_, _), Reading(_, _, _, _)) => LoadByteKeeps(s.mem, s.stores, f, l, a);
    case (Recheck(_, _), Fenced(_, _, _, _)) => RecheckKeeps(s.mem, s.stores, f, l, a);
    case _ =>
  }

  lemma WriterStepKeeps(f: Fences, s: State, a: Action)
    requires f.beforeBytes && Inv(s)
    ensures Inv(WriterStep(f, s, a))
  {
    var t := WriterStep(f, s, a);
    WriterKeeps(f, s, a);
    assert t.loaders == s.loaders;
    forall r | 0 <= r < |t.loaders| ensures LoaderInv(t.mem, t.stores, t.loaders[r]) {
      LoaderUnderWriter(f, s, a, s.loaders[r]);
    }
  }

  lemma LoaderMoved(s: State, r: nat, l: Loader)
    requires Inv(s) && r < |s.loaders| && LoaderInv(s.mem, s.stores, l)
    ensures Inv(s.(loaders := s.loaders[r := l]))
  {
  }

  lemma LoaderStepKeeps(f: Fences, s: State, a: Action, r: nat)
    requires f.inLoad && Inv(s) && r < |s.loaders|
    ensures LoaderInv(s.mem, s.stores, LoaderStep(f, s.mem, s.loaders[r], a))
  {
    LoaderKeeps(f, s, a, s.loaders[r]);
  }

  lemma StepKeeps(f: Fences, s: State, a: Action)
    requires f.beforeBytes && f.inLoad && Inv(s)
    ensures Inv(Step(f, s, a))
  {
    if ByWriter(a) {
      WriterStepKeeps(f, s, a);
    } else if a.r < |s.loaders| {
      LoaderStepKeeps(f, s, a, a.r);
      LoaderMoved(s, a.r, LoaderStep(f, s.mem, s.loaders[a.r], a));
    }
  }

  lemma InitInv(initial: Value, readerCount: nat)
    ensures Inv(Init(initial, readerCount))
  {
    var s := Init(initial, readerCount);
    forall l, k | 0 < l < |s.mem| && 0 <= k < |s.mem[l]| ensures ByteMessage(s.mem[l][k], k, l, |s.mem|, s.stores) {
      assert s.mem[l] == [Message(initial[l - 1], Zeros(|initial| + 1))];
    }
  }

  lemma {:induction false} RunKeeps(f: Fences, initial: Value, readerCount: nat, actions: seq<Action>)
    requires f.beforeBytes && f.inLoad
    ensures Inv(Exec(f, Init(initial, readerCount), actions))
    decreases |actions|
  {
    if actions == [] {
      InitInv(initial, readerCount);
    } else {
      var before := actions[..|actions| - 1];
      RunKeeps(f, initial, readerCount, before);
      StepKeeps(f, Exec(f, Init(initial, readerCount), before), actions[|actions| - 1]);
    }
  }

  // ---- what the actions alone say ------------------------------------------------------------

  /** Every value stored so far is the initial one or the argument of a call to store. */
  lemma {:induction false} StoresWereCalled(f: Fences, initial: Value, readerCount: nat, actions: seq<Action>)
    ensures var stores := Exec(f, Init(initial, readerCount), actions).stores;
            && |stores| > 0 && stores[0] == initial
            && forall k :: 0 < k < |stores| ==> BeginStore(stores[k]) in actions
    decreases |actions|
  {
    if actions != [] { StoresWereCalled(f, initial, readerCount, actions[..|actions| - 1]); }
  }

  /** The actions that are the writer's, in order. */
  function WriterActions(actions: seq<Action>): seq<Action>
    decreases |actions|
  {
    if actions == [] then []
    else
      var last := actions[|actions| - 1];
      WriterActions(actions[..|actions| - 1]) + if ByWriter(last) then [last] else []
  }

  /** A call to store v, up to its first k bytes. */
  function StoreActions(v: Value, k: nat): seq<Action> { [BeginStore(v), FenceBefore] + seq(k, _ => StoreByte) }

  lemma StoringMore(v: Value, k: nat)
    requires k > 0
    ensures StoreActions(v, k) == StoreActions(v, k - 1) + [StoreByte]
  {
  }

  lemma LastOf(a: seq<Action>, b: seq<Action>, x: Action, y: Action)
    requires a + [x] == b + [y]
    ensures a == b && x == y
  {
    assert (a + [x])[..|a|] == a && (b + [y])[..|b|] == b;
    assert (a + [x])[|a|] == x && (b + [y])[|b|] == y;
  }

  lemma {:induction false} NoWriter(f: Fences, s: State, actions: seq<Action>)
    requires Sized(s) && WriterActions(actions) == []
    ensures Exec(f, s, actions) == s.(loaders := Exec(f, s, actions).loaders)
    decreases |actions|
  {
    if actions != [] { NoWriter(f, s, actions[..|actions| - 1]); }
  }

  lemma {:induction false} Begun(f: Fences, s: State, v: Value, actions: seq<Action>)
    requires Sized(s) && s.pc == Resting && |v| == ByteCount(s)
    requires WriterActions(actions) == [BeginStore(v)]
    ensures var t := Exec(f, s, actions);
            && t.pc == Odd(v) && t.stores == s.stores + [v] && |t.mem| == |s.mem|
            && |t.mem[0]| == |s.mem[0]| + 1 && t.mem[1..] == s.mem[1..]
    decreases |actions|
  {
    var before, last := actions[..|actions| - 1], actions[|actions| - 1];
    if ByWriter(last) {
      LastOf(WriterActions(before), [], last, BeginStore(v));
      NoWriter(f, s, before);
    } else {
      Begun(f, s, v, before);
    }
  }

  /** The first k bytes hold one message more in mem than in was: the value of that byte in v. */
  ghost predicate OneMore(mem: Memory, was: Memory, v: Value, k: nat)
    requires k <= |v| && |v| < |mem| == |was|
  {
    forall l :: 0 < l <= k ==> |mem[l]| == |was[l]| + 1 && mem[l][|was[l]|].value == v[l - 1]
  }

  /** k bytes into a store, whatever readers do meanwhile. */
  lemma {:induction false} PartlyStored(f: Fences, s: State, v: Value, actions: seq<Action>, k: nat)
    requires Sized(s) && s.pc == Resting && k <= |v| == ByteCount(s)
    requires WriterActions(actions) == StoreActions(v, k)
    ensures var t := Exec(f, s, actions);
            && t.pc == Copying(v, k) && t.stores == s.stores + [v] && |t.mem| == |s.mem|
            && |t.mem[0]| == |s.mem[0]| + 1
            && OneMore(t.mem, s.mem, v, k)
            && t.mem[k + 1..] == s.mem[k + 1..]
    decreases |actions|
  {
    var before, last := actions[..|actions| - 1], actions[|actions| - 1];
    if !ByWriter(last) {
      PartlyStored(f, s, v, before, k);
    } else if k == 0 {
      assert StoreActions(v, 0) == [BeginStore(v)] + [FenceBefore];
      LastOf(WriterActions(before), [BeginStore(v)], last, FenceBefore);
      Begun(f, s, v, before);
    } else {
      StoringMore(v, k);
      LastOf(WriterActions(before), StoreActions(v, k - 1), last, StoreByte);
      PartlyStored(f, s, v, before, k - 1);
      ByteTakes(f, s, Exec(f, s, before), v, k);
    }
  }

  lemma ByteTakes(f: Fences, s: State, t: State, v: Value, k: nat)
    requires Sized(t) && |t.mem| == |s.mem| && 0 < k <= |v| == ByteCount(s) && t.pc == Copying(v, k - 1)
    requires OneMore(t.mem, s.mem, v, k - 1)
    requires t.mem[k..] == s.mem[k..]
    ensures var u := Step(f, t, StoreByte);
            && u.pc == Copying(v, k) && u.stores == t.stores && |u.mem| == |s.mem| && u.mem[0] == t.mem[0]
            && OneMore(u.mem, s.mem, v, k)
            && u.mem[k + 1..] == s.mem[k + 1..]
  {
    var u := Step(f, t, StoreByte);
    assert t.mem[k] == t.mem[k..][0] == s.mem[k..][0] == s.mem[k];
    assert forall l :: k < l < |s.mem| ==> u.mem[l] == t.mem[k..][l - k];
    assert forall l :: 0 < l < k ==> u.mem[l] == t.mem[l];
  }

  /**
   * A store that runs to its end, with whatever readers do meanwhile: one message more at each byte, of exactly the
   * value the call was made with, and two more at the counter.
   */
  lemma {:induction false} StoreTakes(f: Fences, s: State, v: Value, actions: seq<Action>)
    requires Sized(s) && s.pc == Resting && |v| == ByteCount(s)
    requires WriterActions(actions) == StoreActions(v, |v|) + [FenceAfter] + [EndStore]
    ensures var t := Exec(f, s, actions);
            && t.pc == Resting && t.stores == s.stores + [v] && |t.mem[0]| == |s.mem[0]| + 2
            && |t.mem| == |s.mem| && OneMore(t.mem, s.mem, v, |v|)
    decreases |actions|
  {
    var before, last := actions[..|actions| - 1], actions[|actions| - 1];
    if ByWriter(last) {
      LastOf(WriterActions(before), StoreActions(v, |v|) + [FenceAfter], last, EndStore);
      BytesStored(f, s, v, before);
    } else {
      StoreTakes(f, s, v, before);
    }
  }

  lemma {:induction false} BytesStored(f: Fences, s: State, v: Value, actions: seq<Action>)
    requires Sized(s) && s.pc == Resting && |v| == ByteCount(s)
    requires WriterActions(actions) == StoreActions(v, |v|) + [FenceAfter]
    ensures var t := Exec(f, s, actions);
            && t.pc == Copied(v) && t.stores == s.stores + [v] && |t.mem[0]| == |s.mem[0]| + 1
            && |t.mem| == |s.mem| && OneMore(t.mem, s.mem, v, |v|)
    decreases |actions|
  {
    var before, last := actions[..|actions| - 1], actions[|actions| - 1];
    if ByWriter(last) {
      LastOf(WriterActions(before), StoreActions(v, |v|), last, FenceAfter);
      PartlyStored(f, s, v, before, |v|);
    } else {
      BytesStored(f, s, v, before);
    }
  }

  // ---- the theorem ---------------------------------------------------------------------------

  /** The load that loader r has finished in s handed back one whole value, whose store had completed. */
  ghost predicate Untorn(s: State, r: nat)
    requires r < |s.loaders|
  {
    s.loaders[r].pc.Returned? ==>
      exists k :: 0 <= k < |s.stores| && s.loaders[r].pc.value == s.stores[k]
  }

  /**
   * With the fence before the byte stores and the fence in load, no load is torn in any run: it hands back the value
   * of store number seq0 / 2, whose even counter message has been stored: the initial value or the argument of a call
   * to store. That store is no older than any the reader had seen complete when the load began: one reader's loads
   * never go back.
   */
  lemma NoTornLoad(f: Fences, initial: Value, readerCount: nat, actions: seq<Action>, r: nat)
    requires f.beforeBytes && f.inLoad && r < readerCount
    ensures var s := Exec(f, Init(initial, readerCount), actions);
            s.loaders[r].pc.Returned? ==>
              var p := s.loaders[r].pc;
              && p.seq0 / 2 < |s.stores| && p.value == s.stores[p.seq0 / 2]
              && (p.value == initial || BeginStore(p.value) in actions)
              && p.floor <= p.seq0 < |s.mem[0]|
              && var next := Step(f, s, BeginLoad(r)).loaders[r].pc;
                 next.Retrying? && next.floor >= p.seq0
  {
    RunKeeps(f, initial, readerCount, actions);
    StoresWereCalled(f, initial, readerCount, actions);
    var s := Exec(f, Init(initial, readerCount), actions);
    assert LoaderInv(s.mem, s.stores, s.loaders[r]);
  }

  lemma ExecAppend(f: Fences, s: State, actions: seq<Action>, a: Action)
    requires Sized(s)
    ensures Exec(f, s, actions + [a]) == Step(f, Exec(f, s, actions), a)
  {
    assert (actions + [a])[..|actions + [a]| - 1] == actions;
  }

  ghost predicate HalfStoredMemory(f: Fences, mem: Memory) {
    && |mem| == 3 && |mem[0]| == 2 && |mem[1]| == 2 && |mem[2]| == 1
    && mem[0][0] == Message(0, [0, 0, 0]) && mem[2][0] == Message(0, [0, 0, 0])
    && mem[1][1].value == 1 && |mem[1][1].view| == 3 && (f.inLoad ==> mem[1][1].view == [0, 1, 0])
  }

  /** The steps of the writer up to the first byte of a store of [1, 1] over [0, 0]. */
  lemma HalfStoredSteps(f: Fences, s1: State, s2: State, s3: State)
    requires !f.beforeBytes || !f.inLoad
    requires Init([0, 0], 1).mem == [[ZERO], [ZERO], [ZERO]]
    requires s1 == Step(f, Init([0, 0], 1), BeginStore([1, 1]))
    requires s2 == Step(f, s1, FenceBefore) && s3 == Step(f, s2, StoreByte)
    ensures HalfStoredMemory(f, s3.mem) && s3.stores == [[0, 0], [1, 1]]
    ensures s3.loaders == Init([0, 0], 1).loaders
  {
    var s0 := Init([0, 0], 1);
    assert s0.writer == Thread([0, 0, 0], [0, 0, 0], [0, 0, 0]);
    assert [0, 0, 0][0 := 1] == [1, 0, 0];
    assert s1.pc == Odd([1, 1]) && s1.writer.cur == [1, 0, 0];
    assert |s1.mem| == 3 && s1.mem[1] == [ZERO] && s1.mem[2] == [ZERO];
    assert s1.mem[0] == [ZERO] + [Message(1, [1, 0, 0])];
    assert s2.pc == Copying([1, 1], 0) && s2.mem == s1.mem;
    assert s3.mem[1][1] == Message(1, s2.writer.rel[1 := 1]);
  }

  const ZERO: Message := Message(0, [0, 0, 0])

  /** That state is reached. */
  lemma HalfStored(f: Fences) returns (actions: seq<Action>, s: State)
    requires !f.beforeBytes || !f.inLoad
    ensures s == Exec(f, Init([0, 0], 1), actions)
    ensures HalfStoredMemory(f, s.mem) && s.stores == [[0, 0], [1, 1]]
    ensures s.loaders == [Loader(Thread([0, 0, 0], [0, 0, 0], [0, 0, 0]), NotLoading)]
  {
    var s0 := Init([0, 0], 1);
    assert Zeros(3) == [0, 0, 0];
    assert s0.mem == [[ZERO], [ZERO], [ZERO]];
    var s1 := Step(f, s0, BeginStore([1, 1]));
    var s2 := Step(f, s1, FenceBefore);
    s := Step(f, s2, StoreByte);
    HalfStoredSteps(f, s1, s2, s);
    actions := [BeginStore([1, 1]), FenceBefore, StoreByte];
    ThreeSteps(f, s0, actions);
  }

  lemma ThreeSteps(f: Fences, s: State, a: seq<Action>)
    requires Sized(s) && |a| == 3
    ensures Exec(f, s, a) == Step(f, Step(f, Step(f, s, a[0]), a[1]), a[2])
  {
    ExecAppend(f, s, [], a[0]);
    ExecAppend(f, s, [a[0]], a[1]);
    ExecAppend(f, s, [a[0], a[1]], a[2]);
    assert [] + [a[0]] == [a[0]] && [a[0]] + [a[1]] == [a[0], a[1]] && [a[0], a[1]] + [a[2]] == a;
  }

  /** The accesses of a load that reads message 1 of the first byte and message 0 of everything else. */
  function Accesses(): seq<Action> {
    [BeginLoad(0), LoadSequence(0, 0), LoadByte(0, 1), LoadByte(0, 0), FenceInLoad(0), Recheck(0, 0)]
  }

  /** How a load of one reader goes on while the memory stays the same. */
  type Load = (Loader, Action) -> Loader

  function LoadIn(f: Fences, mem: Memory): Load { (l, a) => LoaderStep(f, mem, l, a) }

  function Loads(load: Load, l: Loader, accesses: seq<Action>): Loader
    decreases |accesses|
  {
    if accesses == [] then l else load(Loads(load, l, accesses[..|accesses| - 1]), accesses[|accesses| - 1])
  }

  lemma TornBytes(f: Fences, mem: Memory, l: Loader) returns (l4: Loader)
    requires l == Loader(Thread([0, 0, 0], [0, 0, 0], [0, 0, 0]), NotLoading) && HalfStoredMemory(f, mem)
    ensures l4.pc == Reading(0, 0, [1, 0], [1, 0]) && l4.thread.cur == [0, 1, 0]
    ensures |l4.thread.acq| == 3 && (f.inLoad ==> l4.thread.acq[0] == 0)
    ensures var a := Accesses();
            var l2 := LoaderStep(f, mem, LoaderStep(f, mem, l, a[0]), a[1]);
            l4 == LoaderStep(f, mem, LoaderStep(f, mem, l2, a[2]), a[3])
  {
    var z, a := [0, 0, 0], Accesses();
    assert Join(z, z) == z;
    var l2 := LoaderStep(f, mem, LoaderStep(f, mem, l, a[0]), a[1]);
    assert l2 == Loader(Thread(z, z, z), Reading(0, 0, [], []));
    var l3 := LoaderStep(f, mem, l2, a[2]);
    assert l3.pc == Reading(0, 0, [1], [1]) && l3.thread.cur == [0, 1, 0];
    l4 := LoaderStep(f, mem, l3, a[3]);
  }

  lemma TornCheck(f: Fences, mem: Memory, l4: Loader)
    requires l4.pc == Reading(0, 0, [1, 0], [1, 0]) && l4.thread.cur == [0, 1, 0] && HalfStoredMemory(f, mem)
    requires |l4.thread.acq| == 3 && (f.inLoad ==> l4.thread.acq[0] == 0)
    ensures var a := Accesses(); LoaderStep(f, mem, LoaderStep(f, mem, l4, a[4]), a[5]).pc == Returned(0, 0, [1, 0])
  {
    var l5 := LoaderStep(f, mem, l4, FenceInLoad(0));
    assert l5.pc == Fenced(0, 0, [1, 0], [1, 0]) && l5.thread.cur[0] == 0;
  }

  lemma LoadsNext(load: Load, l: Loader, k: nat)
    requires k < 6
    ensures Loads(load, l, Accesses()[..k + 1]) == load(Loads(load, l, Accesses()[..k]), Accesses()[k])
  {
    assert Accesses()[..k + 1][..k] == Accesses()[..k];
  }

  lemma SixLoads(load: Load, l: Loader)
    ensures var a := Accesses();
            Loads(load, l, a) == load(load(load(load(load(load(l, a[0]), a[1]), a[2]), a[3]), a[4]), a[5])
  {
    forall k | 0 <= k < 6
      ensures Loads(load, l, Accesses()[..k + 1]) == load(Loads(load, l, Accesses()[..k]), Accesses()[k])
    {
      LoadsNext(load, l, k);
    }
    assert Accesses()[..6] == Accesses();
  }

  lemma TornLoader(f: Fences, mem: Memory, l: Loader)
    requires l == Loader(Thread([0, 0, 0], [0, 0, 0], [0, 0, 0]), NotLoading) && HalfStoredMemory(f, mem)
    ensures Loads(LoadIn(f, mem), l, Accesses()).pc == Returned(0, 0, [1, 0])
  {
    var l4 := TornBytes(f, mem, l);
    TornCheck(f, mem, l4);
    SixLoads(LoadIn(f, mem), l);
  }

  lemma StepOfLoader(f: Fences, s: State, l: Loader, a: Action)
    requires Sized(s) && s.loaders == [l] && !ByWriter(a) && a.r == 0
    ensures Step(f, s, a) == s.(loaders := [LoaderStep(f, s.mem, l, a)])
  {
    var after := LoaderStep(f, s.mem, l, a);
    assert s.loaders[0 := after] == [after];
  }

  lemma ExecLoad(f: Fences, s0: State, actions: seq<Action>, s: State, l: Loader, a: Action)
    requires Sized(s0) && Exec(f, s0, actions) == s.(loaders := [l]) && Sized(s) && !ByWriter(a) && a.r == 0
    ensures Exec(f, s0, actions + [a]) == s.(loaders := [LoaderStep(f, s.mem, l, a)])
  {
    ExecAppend(f, s0, actions, a);
    StepOfLoader(f, s.(loaders := [l]), l, a);
  }

  lemma {:induction false} ExecLoads(f: Fences, s0: State, actions: seq<Action>, s: State, l: Loader,
                                     accesses: seq<Action>)
    requires Sized(s0) && Exec(f, s0, actions) == s.(loaders := [l]) && Sized(s)
    requires forall k :: 0 <= k < |accesses| ==> !ByWriter(accesses[k]) && accesses[k].r == 0
    ensures Exec(f, s0, actions + accesses) == s.(loaders := [Loads(LoadIn(f, s.mem), l, accesses)])
    decreases |accesses|
  {
    if accesses == [] {
      assert actions + accesses == actions;
    } else {
      var before, a := accesses[..|accesses| - 1], accesses[|accesses| - 1];
      ExecLoads(f, s0, actions, s, l, before);
      ExecLoad(f, s0, actions + before, s, Loads(LoadIn(f, s.mem), l, before), a);
      assert actions + before + [a] == actions + accesses;
    }
  }

  /** Either fence left out, a load can read the new first byte, the old second byte and the old counter twice. */
  lemma LoadTears(f: Fences) returns (actions: seq<Action>)
    requires !f.beforeBytes || !f.inLoad
    ensures !Untorn(Exec(f, Init([0, 0], 1), actions), 0)
  {
    var before, s := HalfStored(f);
    var l := s.loaders[0];
    assert s == s.(loaders := [l]);
    ExecLoads(f, Init([0, 0], 1), before, s, l, Accesses());
    TornLoader(f, s.mem, l);
    actions := before + Accesses();
    assert forall k :: 0 <= k < |s.stores| ==> s.stores[k][0] == s.stores[k][1];
  }

  /** Those two fences are exactly what the seqlock needs; the one after the byte stores is not. */
  lemma FencesNeeded(f: Fences)
    ensures (f.beforeBytes && f.inLoad)
            <==> forall initial: Value, readerCount: nat, actions: seq<Action>, r: nat :: r < readerCount ==>
                   Untorn(Exec(f, Init(initial, readerCount), actions), r)
  {
    if f.beforeBytes && f.inLoad {
      forall initial: Value, readerCount: nat, actions: seq<Action>, r: nat | r < readerCount
        ensures Untorn(Exec(f, Init(initial, readerCount), actions), r)
      {
        NoTornLoad(f, initial, readerCount, actions, r);
      }
    } else {
      var actions := LoadTears(f);
      var initial: Value := [0, 0];
      assert !Untorn(Exec(f, Init(initial, 1), actions), 0);
    }
  }
}

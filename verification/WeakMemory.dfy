/**
 * A view-based weak memory: a location keeps every message stored to it, a load may return any message the thread's
 * view does not rule out, and only fences and acquire/release accesses move views between threads. Each location is
 * stored to by one thread.
 */
module WeakMemory {
  /** For each location, the oldest message the owner may still read. */
  type View = seq<nat>

  function Join(a: View, b: View): (r: View)
    requires |a| == |b|
    ensures |r| == |a|
    ensures forall l :: 0 <= l < |r| ==> r[l] >= a[l] && r[l] >= b[l] && (r[l] == a[l] || r[l] == b[l])
  {
    seq(|a|, l requires 0 <= l < |a| => if a[l] <= b[l] then b[l] else a[l])
  }

  datatype Message = Message(value: nat, view: View)

  type Memory = seq<seq<Message>>

  /** cur: what the thread has seen. acq: what an acquire fence would add. rel: what its relaxed stores publish. */
  datatype Thread = Thread(cur: View, acq: View, rel: View)

  /** A new message is newer than all others at its location, since only one thread stores there. */
  function Stored(mem: Memory, l: nat, value: nat, view: View): Memory
    requires l < |mem| && l < |view|
  {
    mem[l := mem[l] + [Message(value, view[l := |mem[l]|])]]
  }

  function AfterStore(mem: Memory, th: Thread, l: nat): Thread
    requires l < |mem| && l < |th.cur| && l < |th.acq|
  {
    Thread(th.cur[l := |mem[l]|], th.acq[l := |mem[l]|], th.rel)
  }

  function ReleaseFence(th: Thread): Thread { th.(rel := th.cur) }

  predicate Readable(mem: Memory, th: Thread, l: nat, t: nat) {
    && l < |mem| && l < |th.cur| && th.cur[l] <= t < |mem[l]|
    && |th.cur| == |th.acq| == |mem[l][t].view|
  }

  function RelaxedLoad(mem: Memory, th: Thread, l: nat, t: nat): Thread
    requires Readable(mem, th, l, t)
  {
    Thread(th.cur[l := t], Join(th.acq, mem[l][t].view), th.rel)
  }

  function AcquireLoad(mem: Memory, th: Thread, l: nat, t: nat): Thread
    requires Readable(mem, th, l, t)
  {
    Thread(Join(th.cur, mem[l][t].view), Join(th.acq, mem[l][t].view), th.rel)
  }

  function AcquireFence(th: Thread): Thread {
    if |th.cur| == |th.acq| then th.(cur := Join(th.cur, th.acq)) else th
  }

  function Zeros(n: nat): View { seq(n, _ => 0) }
}

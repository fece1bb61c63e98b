/** Transmitting: the life of a frame buffer, from `kmalloc` in `ethernet_send`, through the TX
    queue and the device, to the `kfree` in `net_tx_reaper`. Heap and queue are the real ones, and
    the rest of the kernel allocates and frees in between. */
module TxPath {
  import opened Machine
  import opened RingIndex
  import opened Ring
  import Heap
  import KernelHeap
  import Virtqueue

  /** VirtIO net header (10) plus Ethernet header (14). */
  const FRAME_OVERHEAD: int := 24

  /** One buffer ever allocated by `ethernet_send`, and how often it has been freed. */
  datatype Frame = Frame(buf: nat, len: nat, freed: nat)

  /** Where a frame is: still being built, on a descriptor, popped by the reaper, or freed. */
  datatype Place = Building | On(id: nat) | Recovered | Gone

  /** The driver: idle or at the start of reaping, sending (buffer built; descriptor filled), or
      reaping descriptor `id`. Whether it is at a barrier is the phase of the queue. */
  datatype Pc = Idle | HaveBuffer(k: nat) | HaveHead(head: nat) | Reaping(id: nat)

  /** `others` are the payloads held by the rest of the kernel; `carrier` names the frame each
      descriptor was last filled with. */
  datatype Tx = Tx(heap: Heap.State, s: Sys, pc: Pc, frames: seq<Frame>, at: seq<Place>, carrier: seq<nat>, others: set<nat>)

  datatype Step =
    | Send(len: nat)
    | Reap
    | Continue
    | Device(step: Ring.Step)
    | OtherMalloc(size: nat)
    | OtherFree(ptr: nat)

  // ---------------------------------------------------------------------------------------
  // Steps
  // ---------------------------------------------------------------------------------------

  /** Sending needs a free descriptor; the kernel's other frees are of payloads it holds. */
  ghost predicate Enabled(t: Tx, step: Step) {
    match step
    case Send(len) => t.pc.Idle? && t.s.phase.AtRest? && t.s.q.numFree > 0 && FRAME_OVERHEAD + len < U32
    case Reap => t.pc.Idle? && t.s.phase.AtRest?
    case Continue => !(t.pc.Idle? && t.s.phase.AtRest?)
    case Device(d) => (d.Consume? || d.Complete?) && Ring.Enabled(t.s, d)
    case OtherMalloc(size) => Heap.NoWrap(t.heap, size)
    case OtherFree(ptr) => ptr in t.others
  }

  /** What the driver's own indices need; always true of states that keep the invariant below. */
  ghost predicate Ready(t: Tx) {
    && WellFormed(t.s.q) && |t.s.owner| == t.s.q.size == |t.carrier| && |t.at| == |t.frames|
    && (t.s.phase.Staged? ==> t.s.phase.id < |t.s.owner|)
    && match t.pc
       case Idle => true
       case HaveBuffer(k) => k < |t.frames| && t.s.q.numFree > 0
       case HaveHead(head) => head < |t.s.owner|
       case Reaping(id) => id < |t.s.q.desc| && t.carrier[id] < |t.frames|
  }

  ghost function SendStep(t: Tx, len: nat): Tx {
    var r := Heap.Alloc(t.heap, FRAME_OVERHEAD + len);
    if r.ptr == NULL then t
    else t.(heap := r.heap, pc := HaveBuffer(|t.frames|),
            frames := t.frames + [Frame(r.ptr, FRAME_OVERHEAD + len, 0)], at := t.at + [Building])
  }

  ghost function EnqueueStep(t: Tx, k: nat): Tx
    requires Ready(t) && k < |t.frames| && t.s.q.numFree > 0
  {
    var f := t.frames[k];
    var head := AddDescriptor(t.s.q, f.buf, f.len, 0).head;
    t.(s := Ring.Next(t.s, Add(f.buf, f.len, 0)), pc := HaveHead(head),
       at := t.at[k := On(head)], carrier := t.carrier[head := k])
  }

  ghost function PublishStep(t: Tx, head: nat): Tx
    requires Ready(t)
  {
    if t.s.phase.Staged? then t.(s := Ring.Next(t.s, Publish), pc := Idle) else t.(s := Ring.Next(t.s, Write(head)))
  }

  ghost function TakeStep(t: Tx): Tx
    requires Ready(t)
  {
    var p := PopUsed(t.s.q);
    if p.Nothing? then t
    else
      var id := p.receipt.id;
      t.(s := Ring.Next(t.s, Take), pc := Reaping(id),
         at := if t.carrier[id] < |t.at| then t.at[t.carrier[id] := Recovered] else t.at)
  }

  ghost function FreeStep(t: Tx, id: nat): Tx
    requires Ready(t) && id < |t.s.q.desc| && t.carrier[id] < |t.frames|
  {
    var buffer, k := t.s.q.desc[id].addr, t.carrier[id];
    t.(heap := Heap.Release(t.heap, buffer), pc := Idle,
       frames := t.frames[k := t.frames[k].(freed := t.frames[k].freed + 1)], at := t.at[k := Gone])
  }

  ghost function Next(t: Tx, step: Step): Tx
    requires Ready(t) && Enabled(t, step)
  {
    match step
    case Send(len) => SendStep(t, len)
    case Reap => t.(s := Ring.Next(t.s, Look))
    case Continue => (
      match t.pc
      case HaveBuffer(k) => EnqueueStep(t, k)
      case HaveHead(head) => PublishStep(t, head)
      case Reaping(id) => FreeStep(t, id)
      case Idle => TakeStep(t))
    case Device(d) => t.(s := Ring.Next(t.s, d))
    case OtherMalloc(size) =>
      var r := Heap.Alloc(t.heap, size);
      if r.ptr == NULL then t else t.(heap := r.heap, others := t.others + {r.ptr})
    case OtherFree(ptr) => t.(heap := Heap.Release(t.heap, ptr), others := t.others - {ptr})
  }

  // ---------------------------------------------------------------------------------------
  // The invariant
  // ---------------------------------------------------------------------------------------

  ghost predicate FrameLive(live: map<nat, nat>, others: set<nat>, f: Frame) {
    f.freed == 0 ==> f.buf in live && live[f.buf] >= f.len && f.buf !in others
  }

  /** Buffers not yet freed are live, big enough, pairwise different and nobody else's. */
  ghost predicate Owned(live: map<nat, nat>, frames: seq<Frame>, others: set<nat>) {
    && others <= live.Keys && NULL !in live
    && (forall k | 0 <= k < |frames| :: FrameLive(live, others, frames[k]))
    && forall j, k | 0 <= j < k < |frames| && frames[j].freed == 0 && frames[k].freed == 0 ::
         frames[j].buf != frames[k].buf
  }

  /** A frame is freed once it is gone, and only then. */
  ghost predicate Counted(frames: seq<Frame>, at: seq<Place>) {
    |at| == |frames| && forall k | 0 <= k < |frames| :: frames[k].freed == if at[k] == Gone then 1 else 0
  }

  /** Descriptors in flight and the frames they carry point at each other. */
  ghost predicate Carried(owner: seq<Owner>, desc: seq<Desc>, frames: seq<Frame>, at: seq<Place>, carrier: seq<nat>) {
    && |owner| == |desc| == |carrier| && |at| == |frames|
    && (forall id | 0 <= id < |owner| :: owner[id] != Free ==>
          carrier[id] < |frames| && at[carrier[id]] == On(id)
          && desc[id].addr == frames[carrier[id]].buf && desc[id].len == frames[carrier[id]].len)
    && forall k | 0 <= k < |at| :: at[k].On? ==> at[k].id < |owner| && owner[at[k].id] != Free && carrier[at[k].id] == k
  }

  /** What the program counter says about frames outside the queue and descriptors taken. */
  ghost predicate PcOk(t: Tx)
    requires |t.at| == |t.frames| && |t.s.owner| == |t.s.q.desc| == |t.carrier|
  {
    && (forall k | 0 <= k < |t.at| :: t.at[k] == Building <==> t.pc == HaveBuffer(k))
    && (forall k | 0 <= k < |t.at| :: t.at[k] == Recovered ==> t.pc.Reaping?)
    && (forall id | 0 <= id < |t.s.owner| :: t.s.owner[id] == Taken <==> t.pc == HaveHead(id))
    && match t.pc
       case Idle => !t.s.phase.Staged?
       case HaveBuffer(k) => t.s.phase.AtRest? && k < |t.frames| && t.s.q.numFree > 0
       case HaveHead(head) => (t.s.phase.AtRest? || t.s.phase == Staged(head)) && head < |t.s.owner|
       case Reaping(id) =>
         && t.s.phase.AtRest? && id < |t.s.owner| && t.carrier[id] < |t.frames| && t.at[t.carrier[id]] == Recovered
         && t.s.q.desc[id].addr == t.frames[t.carrier[id]].buf
         && forall k | 0 <= k < |t.at| :: t.at[k] == Recovered ==> k == t.carrier[id]
  }

  ghost predicate Inv(t: Tx) {
    && Heap.Tiled(t.heap) && Ring.Inv(t.s)
    && Owned(Heap.Live(t.heap.blocks), t.frames, t.others) && Counted(t.frames, t.at)
    && Carried(t.s.owner, t.s.q.desc, t.frames, t.at, t.carrier)
    && PcOk(t)
  }

  /** The part of the invariant that does not look at the heap. */
  ghost predicate Linked(t: Tx) {
    Counted(t.frames, t.at) && Carried(t.s.owner, t.s.q.desc, t.frames, t.at, t.carrier) && PcOk(t)
  }

  // ---------------------------------------------------------------------------------------
  // The heap side of each step
  // ---------------------------------------------------------------------------------------

  lemma HeapRoom(h: Heap.State, size: nat)
    requires Heap.Tiled(h) && size < U32
    ensures Heap.NoWrap(h, size)
  {
  }

  lemma OwnedAfterSend(live: map<nat, nat>, frames: seq<Frame>, others: set<nat>, p: nat, n: nat, len: nat)
    requires Owned(live, frames, others) && p !in live && p != NULL && len <= n
    ensures Owned(live[p := n], frames + [Frame(p, len, 0)], others)
  {
    var frames' := frames + [Frame(p, len, 0)];
    assert forall k | 0 <= k < |frames| :: FrameLive(live, others, frames[k]);
    forall k | 0 <= k < |frames'| ensures FrameLive(live[p := n], others, frames'[k]) {
      if k < |frames| { assert frames'[k] == frames[k]; }
    }
  }

  lemma OwnedAfterOther(live: map<nat, nat>, frames: seq<Frame>, others: set<nat>, p: nat, n: nat)
    requires Owned(live, frames, others) && p !in live && p != NULL
    ensures Owned(live[p := n], frames, others + {p})
  {
    forall k | 0 <= k < |frames| ensures FrameLive(live[p := n], others + {p}, frames[k]) {
      assert FrameLive(live, others, frames[k]);
    }
  }

  lemma OwnedAfterOtherFree(live: map<nat, nat>, frames: seq<Frame>, others: set<nat>, p: nat)
    requires Owned(live, frames, others) && p in others
    ensures Owned(live - {p}, frames, others - {p})
  {
    forall k | 0 <= k < |frames| ensures FrameLive(live - {p}, others - {p}, frames[k]) {
      assert FrameLive(live, others, frames[k]);
    }
  }

  lemma OwnedAfterReap(live: map<nat, nat>, frames: seq<Frame>, others: set<nat>, k: nat)
    requires Owned(live, frames, others) && k < |frames| && frames[k].freed == 0
    ensures Owned(live - {frames[k].buf}, frames[k := frames[k].(freed := 1)], others)
  {
    var p, frames' := frames[k].buf, frames[k := frames[k].(freed := 1)];
    assert FrameLive(live, others, frames[k]);
    forall j | 0 <= j < |frames| ensures FrameLive(live - {p}, others, frames'[j]) {
      assert FrameLive(live, others, frames[j]);
    }
  }

  // ---------------------------------------------------------------------------------------
  // Every step keeps the invariant
  // ---------------------------------------------------------------------------------------

  lemma InvReady(t: Tx)
    requires Inv(t)
    ensures Ready(t)
  {
    InvFacts(t.s);
  }

  lemma SendKeeps(t: Tx, len: nat)
    requires Inv(t) && Enabled(t, Send(len))
    ensures Inv(SendStep(t, len))
  {
    hide Heap.Tiled, Heap.Live, Heap.Alloc, Ring.Inv;
    var size := FRAME_OVERHEAD + len;
    HeapRoom(t.heap, size);
    Heap.AllocOwnership(t.heap, size);
    var r := Heap.Alloc(t.heap, size);
    if r.ptr != NULL {
      OwnedAfterSend(Heap.Live(t.heap.blocks), t.frames, t.others, r.ptr, Heap.Live(r.heap.blocks)[r.ptr], size);
      var t' := SendStep(t, len);
      hide Owned;
      assert forall k | 0 <= k < |t.at| :: t'.at[k] == t.at[k] && t'.frames[k] == t.frames[k];
      assert Counted(t'.frames, t'.at);
      assert Carried(t'.s.owner, t'.s.q.desc, t'.frames, t'.at, t'.carrier);
    }
  }

  lemma EnqueueCarries(t: Tx, k: nat, head: nat)
    requires Carried(t.s.owner, t.s.q.desc, t.frames, t.at, t.carrier)
    requires k < |t.at| && t.at[k] == Building && head < |t.s.owner| && t.s.owner[head] == Free
    ensures var f := t.frames[k];
            Carried(t.s.owner[head := Taken], t.s.q.desc[head := Desc(f.buf, f.len, 0, 0)],
                    t.frames, t.at[k := On(head)], t.carrier[head := k])
  {
  }

  lemma EnqueueKeeps(t: Tx, k: nat)
    requires Inv(t) && t.pc == HaveBuffer(k)
    ensures Ready(t) && Inv(EnqueueStep(t, k))
  {
    InvReady(t);
    InvFacts(t.s);
    hide Heap.Tiled, Heap.Live, Ring.Inv, Owned, WellFormed;
    var f := t.frames[k];
    AddKeeps(t.s, f.buf, f.len, 0);
    EnqueueCarries(t, k, t.s.free[0]);
    hide Ring.Next, AddDescriptor, Carried;
    InvFacts(Ring.Next(t.s, Add(f.buf, f.len, 0)));
    var t' := EnqueueStep(t, k);
    assert Counted(t'.frames, t'.at);
    assert PcOk(t');
  }

  lemma PublishStepKeeps(t: Tx, head: nat)
    requires Inv(t) && t.pc == HaveHead(head)
    ensures Ready(t) && Inv(PublishStep(t, head))
  {
    InvReady(t);
    InvFacts(t.s);
    hide Heap.Tiled, Heap.Live, Ring.Inv, Owned, Counted, Carried;
    if t.s.phase.Staged? {
      PublishKeeps(t.s);
      hide Ring.Next, PublishIndex, PcOk;
      PublishLinks(t, PublishStep(t, head), head);
    } else {
      assert Ring.Enabled(t.s, Write(head));
      WriteKeeps(t.s, head);
      hide Ring.Next, WriteSlot;
    }
  }

  lemma PublishLinks(t: Tx, t': Tx, head: nat)
    requires Linked(t) && t.pc == HaveHead(head) && head < |t.s.owner|
    requires t' == t.(s := t'.s, pc := Idle) && t'.s.phase.AtRest?
    requires t'.s.q.desc == t.s.q.desc && t'.s.owner == t.s.owner[head := Pending]
    ensures Linked(t')
  {
  }

  lemma LookStepKeeps(t: Tx)
    requires Inv(t) && t.pc.Idle? && t.s.phase.AtRest?
    ensures Ready(t) && Inv(t.(s := Ring.Next(t.s, Look)))
    ensures Ring.Next(t.s, Look) == if |t.s.reaped| < |t.s.wrote| then t.s.(phase := Seen) else t.s
  {
    InvReady(t);
    hide Heap.Tiled, Heap.Live, Ring.Inv, Owned, Counted, Carried;
    LookKeeps(t.s);
  }

  /** After the barrier the reaper takes back the descriptor of the oldest receipt, and with it the
      frame that the descriptor carries. */
  lemma TakeStepKeeps(t: Tx)
    requires Inv(t) && t.pc.Idle? && t.s.phase.Seen?
    ensures Ready(t) && Inv(TakeStep(t)) && TakeStep(t).pc.Reaping?
  {
    InvReady(t);
    InvFacts(t.s);
    hide Heap.Tiled, Heap.Live, Ring.Inv, Owned, Counted, Carried, PcOk;
    TakeKeeps(t.s);
    hide Ring.Next, PopUsed;
    ReapLinks(t, TakeStep(t), t.s.wrote[|t.s.reaped|].id);
  }

  lemma ReapLinks(t: Tx, t': Tx, id: nat)
    requires Linked(t) && t.pc.Idle? && id < |t.s.owner| && t.s.owner[id] == Returned
    requires t' == t.(s := t'.s, pc := Reaping(id), at := if t.carrier[id] < |t.at| then t.at[t.carrier[id] := Recovered] else t.at)
    requires t'.s.owner == t.s.owner[id := Free] && t'.s.phase.AtRest?
    requires |t'.s.q.desc| == |t.s.q.desc| && forall j | 0 <= j < |t.s.q.desc| ::
               t'.s.q.desc[j].addr == t.s.q.desc[j].addr && t'.s.q.desc[j].len == t.s.q.desc[j].len
    ensures Linked(t')
  {
    hide Counted;
    ReapCounts(t.frames, t.at, t.carrier[id]);
  }

  lemma ReapCounts(frames: seq<Frame>, at: seq<Place>, k: nat)
    requires Counted(frames, at) && k < |at| && at[k] != Gone
    ensures Counted(frames, at[k := Recovered])
  {
  }

  lemma FreeLinks(t: Tx, t': Tx, id: nat, k: nat)
    requires Linked(t) && t.pc == Reaping(id) && k == t.carrier[id] && k < |t.frames|
    requires t' == t.(heap := t'.heap, pc := Idle, at := t.at[k := Gone],
                      frames := t.frames[k := t.frames[k].(freed := t.frames[k].freed + 1)])
    ensures t.frames[k].freed == 0 && t.s.q.desc[id].addr == t.frames[k].buf && Linked(t')
  {
  }

  /** The reaper frees a buffer that is live, for the first time, and nobody else's. */
  lemma FreeKeeps(t: Tx, id: nat)
    requires Inv(t) && t.pc == Reaping(id)
    ensures Ready(t) && t.s.q.desc[id].addr in Heap.Live(t.heap.blocks) && Inv(FreeStep(t, id))
  {
    InvReady(t);
    hide Heap.Tiled, Heap.Live, Heap.Release, Ring.Inv, WellFormed, Owned, Counted, Carried, PcOk;
    var k := t.carrier[id];
    FreeLinks(t, FreeStep(t, id), id, k);
    OwnedLive(Heap.Live(t.heap.blocks), t.frames, t.others, k);
    Heap.ReleaseOwnership(t.heap, t.frames[k].buf);
    OwnedAfterReap(Heap.Live(t.heap.blocks), t.frames, t.others, k);
  }

  lemma OwnedLive(live: map<nat, nat>, frames: seq<Frame>, others: set<nat>, k: nat)
    requires Owned(live, frames, others) && k < |frames| && frames[k].freed == 0
    ensures FrameLive(live, others, frames[k])
  {
  }

  lemma DeviceKeeps(t: Tx, d: Ring.Step)
    requires Inv(t) && Enabled(t, Device(d))
    ensures Inv(t.(s := Ring.Next(t.s, d)))
  {
    hide Heap.Tiled, Heap.Live, Ring.Inv, Owned, Counted, Ring.Next, WellFormed;
    var id, k := DeviceStepEffect(t.s, d);
  }

  lemma OtherMallocKeeps(t: Tx, size: nat)
    requires Inv(t) && Heap.NoWrap(t.heap, size)
    ensures var r := Heap.Alloc(t.heap, size);
            r.ptr != NULL ==> Inv(t.(heap := r.heap, others := t.others + {r.ptr}))
  {
    hide Heap.Tiled, Heap.Live, Heap.Alloc, Ring.Inv, Counted, Carried;
    Heap.AllocOwnership(t.heap, size);
    var r := Heap.Alloc(t.heap, size);
    if r.ptr != NULL {
      OwnedAfterOther(Heap.Live(t.heap.blocks), t.frames, t.others, r.ptr, Heap.Live(r.heap.blocks)[r.ptr]);
    }
  }

  lemma OtherFreeKeeps(t: Tx, ptr: nat)
    requires Inv(t) && ptr in t.others
    ensures Inv(t.(heap := Heap.Release(t.heap, ptr), others := t.others - {ptr}))
  {
    hide Heap.Tiled, Heap.Live, Heap.Release, Ring.Inv, Counted, Carried;
    Heap.ReleaseOwnership(t.heap, ptr);
    OwnedAfterOtherFree(Heap.Live(t.heap.blocks), t.frames, t.others, ptr);
  }

  lemma StepKeepsInv(t: Tx, step: Step)
    requires Inv(t) && Enabled(t, step)
    ensures Ready(t) && Inv(Next(t, step))
  {
    InvReady(t);
    hide Heap.Tiled, Heap.Live, Ring.Inv, Owned, Counted, Carried, WellFormed, Ring.Next;
    match step
    case Send(len) => SendKeeps(t, len);
    case Reap => LookStepKeeps(t);
    case Continue => {
      match t.pc
      case HaveBuffer(k) => EnqueueKeeps(t, k);
      case HaveHead(head) => PublishStepKeeps(t, head);
      case Reaping(id) => FreeKeeps(t, id);
      case Idle => TakeStepKeeps(t);
    }
    case Device(d) => DeviceKeeps(t, d);
    case OtherMalloc(size) => OtherMallocKeeps(t, size);
    case OtherFree(ptr) => OtherFreeKeeps(t, ptr);
  }

  // ---------------------------------------------------------------------------------------
  // Whole runs
  // ---------------------------------------------------------------------------------------

  ghost predicate ValidRun(t: Tx, steps: seq<Step>)
    decreases |steps|
  {
    steps == [] || (Ready(t) && Enabled(t, steps[0]) && ValidRun(Next(t, steps[0]), steps[1..]))
  }

  ghost function Run(t: Tx, steps: seq<Step>): Tx
    requires ValidRun(t, steps)
    decreases |steps|
  {
    if steps == [] then t else Run(Next(t, steps[0]), steps[1..])
  }

  lemma {:induction false} RunKeepsInv(t: Tx, steps: seq<Step>)
    requires Inv(t) && ValidRun(t, steps)
    ensures Inv(Run(t, steps))
    decreases |steps|
  {
    if steps != [] {
      StepKeepsInv(t, steps[0]);
      hide Inv;
      RunKeepsInv(Next(t, steps[0]), steps[1..]);
    }
  }

  /** An empty queue beside a heap that the kernel already uses. */
  ghost function Start(heap: Heap.State, size: nat, mem: seq<Desc>): Tx
    requires |mem| == size
  {
    Tx(heap, Ring.Start(size, mem), Idle, [], [], seq(size, _ => 0), Heap.Live(heap.blocks).Keys)
  }

  lemma StartKeepsInv(heap: Heap.State, size: nat, mem: seq<Desc>)
    requires Heap.Tiled(heap) && QueueSize(size) && |mem| == size
    ensures Inv(Start(heap, size, mem))
  {
    StartInv(size, mem);
    Heap.NullNotLive(heap);
    hide Ring.Inv, Heap.Tiled, Heap.Live;
  }

  /** No frame is ever freed twice; a frame on a descriptor has not been freed and its memory is
      held for it; and once the queue is empty and the driver idle, every frame ever sent has been
      freed exactly once. */
  lemma FreedExactlyOnce(heap: Heap.State, size: nat, mem: seq<Desc>, steps: seq<Step>)
    requires Heap.Tiled(heap) && QueueSize(size) && |mem| == size && ValidRun(Start(heap, size, mem), steps)
    ensures var t := Run(Start(heap, size, mem), steps);
            && Inv(t)
            && (forall k | 0 <= k < |t.frames| :: t.frames[k].freed <= 1)
            && (forall id | 0 <= id < |t.s.owner| && t.s.owner[id] != Free ::
                  var k := t.carrier[id];
                  && k < |t.frames| && t.frames[k].freed == 0 && t.s.q.desc[id].addr == t.frames[k].buf
                  && t.frames[k].buf in Heap.Live(t.heap.blocks))
            && (t.pc.Idle? && (forall id | 0 <= id < |t.s.owner| :: t.s.owner[id] == Free) ==>
                  forall k | 0 <= k < |t.frames| :: t.frames[k].freed == 1)
  {
    StartKeepsInv(heap, size, mem);
    RunKeepsInv(Start(heap, size, mem), steps);
    hide Ring.Inv, Heap.Tiled, Heap.Live;
    var t := Run(Start(heap, size, mem), steps);
    forall id | 0 <= id < |t.s.owner| && t.s.owner[id] != Free
      ensures t.carrier[id] < |t.frames| && t.frames[t.carrier[id]].freed == 0
              && t.frames[t.carrier[id]].buf in Heap.Live(t.heap.blocks)
    {
      assert FrameLive(Heap.Live(t.heap.blocks), t.others, t.frames[t.carrier[id]]);
    }
    forall k | 0 <= k < |t.frames| ensures t.frames[k].freed == if t.at[k] == Gone then 1 else 0 {}
  }

  /** Whatever is allocated next overlaps no frame that has not been freed yet. */
  lemma NothingOverlapsFrames(t: Tx, size: nat, k: nat)
    requires Inv(t) && Heap.NoWrap(t.heap, size) && k < |t.frames| && t.frames[k].freed == 0
    requires Heap.Alloc(t.heap, size).ptr != NULL
    ensures Heap.Disjoint(Heap.Alloc(t.heap, size).ptr, size, t.frames[k].buf, t.frames[k].len)
  {
    hide Ring.Inv;
    assert FrameLive(Heap.Live(t.heap.blocks), t.others, t.frames[k]);
    Heap.AllocDisjointFromLive(t.heap, size, t.frames[k].buf);
  }

  // ---------------------------------------------------------------------------------------
  // The driver's code
  // ---------------------------------------------------------------------------------------

  /** The objects in memory are those of the abstract state. */
  ghost predicate Matches(heap: KernelHeap.KernelHeap, vq: Virtqueue.Virtqueue, t: Tx)
    reads heap, vq, vq.desc, vq.availRing, vq.usedRing
  {
    heap.Valid() && heap.Model() == t.heap && vq.Model() == t.s.q
  }

  /** `ethernet_send`: allocates a buffer for the two headers and the payload, puts it on a
      descriptor and publishes the descriptor. Without memory it does nothing. */
  method EthernetSend(heap: KernelHeap.KernelHeap, vq: Virtqueue.Virtqueue, len: nat, ghost t: Tx)
    returns (sent: bool, ghost t': Tx)
    requires Matches(heap, vq, t) && Inv(t) && Enabled(t, Send(len))
    modifies heap, vq, vq.desc, vq.availRing, vq.usedRing
    ensures Matches(heap, vq, t') && Inv(t') && t'.pc.Idle? && t'.s.phase.AtRest?
    ensures sent <==> Heap.Alloc(t.heap, FRAME_OVERHEAD + len).ptr != NULL
    ensures !sent ==> t' == t
    ensures sent ==>
              var buffer, head := Heap.Alloc(t.heap, FRAME_OVERHEAD + len).ptr, t.s.q.freeHead;
              && t'.frames == t.frames + [Frame(buffer, FRAME_OVERHEAD + len, 0)] && t'.at == t.at + [On(head)]
              && t'.s.pushed == t.s.pushed + [head] && head < |t'.s.q.desc|
              && t'.s.q.desc[head] == Desc(buffer, FRAME_OVERHEAD + len, 0, 0)
  {
    hide Heap.Tiled, Heap.Live, Heap.Alloc, Heap.NoWrap, Ring.Inv, Ring.Next, Inv, AddDescriptor, WriteSlot,
      WellFormed, EnqueueStep, PublishStep, Ready, Ring.Enabled;
    var totalLen := (FRAME_OVERHEAD + len) % U32;
    SendFacts(t, len);
    var buffer := heap.Kmalloc(totalLen);
    if buffer == NULL { return false, t; }
    t' := SendStep(t, len);
    EnqueueFacts(t', |t.frames|);
    var head := vq.Add(buffer, totalLen, 0);
    t' := EnqueueStep(t', |t.frames|);
    PublishFacts(t', head);
    ghost var visible := vq.Push(head, []);
    t' := PublishStep(PublishStep(t', head), head);
    sent := true;
  }

  lemma SendFacts(t: Tx, len: nat)
    requires Inv(t) && Enabled(t, Send(len))
    ensures Heap.NoWrap(t.heap, FRAME_OVERHEAD + len) && Inv(SendStep(t, len)) && |t.at| == |t.frames|
    ensures var r := Heap.Alloc(t.heap, FRAME_OVERHEAD + len); r.ptr == NULL ==> r.heap == t.heap
  {
    HeapRoom(t.heap, FRAME_OVERHEAD + len);
    Heap.AllocOwnership(t.heap, FRAME_OVERHEAD + len);
    SendKeeps(t, len);
  }

  lemma EnqueueFacts(t: Tx, k: nat)
    requires Inv(t) && t.pc == HaveBuffer(k)
    ensures Ready(t) && WellFormed(t.s.q) && t.s.q.freeHead < |t.s.q.desc|
    ensures var f, t' := t.frames[k], EnqueueStep(t, k);
            && Inv(t') && t'.pc == HaveHead(t.s.q.freeHead) && t'.s.phase.AtRest?
            && Added(t'.s.q, t.s.q.freeHead) == AddDescriptor(t.s.q, f.buf, f.len, 0)
            && t'.s.pushed == t.s.pushed && t'.s.q.desc == t.s.q.desc[t.s.q.freeHead := Desc(f.buf, f.len, 0, 0)]
            && t'.heap == t.heap && t'.frames == t.frames && t'.at == t.at[k := On(t.s.q.freeHead)]
  {
    EnqueueKeeps(t, k);
    InvFacts(t.s);
    hide Inv, Ring.Inv;
  }

  /** Both halves of a publication during which the device stands still. */
  lemma PublishFacts(t: Tx, head: nat)
    requires Inv(t) && t.pc == HaveHead(head) && t.s.phase.AtRest?
    ensures WellFormed(t.s.q) && Ready(t) && Ready(PublishStep(t, head))
    ensures var t' := PublishStep(PublishStep(t, head), head);
            && Inv(t') && t'.pc.Idle? && t'.s.phase.AtRest? && t'.s.q == PublishIndex(Completed(WriteSlot(t.s.q, head), []))
            && t'.s.pushed == t.s.pushed + [head] && t'.s.q.desc == t.s.q.desc
            && t' == t.(s := t'.s, pc := Idle)
  {
    PublishStepKeeps(t, head);
    PublishStepKeeps(PublishStep(t, head), head);
    InvFacts(t.s);
    hide Heap.Tiled, Heap.Live, Owned, Counted, Carried, PcOk, Ring.Inv;
    WriteKeeps(t.s, head);
    PublishKeeps(Ring.Next(t.s, Write(head)));
    PushAlone(t.s, head);
  }

  /** Frame `k` is on a descriptor whose receipt the driver has not read yet. */
  ghost predicate Awaiting(t: Tx, k: nat)
    requires k < |t.at|
  {
    t.at[k].On? && t.at[k].id < |t.s.owner| && t.s.owner[t.at[k].id] == Returned
  }

  /** One turn of the reaper: descriptor `id` comes back and its frame, `k`, is freed. */
  lemma ReapOne(t: Tx) returns (id: nat, k: nat)
    requires Inv(t) && t.pc.Idle? && t.s.phase.AtRest? && |t.s.reaped| < |t.s.wrote|
    ensures WellFormed(t.s.q) && Ready(t) && Ready(t.(s := t.s.(phase := Seen))) && id == t.s.wrote[|t.s.reaped|].id < |t.s.owner|
    ensures k < |t.frames| == |t.at| && t.at[k] == On(id) && t.s.owner[id] == Returned
    ensures Completed(t.s.q, []) == t.s.q && t.s.q.lastUsedIdx != t.s.q.usedIdx
    ensures var t1 := TakeStep(t.(s := t.s.(phase := Seen)));
            && PopUsed(t.s.q) == Ring.Popped.Popped(t1.s.q, t.s.wrote[|t.s.reaped|])
            && Inv(t1) && Ready(t1) && id < |t1.s.q.desc| && t1.carrier[id] == k < |t1.frames| && t1.heap == t.heap
            && t1.s.q.desc[id].addr in Heap.Live(t.heap.blocks) && t1.s.q.desc[id].addr != NULL
            && var t2 := FreeStep(t1, id);
               && Inv(t2) && t2.pc.Idle? && t2.s.phase.AtRest? && t2.heap == Heap.Release(t.heap, t1.s.q.desc[id].addr)
               && t2.frames == t.frames[k := t.frames[k].(freed := 1)] && t2.at == t.at[k := Gone]
               && t2.s.q == t1.s.q && t2.s.owner == t.s.owner[id := Free]
               && t2.s.wrote == t.s.wrote && t2.s.reaped == t.s.reaped + [t.s.wrote[|t.s.reaped|]]
  {
    hide Heap.Tiled, Heap.Live, Heap.Release, Ring.Inv, Owned, Counted, Carried, PcOk;
    LookStepKeeps(t);
    PopAlone(t.s);
    var t0 := t.(s := t.s.(phase := Seen));
    TakeStepKeeps(t0);
    TakeKeeps(t0.s);
    InvFacts(t.s);
    id := t.s.wrote[|t.s.reaped|].id;
    k := t.carrier[id];
    CarrierOf(t, id);
    FreeKeeps(TakeStep(t0), id);
    hide Inv;
    FreedBuffer(TakeStep(t0), id);
  }

  lemma CarrierOf(t: Tx, id: nat)
    requires Linked(t) && id < |t.s.owner| && t.s.owner[id] == Returned
    ensures id < |t.carrier| && t.carrier[id] < |t.frames| == |t.at|
    ensures t.at[t.carrier[id]] == On(id) && t.frames[t.carrier[id]].freed == 0
  {
  }

  lemma FreedBuffer(t: Tx, id: nat)
    requires Inv(t) && t.pc == Reaping(id)
    ensures id < |t.s.q.desc| && t.s.q.desc[id].addr in Heap.Live(t.heap.blocks) && t.s.q.desc[id].addr != NULL
  {
    FreeKeeps(t, id);
    Heap.NullNotLive(t.heap);
    hide Heap.Live, Heap.Tiled, Ring.Inv;
  }

  /** What the reaper has done so far: frames awaiting it are either untouched or freed. */
  ghost predicate Progress(t: Tx, t': Tx) {
    && |t'.frames| == |t.frames| == |t'.at| == |t.at| && |t'.s.owner| == |t.s.owner|
    && t'.s.wrote == t.s.wrote
    && (forall k | 0 <= k < |t.frames| ::
          || (t'.frames[k] == t.frames[k] && t'.at[k] == t.at[k])
          || (Awaiting(t, k) && t'.frames[k] == t.frames[k].(freed := 1) && t'.at[k] == Gone))
    && forall id | 0 <= id < |t.s.owner| ::
         t'.s.owner[id] == t.s.owner[id] || (t.s.owner[id] == Returned && t'.s.owner[id] == Free)
  }

  lemma ProgressStep(t: Tx, t': Tx, t2: Tx, id: nat, k: nat)
    requires Progress(t, t') && k < |t'.frames| == |t'.at| && id < |t'.s.owner|
    requires t'.at[k] == On(id) && t'.s.owner[id] == Returned
    requires t2.frames == t'.frames[k := t'.frames[k].(freed := 1)] && t2.at == t'.at[k := Gone]
    requires t2.s.owner == t'.s.owner[id := Free] && t2.s.wrote == t'.s.wrote
    ensures Progress(t, t2)
  {
    assert Awaiting(t, k);
  }

  lemma ProgressDone(t: Tx, t': Tx)
    requires Inv(t) && Inv(t') && Progress(t, t') && |t'.s.reaped| == |t'.s.wrote|
    ensures forall k | 0 <= k < |t.frames| ::
              t'.frames[k] == if Awaiting(t, k) then t.frames[k].(freed := 1) else t.frames[k]
    ensures t'.s.reaped == t.s.wrote
  {
    var none := Ids(t'.s.wrote[|t'.s.reaped|..]);
    assert none == [];
    assert forall id | 0 <= id < |t'.s.owner| :: t'.s.owner[id] != Returned by {
      forall id: nat | id < |t'.s.owner| ensures t'.s.owner[id] != Returned { assert id !in none; }
    }
    hide Ring.Inv, Heap.Tiled, Heap.Live, Owned;
  }

  /** `net_tx_reaper`: frees the buffer of every receipt in the used ring, and no other. */
  method NetTxReaper(heap: KernelHeap.KernelHeap, vq: Virtqueue.Virtqueue, ghost t: Tx) returns (ghost t': Tx)
    requires Matches(heap, vq, t) && Inv(t) && t.pc.Idle? && t.s.phase.AtRest?
    modifies heap, vq, vq.desc, vq.usedRing
    ensures Matches(heap, vq, t') && Inv(t') && t'.pc.Idle? && t'.s.phase.AtRest?
    ensures t'.s.reaped == t.s.wrote == t'.s.wrote && |t'.frames| == |t.frames|
    ensures forall k | 0 <= k < |t.frames| ::
              t'.frames[k] == if Awaiting(t, k) then t.frames[k].(freed := 1) else t.frames[k]
  {
    hide Heap.Tiled, Heap.Live, Heap.Release, Ring.Inv, Ring.Next, Inv, PopUsed, WellFormed, FreeStep, TakeStep, Ready;
    t' := t;
    IdleFacts(t);
    while true
      invariant Inv(t') && t'.pc.Idle? && t'.s.phase.AtRest? && Matches(heap, vq, t') && Progress(t, t')
      invariant vq.desc == old(vq.desc) && vq.usedRing == old(vq.usedRing)
      decreases |t'.s.wrote| - |t'.s.reaped|
    {
      IdleFacts(t');
      ghost var id: nat, k: nat := 0, 0;
      if |t'.s.reaped| < |t'.s.wrote| { id, k := ReapOne(t'); }
      var descId, len := vq.Pop([]);
      if descId == -1 { break; }
      var bufferToFree := vq.desc[descId].addr;
      ghost var i := Heap.LiveOnly(heap.blocks, bufferToFree);
      if bufferToFree != NULL {
        heap.Kfree(bufferToFree);
      }
      ghost var t2 := FreeStep(TakeStep(t'.(s := t'.s.(phase := Seen))), id);
      ProgressStep(t, t', t2, id, k);
      t' := t2;
    }
    ProgressDone(t, t');
  }

  lemma IdleFacts(t: Tx)
    requires Inv(t)
    ensures WellFormed(t.s.q) && |t.s.reaped| <= |t.s.wrote|
    ensures PopUsed(t.s.q).Popped? <==> |t.s.reaped| < |t.s.wrote|
    ensures |t.at| == |t.frames|
  {
    InvFacts(t.s);
  }
}

/** Receiving: every descriptor of the RX queue is paired for good with one static buffer. */
module RxPath {
  import opened RingIndex
  import opened Ring
  import RingLayout
  import Virtqueue

  const RX_QUEUE_SIZE: int := 256
  const RX_BUF_SIZE: int := 2048
  const F_WRITE: int := 2

  /** Address of `rx_buffers[id]` in an array that starts at `base`. */
  function Buffer(base: nat, id: nat): nat {
    base + RX_BUF_SIZE * id
  }

  /** Where the driver stands: filling the queue at setup, idle or at the start of a poll, or inside
      a poll that has popped descriptor `id`, or that has refilled it and not yet published it. Whether
      it is at a barrier is the phase of the queue. */
  datatype Pc = Filling(i: nat) | Filled(i: nat, head: nat) | Idle | Got(id: nat) | Refilled(head: nat)

  datatype Rx = Rx(s: Sys, pc: Pc)

  datatype Step = Driver | Device(step: Ring.Step)

  ghost predicate Enabled(r: Rx, step: Step) {
    match step
    case Driver => true
    case Device(d) => (d.Consume? || d.Complete?) && Ring.Enabled(r.s, d)
  }

  /** The driver's next action, as its program counter and the phase of the queue dictate. */
  ghost function DriverStep(base: nat, r: Rx): Rx
    requires Ready(r)
  {
    match r.pc
    case Filling(i) =>
      if i < r.s.q.size then
        Rx(Ring.Next(r.s, Add(Buffer(base, i), RX_BUF_SIZE, F_WRITE)),
           Filled(i, AddDescriptor(r.s.q, Buffer(base, i), RX_BUF_SIZE, F_WRITE).head))
      else r.(pc := Idle)
    case Filled(i, head) =>
      if r.s.phase.Staged? then Rx(Ring.Next(r.s, Publish), Filling(i + 1)) else r.(s := Ring.Next(r.s, Write(head)))
    case Idle =>
      if r.s.phase.Seen? then
        var p := PopUsed(r.s.q);
        if p.Nothing? then r else Rx(Ring.Next(r.s, Take), Got(p.receipt.id))
      else r.(s := Ring.Next(r.s, Look))
    case Got(id) =>
      Rx(Ring.Next(r.s, Add(Buffer(base, id), RX_BUF_SIZE, F_WRITE)),
         Refilled(AddDescriptor(r.s.q, Buffer(base, id), RX_BUF_SIZE, F_WRITE).head))
    case Refilled(head) =>
      if r.s.phase.Staged? then Rx(Ring.Next(r.s, Publish), Idle) else r.(s := Ring.Next(r.s, Write(head)))
  }

  /** What the driver's own indices need; always true of states that keep the invariant below. */
  ghost predicate Ready(r: Rx) {
    WellFormed(r.s.q) && |r.s.owner| == r.s.q.size && (r.s.phase.Staged? ==> r.s.phase.id < |r.s.owner|)
  }

  ghost function Next(base: nat, r: Rx, step: Step): Rx
    requires Ready(r) && Enabled(r, step)
  {
    match step
    case Driver => DriverStep(base, r)
    case Device(d) => r.(s := Ring.Next(r.s, d))
  }

  // ---------------------------------------------------------------------------------------
  // The pairing invariant
  // ---------------------------------------------------------------------------------------

  /** A descriptor that describes buffer `id`: address, length and direction. */
  ghost predicate Paired(base: nat, d: Desc, id: nat) {
    d.addr == Buffer(base, id) && d.len == RX_BUF_SIZE && d.flags == F_WRITE
  }

  /** The driver holds no descriptor except possibly `head`. */
  ghost predicate OnlyTaken(s: Sys, head: nat) {
    forall id | 0 <= id < |s.owner| :: s.owner[id] == Taken ==> id == head
  }

  /** During setup: `free` is what is left to fill, descriptors below `n` are paired. */
  ghost predicate Setup(base: nat, s: Sys, free: nat, n: nat, head: nat) {
    && free <= s.q.size && s.free == Range(free, s.q.size) && OnlyTaken(s, head)
    && n <= |s.q.desc| && forall id | 0 <= id < n :: Paired(base, s.q.desc[id], id)
  }

  /** After setup: `free` is on the free list and all descriptors are paired. */
  ghost predicate Steady(base: nat, s: Sys, free: seq<nat>, head: nat) {
    s.free == free && OnlyTaken(s, head) && AllPaired(base, s.q)
  }

  ghost predicate AllPaired(base: nat, q: Queue) {
    forall id | 0 <= id < |q.desc| :: Paired(base, q.desc[id], id)
  }

  ghost predicate Holding(s: Sys, head: nat) {
    head < |s.owner| && s.owner[head] == Taken
  }

  /** The driver holds `head` and is publishing it, on either side of the slot store. */
  ghost predicate Publishing(s: Sys, head: nat) {
    Holding(s, head) && (s.phase.AtRest? || s.phase == Staged(head))
  }

  ghost predicate Stage(base: nat, s: Sys, pc: Pc) {
    match pc
    case Filling(i) => s.phase.AtRest? && Setup(base, s, i, i, NONE)
    case Filled(i, head) => head == i && Publishing(s, i) && Setup(base, s, i + 1, i + 1, i)
    case Idle => !s.phase.Staged? && Steady(base, s, [], NONE)
    case Got(id) => s.phase.AtRest? && Steady(base, s, [id], NONE)
    case Refilled(head) => Publishing(s, head) && Steady(base, s, [], head)
  }

  ghost predicate Inv(base: nat, r: Rx) {
    Ring.Inv(r.s) && Stage(base, r.s, r.pc)
  }

  /** Device steps rewrite no descriptor and leave the driver's descriptors alone. */
  lemma DeviceKeeps(base: nat, s: Sys, pc: Pc, d: Ring.Step)
    requires Ring.Inv(s) && Stage(base, s, pc) && Ring.Enabled(s, d) && (d.Consume? || d.Complete?)
    ensures Ring.Inv(Ring.Next(s, d)) && Ring.Next(s, d).q.size == s.q.size && Stage(base, Ring.Next(s, d), pc)
  {
    hide Ring.Inv, Ring.Next, Ring.Enabled;
    var id, k := DeviceStepEffect(s, d);
  }

  /** Filling takes descriptor `i` for buffer `i`. */
  lemma FillAdd(base: nat, s: Sys, i: nat)
    requires Ring.Inv(s) && s.phase.AtRest? && Setup(base, s, i, i, NONE) && i < s.q.size
    ensures WellFormed(s.q) && |s.owner| == s.q.size
    ensures AddDescriptor(s.q, Buffer(base, i), RX_BUF_SIZE, F_WRITE).head == i
    ensures var s' := Ring.Next(s, Add(Buffer(base, i), RX_BUF_SIZE, F_WRITE));
            && Ring.Inv(s') && s'.q.size == s.q.size && s'.pushed == s.pushed
            && s'.phase.AtRest? && Stage(base, s', Filled(i, i))
            && s'.q == AddDescriptor(s.q, Buffer(base, i), RX_BUF_SIZE, F_WRITE).q
  {
    InvFacts(s);
    hide Ring.Inv;
    AddKeeps(s, Buffer(base, i), RX_BUF_SIZE, F_WRITE);
    RangeTail(i, s.q.size);
  }

  /** Publishing the one descriptor the driver holds. */
  lemma PublishHeld(base: nat, s: Sys, head: nat)
    requires Ring.Inv(s) && s.phase == Staged(head) && OnlyTaken(s, head)
    ensures Ring.Enabled(s, Publish)
    ensures var s' := Ring.Next(s, Publish);
            && Ring.Inv(s') && s'.phase.AtRest? && s'.q.size == s.q.size && s'.q.desc == s.q.desc
            && s'.free == s.free && s'.pushed == s.pushed + [head] && s'.reaped == s.reaped && s'.wrote == s.wrote
            && OnlyTaken(s', NONE)
  {
    InvFacts(s);
    hide Ring.Inv;
    PublishKeeps(s);
  }

  /** A poll takes the descriptor that the oldest unread receipt names, also when more receipts arrive
      between its look and its read. */
  lemma PollPops(base: nat, s: Sys)
    requires Ring.Inv(s) && s.phase.Seen? && Steady(base, s, [], NONE)
    ensures Ring.Enabled(s, Take) && |s.reaped| < |s.wrote|
    ensures var receipt, s' := s.wrote[|s.reaped|], Ring.Next(s, Take);
            && PopUsed(s.q) == Popped(s'.q, receipt) && Ring.Inv(s') && s'.phase.AtRest? && s'.q.size == s.q.size
            && s'.pushed == s.pushed && s'.reaped == s.reaped + [receipt]
            && Steady(base, s', [receipt.id], NONE)
  {
    InvFacts(s);
    TakeKeeps(s);
    hide Ring.Inv;
    assert [s.wrote[|s.reaped|].id] + s.free == [s.wrote[|s.reaped|].id];
  }

  /** Refilling never finds the queue exhausted and gets back the descriptor just popped. */
  lemma RefillGetsSameDescriptor(base: nat, s: Sys, id: nat)
    requires Ring.Inv(s) && s.phase.AtRest? && Steady(base, s, [id], NONE)
    ensures WellFormed(s.q) && |s.owner| == s.q.size && id < s.q.size && id != NONE
    ensures AddDescriptor(s.q, Buffer(base, id), RX_BUF_SIZE, F_WRITE).head == id
    ensures var s' := Ring.Next(s, Add(Buffer(base, id), RX_BUF_SIZE, F_WRITE));
            && s'.q == AddDescriptor(s.q, Buffer(base, id), RX_BUF_SIZE, F_WRITE).q
            && Ring.Inv(s') && s'.phase.AtRest? && s'.q.size == s.q.size && s'.pushed == s.pushed && s'.reaped == s.reaped
            && Holding(s', id) && Steady(base, s', [], id)
  {
    InvFacts(s);
    hide Ring.Inv;
    AddKeeps(s, Buffer(base, id), RX_BUF_SIZE, F_WRITE);
    assert s.free[1..] == [];
  }

  lemma DriverKeeps(base: nat, r: Rx)
    requires Inv(base, r)
    ensures Ready(r) && Inv(base, DriverStep(base, r))
  {
    InvReady(base, r);
    hide Ring.Inv, Ring.Next, AddDescriptor, PopUsed, WellFormed, Setup, Steady;
    match r.pc
    case Filling(i) => FillKeeps(base, r.s, i);
    case Filled(i, _) => FilledKeeps(base, r.s, i);
    case Idle => IdleKeeps(base, r.s);
    case Got(id) => RefillGetsSameDescriptor(base, r.s, id);
    case Refilled(head) => RefilledKeeps(base, r.s, head);
  }

  lemma InvReady(base: nat, r: Rx)
    requires Inv(base, r)
    ensures Ready(r)
  {
    InvFacts(r.s);
  }

  lemma FillKeeps(base: nat, s: Sys, i: nat)
    requires Inv(base, Rx(s, Filling(i)))
    ensures Ready(Rx(s, Filling(i))) && Inv(base, DriverStep(base, Rx(s, Filling(i))))
  {
    InvFacts(s);
    hide Ring.Inv, Ring.Next, AddDescriptor, WellFormed, OnlyTaken, Paired;
    if i < s.q.size { FillAdd(base, s, i); }
  }

  lemma FilledKeeps(base: nat, s: Sys, i: nat)
    requires Inv(base, Rx(s, Filled(i, i)))
    ensures Ready(Rx(s, Filled(i, i))) && Inv(base, DriverStep(base, Rx(s, Filled(i, i))))
  {
    InvReady(base, Rx(s, Filled(i, i)));
    hide Ring.Inv, Ring.Next, WriteSlot, WellFormed, OnlyTaken, Paired;
    if s.phase.Staged? { PublishHeld(base, s, i); } else { WriteHeld(base, s, i); }
  }

  /** The slot store moves nothing but the phase, as far as owners and descriptors go. */
  lemma WriteHeld(base: nat, s: Sys, head: nat)
    requires Ring.Inv(s) && s.phase.AtRest? && Holding(s, head) && OnlyTaken(s, head)
    ensures Ring.Enabled(s, Write(head))
    ensures var s' := Ring.Next(s, Write(head));
            && Ring.Inv(s') && s'.phase == Staged(head) && s'.q.size == s.q.size && s'.q.desc == s.q.desc
            && s'.owner == s.owner && s'.free == s.free && s'.pushed == s.pushed && s'.reaped == s.reaped && s'.wrote == s.wrote
            && OnlyTaken(s', head)
  {
    InvFacts(s);
    hide Ring.Inv;
    WriteKeeps(s, head);
  }

  lemma IdleKeeps(base: nat, s: Sys)
    requires Inv(base, Rx(s, Idle))
    ensures Ready(Rx(s, Idle)) && Inv(base, DriverStep(base, Rx(s, Idle)))
  {
    InvReady(base, Rx(s, Idle));
    hide Ring.Inv, Ring.Next, PopUsed, WellFormed, OnlyTaken, Paired;
    if s.phase.Seen? { PollPops(base, s); } else { LookKeeps(s); }
  }

  lemma RefilledKeeps(base: nat, s: Sys, head: nat)
    requires Inv(base, Rx(s, Refilled(head)))
    ensures Ready(Rx(s, Refilled(head))) && Inv(base, DriverStep(base, Rx(s, Refilled(head))))
  {
    InvReady(base, Rx(s, Refilled(head)));
    hide Ring.Inv, Ring.Next, WriteSlot, WellFormed, OnlyTaken, Paired;
    if s.phase.Staged? { PublishHeld(base, s, head); } else { WriteHeld(base, s, head); }
  }

  lemma StepKeepsPairing(base: nat, r: Rx, step: Step)
    requires Inv(base, r) && Enabled(r, step)
    ensures Ready(r) && Inv(base, Next(base, r, step))
  {
    DriverKeeps(base, r);
    hide Ring.Inv, Ring.Next, Stage, WellFormed, DriverStep;
    match step
    case Device(d) => DeviceKeeps(base, r.s, r.pc, d);
    case Driver =>
  }

  // ---------------------------------------------------------------------------------------
  // Whole runs, from an empty queue
  // ---------------------------------------------------------------------------------------

  ghost predicate ValidRun(base: nat, r: Rx, steps: seq<Step>)
    decreases |steps|
  {
    steps == [] || (Ready(r) && Enabled(r, steps[0]) && ValidRun(base, Next(base, r, steps[0]), steps[1..]))
  }

  ghost function Run(base: nat, r: Rx, steps: seq<Step>): Rx
    requires ValidRun(base, r, steps)
    decreases |steps|
  {
    if steps == [] then r else Run(base, Next(base, r, steps[0]), steps[1..])
  }

  lemma {:induction false} RunKeepsPairing(base: nat, r: Rx, steps: seq<Step>)
    requires Inv(base, r) && ValidRun(base, r, steps)
    ensures Inv(base, Run(base, r, steps))
    decreases |steps|
  {
    hide Ring.Inv;
    if steps != [] {
      StepKeepsPairing(base, r, steps[0]);
      RunKeepsPairing(base, Next(base, r, steps[0]), steps[1..]);
    }
  }

  /** Between polls, in every interleaving of setup, polls and device: each descriptor points at
      its own buffer, none is free, and every one is with the device or in one of the rings. */
  lemma BetweenPolls(base: nat, size: nat, mem: seq<Desc>, steps: seq<Step>)
    requires QueueSize(size) && |mem| == size
    requires ValidRun(base, Rx(Start(size, mem), Filling(0)), steps)
    ensures var r := Run(base, Rx(Start(size, mem), Filling(0)), steps);
            && Inv(base, r)
            && (r.pc.Idle? ==>
                  && r.s.q.numFree == 0 && AllPaired(base, r.s.q)
                  && forall id | 0 <= id < |r.s.owner| :: r.s.owner[id] in {Pending, Held, Returned})
  {
    hide Ring.Inv;
    StartInv(size, mem);
    RunKeepsPairing(base, Rx(Start(size, mem), Filling(0)), steps);
    var r := Run(base, Rx(Start(size, mem), Filling(0)), steps);
    InvFacts(r.s);
  }

  /** A descriptor's buffer lies in the static array of `RX_QUEUE_SIZE` buffers. */
  ghost predicate InArray(base: nat, d: Desc) {
    base <= d.addr && d.addr + d.len <= base + RX_QUEUE_SIZE * RX_BUF_SIZE
  }

  /** The size comes from the device unchecked: between polls every buffer given to the device lies in
      the array if and only if the queue has at most 256 entries. */
  lemma BuffersInArrayIff(base: nat, r: Rx)
    requires Inv(base, r) && r.pc.Idle?
    ensures (forall id | 0 <= id < |r.s.q.desc| :: InArray(base, r.s.q.desc[id])) <==> r.s.q.size <= RX_QUEUE_SIZE
  {
    InvFacts(r.s);
    hide Ring.Inv;
    forall id | 0 <= id < |r.s.q.desc| ensures InArray(base, r.s.q.desc[id]) <==> id < RX_QUEUE_SIZE {
      assert Paired(base, r.s.q.desc[id], id);
    }
    if r.s.q.size > RX_QUEUE_SIZE { assert !InArray(base, r.s.q.desc[RX_QUEUE_SIZE]); }
  }

  /** 512 entries, which the ring memory holds, give the device a buffer that starts where the array
      ends. */
  lemma BeyondArrayWitness(base: nat, r: Rx)
    requires Inv(base, r) && r.pc.Idle? && r.s.q.size == 512
    ensures RingLayout.UsedEnd(512) <= RingLayout.RING_MEMORY && |r.s.q.desc| == 512
    ensures r.s.q.desc[256].addr == base + RX_QUEUE_SIZE * RX_BUF_SIZE
  {
    InvFacts(r.s);
    hide Ring.Inv;
    assert Paired(base, r.s.q.desc[256], 256);
  }

  // ---------------------------------------------------------------------------------------
  // The driver's code
  // ---------------------------------------------------------------------------------------

  lemma SeenSteady(base: nat, s: Sys)
    requires Steady(base, s, [], NONE)
    ensures Steady(base, s.(phase := Seen), [], NONE)
  {
  }

  /** One turn of the prefill loop: takes descriptor `i` for buffer `i` and publishes it. */
  method FillOne(vq: Virtqueue.Virtqueue, base: nat, i: nat, ghost s: Sys) returns (ghost s': Sys)
    requires s.q == vq.Model() && Ring.Inv(s) && Stage(base, s, Filling(i)) && i < vq.size
    modifies vq, vq.desc, vq.availRing, vq.usedRing
    ensures s'.q == vq.Model() && Ring.Inv(s') && Stage(base, s', Filling(i + 1))
    ensures s'.pushed == s.pushed + [i]
    ensures vq.size == old(vq.size) && vq.desc == old(vq.desc) && vq.availRing == old(vq.availRing) && vq.usedRing == old(vq.usedRing)
  {
    hide Ring.Inv, Ring.Next, AddDescriptor, WriteSlot, WellFormed, Paired, OnlyTaken;
    FillAdd(base, s, i);
    var id := vq.Add(Buffer(base, i), RX_BUF_SIZE, F_WRITE);
    s' := Ring.Next(s, Add(Buffer(base, i), RX_BUF_SIZE, F_WRITE));
    WriteHeld(base, s', i);
    PushAlone(s', i);
    ghost var visible := vq.Push(id, []);
    s' := Ring.Next(s', Write(i));
    PublishHeld(base, s', i);
    s' := Ring.Next(s', Publish);
  }

  /** The prefill loop of queue setup: publishes buffer `i` under descriptor `i`, for every `i`. */
  method Prefill(vq: Virtqueue.Virtqueue, base: nat, ghost s: Sys) returns (ghost s': Sys)
    requires s.q == vq.Model() && Inv(base, Rx(s, Filling(0)))
    modifies vq, vq.desc, vq.availRing, vq.usedRing
    ensures s'.q == vq.Model() && Inv(base, Rx(s', Idle))
    ensures s'.pushed == s.pushed + Range(0, vq.size) && vq.numFree == 0 && vq.size == old(vq.size)
  {
    hide Ring.Inv, WellFormed, Paired, OnlyTaken;
    s' := s;
    var i := 0;
    assert s.pushed + Range(0, 0) == s.pushed;
    while i < vq.size
      invariant 0 <= i <= vq.size == s'.q.size == old(vq.size)
      invariant s'.q == vq.Model() && Ring.Inv(s') && Stage(base, s', Filling(i))
      invariant s'.pushed == s.pushed + Range(0, i)
      invariant vq.desc == old(vq.desc) && vq.availRing == old(vq.availRing) && vq.usedRing == old(vq.usedRing)
    {
      s' := FillOne(vq, base, i, s');
      assert Range(0, i) + [i] == Range(0, i + 1);
      i := i + 1;
    }
    InvFacts(s');
  }

  /** The device's header takes 12 bytes; the code's structure for it has 10. */
  const WIRE_HEADER: int := 12
  const HEADER_STRUCT: int := 10

  /** What a poll found: no receipt, a receipt too short for a frame, or a frame for the handler. */
  datatype Polled = Quiet | Empty | Frame(addr: nat, len: nat)

  function FrameOf(base: nat, receipt: Receipt): Polled {
    if receipt.len > HEADER_STRUCT then Frame(Buffer(base, receipt.id) + WIRE_HEADER, receipt.len - HEADER_STRUCT) else Empty
  }

  /** With 2047 of its 2048 bytes written, a buffer's frame ends one byte into the next buffer. */
  lemma FrameOverrunWitness(base: nat)
    ensures FrameOf(base, Receipt(0, 2047)) == Frame(base + 12, 2037) && base + 12 + 2037 == Buffer(base, 1) + 1
  {
  }

  /** One poll: pops a receipt, hands the frame in its buffer to the handler, and gives the buffer
      back to the device. The frame starts behind the 12-byte header but is only 10 bytes shorter
      than what the device wrote, so it always ends two bytes past that, and it ends inside the
      buffer exactly when at most 2046 bytes were written. */
  method Poll(vq: Virtqueue.Virtqueue, base: nat, ghost s: Sys) returns (got: Polled, ghost s': Sys)
    requires s.q == vq.Model() && Inv(base, Rx(s, Idle)) && s.phase.AtRest?
    modifies vq, vq.desc, vq.availRing, vq.usedRing
    ensures s'.q == vq.Model() && Inv(base, Rx(s', Idle)) && s'.phase.AtRest?
    ensures |s.reaped| == |s.wrote| ==> got == Quiet && s' == s
    ensures |s.reaped| < |s.wrote| ==>
              var receipt := s.wrote[|s.reaped|];
              && got == FrameOf(base, receipt) && (got.Empty? <==> receipt.len <= HEADER_STRUCT) && !got.Quiet?
              && (got.Frame? ==>
                    && got.addr == Buffer(base, receipt.id) + WIRE_HEADER
                    && got.addr + got.len == Buffer(base, receipt.id) + receipt.len + 2
                    && (got.addr + got.len <= Buffer(base, receipt.id + 1) <==> receipt.len <= 2046))
              && s'.reaped == s.reaped + [receipt] && s'.pushed == s.pushed + [receipt.id]
  {
    hide Ring.Inv, Ring.Next, AddDescriptor, PopUsed, WriteSlot, WellFormed, Paired, OnlyTaken;
    InvFacts(s);
    s' := s.(phase := Seen);
    if |s.reaped| < |s.wrote| {
      PopAlone(s);
      SeenSteady(base, s);
      PollPops(base, s');
    }
    var id, len := vq.Pop([]);
    if id < 0 { return Quiet, s; }
    s' := Ring.Next(s', Take);
    RefillGetsSameDescriptor(base, s', id);
    var newId := vq.Add(Buffer(base, id), RX_BUF_SIZE, F_WRITE);
    s' := Ring.Next(s', Add(Buffer(base, id), RX_BUF_SIZE, F_WRITE));
    WriteHeld(base, s', newId);
    PushAlone(s', newId);
    ghost var visible := vq.Push(newId, []);
    s' := Ring.Next(s', Write(newId));
    PublishHeld(base, s', newId);
    s' := Ring.Next(s', Publish);
    got := FrameOf(base, Receipt(id, len));
  }
}

/** Control blocks live in the kernel heap: the connection table and the allocator together, with
    the rest of the kernel allocating and freeing in between. */
module TcpMemory {
  import opened Machine
  import opened Bytes
  import opened TcpConnection
  import opened TcpTable
  import Heap

  /** Size of a control block. */
  const TCB_SIZE: int := 40

  /** `others` are the payloads held by everybody else. */
  datatype Memory = Memory(heap: Heap.State, stack: Stack, others: set<nat>)

  datatype Step = Arrive(seg: Seg, mem: seq<bool>) | OtherMalloc(size: nat) | OtherFree(ptr: nat)

  predicate Opens(s: Stack, seg: Seg) {
    Find(s.live, SegKey(seg), 0) == |s.live| && HasSyn(seg.flags) && seg.dstPort == HTTP_PORT
  }

  predicate Closes(s: Stack, seg: Seg, response: seq<Byte>, mem: seq<bool>) {
    var k := Find(s.live, SegKey(seg), 0);
    k < |s.live| && Advance(s.live[k].conn, seg, response, mem).Remove?
  }

  /** A segment: a passive open allocates a control block, a final ACK frees one. */
  function OnSegment(m: Memory, seg: Seg, response: seq<Byte>, mem: seq<bool>): Memory {
    if Opens(m.stack, seg) then
      var r := Heap.Alloc(m.heap, TCB_SIZE);
      m.(heap := r.heap, stack := Input(m.stack, seg, r.ptr, response, mem))
    else
      var stack := Input(m.stack, seg, NULL, response, mem);
      if Closes(m.stack, seg, response, mem) then
        m.(heap := Heap.Release(m.heap, m.stack.live[Find(m.stack.live, SegKey(seg), 0)].addr), stack := stack)
      else m.(stack := stack)
  }

  ghost predicate Enabled(m: Memory, step: Step) {
    match step
    case Arrive(seg, _) => SegRanges(seg)
    case OtherMalloc(size) => Heap.NoWrap(m.heap, size)
    case OtherFree(ptr) => ptr in m.others
  }

  function Next(m: Memory, step: Step, response: seq<Byte>): Memory {
    match step
    case Arrive(seg, mem) => OnSegment(m, seg, response, mem)
    case OtherMalloc(size) =>
      var r := Heap.Alloc(m.heap, size);
      if r.ptr == NULL then m else m.(heap := r.heap, others := m.others + {r.ptr})
    case OtherFree(ptr) => m.(heap := Heap.Release(m.heap, ptr), others := m.others - {ptr})
  }

  function Addrs(entries: seq<Entry>): set<nat> { set e | e in entries :: e.addr }

  /** Every listed control block occupies memory allocated for it and given to nobody else, and no other
      memory is allocated but what everybody else holds. */
  ghost predicate Held(live: map<nat, nat>, entries: seq<Entry>, others: set<nat>) {
    && live.Keys == Addrs(entries) + others && NULL !in live
    && forall i | 0 <= i < |entries| ::
         entries[i].addr in live && live[entries[i].addr] >= TCB_SIZE && entries[i].addr !in others
  }

  ghost predicate Inv(m: Memory) {
    Heap.Tiled(m.heap) && TcpTable.Inv(m.stack) && Held(Heap.Live(m.heap.blocks), m.stack.live, m.others)
  }

  lemma TcbRoom(h: Heap.State)
    requires Heap.Tiled(h)
    ensures Heap.NoWrap(h, TCB_SIZE)
  {
  }

  lemma OpenKeeps(m: Memory, seg: Seg, response: seq<Byte>, mem: seq<bool>)
    requires Inv(m) && SegRanges(seg) && |response| <= MAX_PAYLOAD && Opens(m.stack, seg)
    ensures Inv(OnSegment(m, seg, response, mem))
  {
    hide Heap.Tiled, Heap.Live, Heap.Alloc, TcpTable.Inv, SegRanges, Open, HasSyn;
    TcbRoom(m.heap);
    Heap.AllocOwnership(m.heap, TCB_SIZE);
    var r := Heap.Alloc(m.heap, TCB_SIZE);
    assert Admissible(m.stack, seg, r.ptr);
    InputKeeps(m.stack, seg, r.ptr, response, mem);
  }

  /** What a segment that opens no connection does to the list. */
  lemma ListAfter(m: Memory, seg: Seg, response: seq<Byte>, mem: seq<bool>)
    requires !Opens(m.stack, seg)
    ensures var live, live' := m.stack.live, Input(m.stack, seg, NULL, response, mem).live;
            var k := Find(live, SegKey(seg), 0);
            if k == |live| then live' == live
            else if Closes(m.stack, seg, response, mem) then live' == Without(live, k)
            else live' == live[k := live[k].(conn := Advance(live[k].conn, seg, response, mem).conn)]
  {
    hide Find, Advance, HasSyn, Open, Without;
  }

  lemma CloseKeeps(m: Memory, seg: Seg, response: seq<Byte>, mem: seq<bool>)
    requires Inv(m) && SegRanges(seg) && |response| <= MAX_PAYLOAD && !Opens(m.stack, seg)
    ensures Inv(OnSegment(m, seg, response, mem))
  {
    CloseAdmissible(m, seg);
    ListAfter(m, seg, response, mem);
    hide Heap.Tiled, Heap.Live, Heap.Release, TcpTable.Inv, SegRanges, Advance, Admissible, DistinctEntries, Held, Input, Find, Opens;
    InputKeeps(m.stack, seg, NULL, response, mem);
    var live := m.stack.live;
    var k := Find(live, SegKey(seg), 0);
    if k < |live| {
      if Closes(m.stack, seg, response, mem) {
        HeldAddr(Heap.Live(m.heap.blocks), live, m.others, k);
        Heap.ReleaseOwnership(m.heap, live[k].addr);
        HeldAfterRemove(Heap.Live(m.heap.blocks), live, m.others, k);
      } else {
        HeldAfterUpdate(Heap.Live(m.heap.blocks), live, m.others, k, Advance(live[k].conn, seg, response, mem).conn);
      }
    }
  }

  lemma HeldAddr(live: map<nat, nat>, entries: seq<Entry>, others: set<nat>, k: nat)
    requires Held(live, entries, others) && k < |entries|
    ensures entries[k].addr in live && entries[k].addr != NULL
  {
  }

  lemma HeldAfterUpdate(live: map<nat, nat>, entries: seq<Entry>, others: set<nat>, k: nat, c: Conn)
    requires Held(live, entries, others) && k < |entries|
    ensures Held(live, entries[k := entries[k].(conn := c)], others)
  {
    AddrsUpdate(entries, k, c);
  }

  lemma CloseAdmissible(m: Memory, seg: Seg)
    requires Inv(m) && SegRanges(seg)
    ensures DistinctEntries(m.stack.live) && Admissible(m.stack, seg, NULL)
  {
  }

  lemma AddrsWithout(entries: seq<Entry>, k: nat)
    requires DistinctEntries(entries) && k < |entries|
    ensures Addrs(Without(entries, k)) == Addrs(entries) - {entries[k].addr}
  {
    var rest := Without(entries, k);
    forall a | a in Addrs(entries) && a != entries[k].addr ensures a in Addrs(rest) {
      var i :| 0 <= i < |entries| && entries[i].addr == a;
      assert entries[i] == rest[if i < k then i else i - 1];
    }
    forall a | a in Addrs(rest) ensures a in Addrs(entries) && a != entries[k].addr {
      var i :| 0 <= i < |rest| && rest[i].addr == a;
      assert rest[i] == entries[if i < k then i else i + 1];
    }
  }

  lemma AddrsUpdate(entries: seq<Entry>, k: nat, c: Conn)
    requires k < |entries|
    ensures Addrs(entries[k := entries[k].(conn := c)]) == Addrs(entries)
  {
    var entries' := entries[k := entries[k].(conn := c)];
    forall a ensures a in Addrs(entries') <==> a in Addrs(entries) {
      if a in Addrs(entries) {
        var i :| 0 <= i < |entries| && entries[i].addr == a;
        assert entries'[i].addr == a;
      }
      if a in Addrs(entries') {
        var i :| 0 <= i < |entries'| && entries'[i].addr == a;
        assert entries[i].addr == a;
      }
    }
  }

  lemma AddrsFirst(e: Entry, entries: seq<Entry>)
    ensures Addrs([e] + entries) == {e.addr} + Addrs(entries)
  {
  }

  lemma HeldAfterRemove(live: map<nat, nat>, entries: seq<Entry>, others: set<nat>, k: nat)
    requires Held(live, entries, others) && DistinctEntries(entries) && k < |entries|
    ensures Held(live - {entries[k].addr}, Without(entries, k), others)
  {
    var rest := Without(entries, k);
    AddrsWithout(entries, k);
    forall i | 0 <= i < |rest| ensures rest[i].addr in live - {entries[k].addr} && live[rest[i].addr] >= TCB_SIZE && rest[i].addr !in others {
      assert rest[i] == if i < k then entries[i] else entries[i + 1];
    }
  }

  lemma StepKeeps(m: Memory, step: Step, response: seq<Byte>)
    requires Inv(m) && Enabled(m, step) && |response| <= MAX_PAYLOAD
    ensures Inv(Next(m, step, response))
  {
    hide Heap.Tiled, Heap.Live, Heap.Alloc, Heap.Release, TcpTable.Inv, OnSegment, Opens;
    match step
    case Arrive(seg, mem) =>
      if Opens(m.stack, seg) { OpenKeeps(m, seg, response, mem); } else { CloseKeeps(m, seg, response, mem); }
    case OtherMalloc(size) => Heap.AllocOwnership(m.heap, size);
    case OtherFree(ptr) => Heap.ReleaseOwnership(m.heap, ptr);
  }

  ghost predicate ValidRun(m: Memory, steps: seq<Step>, response: seq<Byte>)
    decreases |steps|
  {
    steps == [] || (Enabled(m, steps[0]) && ValidRun(Next(m, steps[0], response), steps[1..], response))
  }

  function Run(m: Memory, steps: seq<Step>, response: seq<Byte>): Memory
    decreases |steps|
  {
    if steps == [] then m else Run(Next(m, steps[0], response), steps[1..], response)
  }

  lemma {:induction false} RunKeeps(m: Memory, steps: seq<Step>, response: seq<Byte>)
    requires Inv(m) && ValidRun(m, steps, response) && |response| <= MAX_PAYLOAD
    ensures Inv(Run(m, steps, response))
    decreases |steps|
  {
    if steps != [] {
      hide Inv, Next, Enabled;
      StepKeeps(m, steps[0], response);
      RunKeeps(Next(m, steps[0], response), steps[1..], response);
    }
  }

  /** Nothing leaks: after any run the live payloads are exactly the listed control blocks and what the
      rest of the kernel holds, so the block of a connection that is gone is free again. */
  lemma NothingLeaks(heap: Heap.State, isn: nat, steps: seq<Step>, response: seq<Byte>)
    requires Heap.Tiled(heap) && isn < U32 && |response| <= MAX_PAYLOAD
    requires var start := Memory(heap, Boot(isn), Heap.Live(heap.blocks).Keys); ValidRun(start, steps, response)
    ensures var m := Run(Memory(heap, Boot(isn), Heap.Live(heap.blocks).Keys), steps, response);
            && Heap.Live(m.heap.blocks).Keys == Addrs(m.stack.live) + m.others
            && forall i | 0 <= i < |m.stack.live| :: m.stack.live[i].addr !in m.others
  {
    Heap.NullNotLive(heap);
    RunKeeps(Memory(heap, Boot(isn), Heap.Live(heap.blocks).Keys), steps, response);
    hide Run, Heap.Live, Heap.Tiled, TcpTable.Inv;
  }

  /** In every run of segments and other heap use, from any heap in use: listed control blocks are
      held by the table alone and overlap no other listed control block and no other live memory. */
  lemma ControlBlocksAreSafe(heap: Heap.State, isn: nat, steps: seq<Step>, response: seq<Byte>, i: nat, q: nat)
    requires Heap.Tiled(heap) && isn < U32 && |response| <= MAX_PAYLOAD
    requires var start := Memory(heap, Boot(isn), Heap.Live(heap.blocks).Keys); ValidRun(start, steps, response)
    requires var m := Run(Memory(heap, Boot(isn), Heap.Live(heap.blocks).Keys), steps, response);
             i < |m.stack.live| && q in Heap.Live(m.heap.blocks) && q != m.stack.live[i].addr
    ensures var m := Run(Memory(heap, Boot(isn), Heap.Live(heap.blocks).Keys), steps, response);
            && Inv(m) && m.stack.live[i].addr in Heap.Live(m.heap.blocks)
            && Heap.Disjoint(m.stack.live[i].addr, 40, q, Heap.Live(m.heap.blocks)[q])
  {
    var start := Memory(heap, Boot(isn), Heap.Live(heap.blocks).Keys);
    Heap.NullNotLive(heap);
    RunKeeps(start, steps, response);
    var m := Run(start, steps, response);
    Heap.LiveDisjoint(m.heap, m.stack.live[i].addr, q);
    hide Run, Heap.Live, Heap.Tiled, TcpTable.Inv;
  }
}

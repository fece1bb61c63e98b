/** The virtqueue as the driver runs it: descriptor table and rings are arrays updated in place. */
module Virtqueue {
  import opened Machine
  import opened RingIndex
  import opened Ring

  class Virtqueue {
    var size: nat
    var desc: array<Desc>
    var availRing: array<nat>
    var availIdx: nat
    var usedRing: array<Receipt>
    var usedIdx: nat
    var freeHead: nat
    var numFree: nat
    var lastUsedIdx: nat

    ghost function Model(): Queue
      reads this, desc, availRing, usedRing
    {
      Queue(size, desc[..], availRing[..], availIdx, usedRing[..], usedIdx, freeHead, numFree, lastUsedIdx)
    }

    /** Links every descriptor of the table into the free list. The ring memory is static and
        zeroed before the kernel starts, so both ring indices begin at zero. */
    constructor (n: nat, memory: array<Desc>)
      requires 0 < n == memory.Length
      modifies memory
      ensures fresh(availRing) && fresh(usedRing) && desc == memory
      ensures Model() == Init(n, old(memory[..]))
    {
      size := n;
      desc := memory;
      availRing := new nat[n](_ => 0);
      usedRing := new Receipt[n](_ => Receipt(0, 0));
      availIdx, usedIdx := 0, 0;
      freeHead, numFree, lastUsedIdx := 0, n, 0;
      new;
      var i := 0;
      while i < size - 1
        invariant 0 <= i <= size - 1
        invariant size == n && desc == memory && availRing.Length == n && usedRing.Length == n
        invariant fresh(availRing) && fresh(usedRing)
        invariant availIdx == usedIdx == freeHead == lastUsedIdx == 0 && numFree == n
        invariant forall j | 0 <= j < n :: availRing[j] == 0 && usedRing[j] == Receipt(0, 0)
        invariant forall j | 0 <= j < i :: desc[j] == old(memory[j]).(next := j + 1)
        invariant forall j | i <= j < n :: desc[j] == old(memory[j])
        modifies desc
      {
        desc[i] := desc[i].(next := i + 1);
        i := i + 1;
      }
      desc[size - 1] := desc[size - 1].(next := NONE);
      assert desc[..] == InitialDesc(old(memory[..]));
      assert availRing[..] == seq(n, _ => 0);
      assert usedRing[..] == seq(n, _ => Receipt(0, 0));
    }

    method Add(addr: nat, len: nat, flags: nat) returns (head: nat)
      requires WellFormed(Model())
      modifies this`freeHead, this`numFree, desc
      ensures Added(Model(), head) == AddDescriptor(old(Model()), addr, len, flags)
    {
      if numFree == 0 { return NONE; }
      head := freeHead;
      freeHead := desc[head].next;
      numFree := numFree - 1;
      desc[head] := Desc(addr, len, flags, 0);
      assert desc[..] == old(desc[..])[head := Desc(addr, len, flags, 0)];
    }

    /** A barrier: the driver's earlier stores are visible and its later ones are not, and meanwhile
        the device returns the descriptors of `done`. */
    method Barrier(done: seq<Receipt>) returns (ghost visible: Queue)
      requires 0 < size == usedRing.Length
      modifies this`usedIdx, usedRing
      ensures visible == old(Model()) && Model() == Completed(visible, done)
    {
      visible := Model();
      var i := 0;
      assert done[..0] == [];
      while i < |done|
        invariant 0 <= i <= |done| && Model() == Completed(visible, done[..i])
      {
        ghost var before := usedRing[..];
        usedRing[usedIdx % size] := done[i];
        assert usedRing[..] == before[usedIdx % size := done[i]];
        usedIdx := (usedIdx + 1) % U16;
        assert done[..i + 1][..i] == done[..i];
        i := i + 1;
      }
      assert done[..|done|] == done;
    }

    /** Stores the slot, waits for that store, stores the index: what the device can see at the barrier
        has the slot and not yet the index. */
    method Push(head: nat, done: seq<Receipt>) returns (ghost visible: Queue)
      requires WellFormed(Model())
      modifies this`availIdx, availRing, this`usedIdx, usedRing
      ensures visible == WriteSlot(old(Model()), head)
      ensures Model() == PublishIndex(Completed(visible, done))
    {
      var idx := availIdx;
      availRing[idx % size] := head;
      assert availRing[..] == old(availRing[..])[idx % size := head];
      visible := Barrier(done);
      availIdx := (idx + 1) % U16;
    }

    /** Returns -1 when the device has written nothing new, else the descriptor of the oldest receipt
        after the barrier, recycled. */
    method Pop(done: seq<Receipt>) returns (id: int, len: nat)
      requires WellFormed(Model())
      requires lastUsedIdx != usedIdx ==>
                 var q := Completed(Model(), done); WellFormed(q) && q.lastUsedIdx != q.usedIdx
      modifies this`lastUsedIdx, this`freeHead, this`numFree, desc, this`usedIdx, usedRing
      ensures PopUsed(old(Model())).Nothing? ==> id == -1 && Model() == old(Model())
      ensures PopUsed(old(Model())).Popped? ==>
                id >= 0 && PopUsed(Completed(old(Model()), done)) == Popped(Model(), Receipt(id, len))
    {
      if lastUsedIdx == usedIdx { return -1, 0; }
      ghost var visible := Barrier(done);
      var receipt := usedRing[lastUsedIdx % size];
      id, len := receipt.id, receipt.len;
      lastUsedIdx := (lastUsedIdx + 1) % U16;
      ghost var before := desc[..];
      desc[id] := desc[id].(next := freeHead);
      assert desc[..] == before[id := before[id].(next := freeHead)];
      freeHead := id;
      numFree := numFree + 1;
    }
  }
}

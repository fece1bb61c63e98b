/** The buffer `tcp_send_segment` takes from the heap, and what it writes into it. */
module SendBuffer {
  import opened Machine
  import Heap
  import Wire

  /** Bytes written through the buffer pointer: a header and the whole payload. */
  function Written(len: nat): nat { Wire.HEADER + len }

  /** The allocation: its size is the 16-bit `total_len`. */
  function Request(h: Heap.State, len: nat): Heap.Outcome { Heap.Alloc(h, Wire.SegmentLength(len)) }

  /** The block handed out has room for everything that is written. */
  ghost predicate Holds(h: Heap.State, len: nat) {
    var r := Request(h, len);
    r.ptr in Heap.Live(r.heap.blocks) && Written(len) <= Heap.Live(r.heap.blocks)[r.ptr]
  }

  /** The search finds a free block that happens to be that large. */
  ghost predicate LargeBlockFirst(h: Heap.State, len: nat) {
    var k := Heap.FirstFit(h.blocks, Heap.RoundUp8(Wire.SegmentLength(len)), 0);
    k < |h.blocks| && Written(len) <= h.blocks[k].size
  }

  /** How large the block is that an allocation hands out. */
  lemma HandedOut(h: Heap.State, size: nat)
    requires Heap.Tiled(h) && Heap.NoWrap(h, size) && Heap.Alloc(h, size).ptr != NULL
    ensures var r, k := Heap.Alloc(h, size), Heap.FirstFit(h.blocks, Heap.RoundUp8(size), 0);
            && r.ptr in Heap.Live(r.heap.blocks)
            && Heap.Live(r.heap.blocks)[r.ptr] == if k < |h.blocks| then h.blocks[k].size else Heap.RoundUp8(size)
  {
    var k := Heap.FirstFit(h.blocks, Heap.RoundUp8(size), 0);
    Heap.FirstFitSpec(h.blocks, Heap.RoundUp8(size), 0);
    hide Heap.RoundUp8, Heap.FirstFit, Heap.Bump;
    if k < |h.blocks| {
      Heap.DistinctFrom(h, k);
      Heap.TakeLive(h.blocks, k);
    }
  }

  lemma Lengths(len: nat)
    requires len < 0x1_0000
    ensures Wire.SegmentLength(len) == if len <= 65515 then Written(len) else Written(len) - 0x1_0000
    ensures Heap.RoundUp8(Wire.SegmentLength(len)) <= Wire.SegmentLength(len) + 7
  {
    Wire.SegmentLengthIs(len);
    Heap.RoundUp8Exact(Wire.SegmentLength(len));
  }

  /** On every heap and for every 16-bit payload length for which a buffer is granted, it holds what
      is written into it if and only if the length is at most 65515, where `20 + len` does not wrap
      16 bits, or a larger block happens to be reused. */
  lemma HoldsIff(h: Heap.State, len: nat)
    requires Heap.Tiled(h) && len < 0x1_0000 && Request(h, len).ptr != NULL
    ensures Holds(h, len) <==> len <= 65515 || LargeBlockFirst(h, len)
  {
    Lengths(len);
    HandedOut(h, Wire.SegmentLength(len));
    Heap.AllocOwnership(h, Wire.SegmentLength(len));
    hide Heap.RoundUp8, Heap.FirstFit, Heap.Alloc, Wire.SegmentLength;
  }

  /** What a caller can rely on: a length is safe, whatever the state of the heap, if and only if it is
      at most 65515. */
  lemma SafeLengthIff(len: nat)
    requires len < 0x1_0000
    ensures (forall h | Heap.Tiled(h) && Request(h, len).ptr != NULL :: Holds(h, len)) <==> len <= 65515
  {
    forall h | Heap.Tiled(h) && Request(h, len).ptr != NULL && len <= 65515 ensures Holds(h, len) {
      HoldsIff(h, len);
    }
    if len > 65515 {
      EmptyGrants(len);
      HoldsIff(Heap.Empty, len);
      hide Holds, Request;
      assert !Holds(Heap.Empty, len);
    }
  }

  lemma EmptyGrants(len: nat)
    requires 65515 < len < 0x1_0000
    ensures Heap.Tiled(Heap.Empty) && Request(Heap.Empty, len).ptr != NULL && !LargeBlockFirst(Heap.Empty, len)
  {
    Lengths(len);
    hide Wire.SegmentLength;
  }

  /** The first length that overruns its buffer: on the empty heap a payload of 65516 bytes gets a
      block of no bytes at all. */
  lemma OverrunWitness()
    ensures var r := Request(Heap.Empty, 65516);
            r.ptr == Heap.HEAP_START + Heap.HEADER && Heap.Live(r.heap.blocks) == map[r.ptr := 0] && !Holds(Heap.Empty, 65516)
  {
    assert Wire.SegmentLength(65516) == 0 && Heap.FirstFit([], 0, 0) == 0;
    HoldsIff(Heap.Empty, 65516);
  }
}

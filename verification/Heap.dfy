/** The kernel heap: a first-fit, never-splitting, bump-backed allocator.

    `State` is the allocator as a value: the bump pointer and the list of all blocks, newest
    first, exactly in the order in which the intrusive list visits them. Addresses and sizes are
    64-bit quantities of the source, so every addition that may wrap is written out modulo `U64`.
 */
module Heap {
  import opened Machine
  import opened Arith

  const HEAP_START: int := 0x4100_0000
  const HEAP_END: int := 0x4200_0000
  /** Size of a block header: a size, a flag padded to eight bytes, and a pointer. */
  const HEADER: int := 24

  /** A block: the address of its header, the size of its payload, and whether it is free. */
  datatype Block = Block(addr: nat, size: nat, free: bool) {
    function Payload(): nat { addr + HEADER }
    function End(): nat { addr + HEADER + size }
  }

  datatype State = State(brk: nat, blocks: seq<Block>)

  /** What an allocation returns: the new heap and the pointer handed out, `NULL` on failure. */
  datatype Outcome = Outcome(heap: State, ptr: nat)

  const Empty: State := State(HEAP_START, [])

  // ---------------------------------------------------------------------------------------
  // The operations
  // ---------------------------------------------------------------------------------------

  function RoundUp8(size: nat): nat {
    (size + 7) % U64 / 8 * 8
  }

  /** The bump pointer after a block of `need` bytes, in 64-bit arithmetic. */
  function Bump(brk: nat, need: nat): nat {
    (brk + (HEADER + need) % U64) % U64
  }

  /** Index of the first block from `i` on that is free and holds `need` bytes, or the length. */
  function FirstFit(blocks: seq<Block>, need: nat, i: nat): (r: nat)
    requires i <= |blocks|
    ensures i <= r <= |blocks|
    decreases |blocks| - i
  {
    if i == |blocks| then i
    else if blocks[i].free && blocks[i].size >= need then i
    else FirstFit(blocks, need, i + 1)
  }

  function Alloc(h: State, size: nat): Outcome {
    AllocAt(h, RoundUp8(size), Bump(h.brk, RoundUp8(size)))
  }

  /** The search and its two outcomes, once the request is rounded and the bump pointer computed. */
  function AllocAt(h: State, need: nat, brk: nat): Outcome {
    var k := FirstFit(h.blocks, need, 0);
    if k < |h.blocks| then Outcome(Reuse(h, k), h.blocks[k].Payload())
    else if brk > HEAP_END then Outcome(h, NULL)
    else Outcome(Grow(h, brk, need), h.brk + HEADER)
  }

  function Reuse(h: State, k: nat): State
    requires k < |h.blocks|
  {
    h.(blocks := h.blocks[k := h.blocks[k].(free := false)])
  }

  function Grow(h: State, brk: nat, need: nat): State {
    State(brk, [Block(h.brk, need, false)] + h.blocks)
  }

  /** Marks the block whose payload is `ptr`; `NULL` is ignored. */
  function Release(h: State, ptr: nat): State {
    h.(blocks := seq(|h.blocks|, i requires 0 <= i < |h.blocks| =>
                       if ptr != NULL && h.blocks[i].Payload() == ptr then h.blocks[i].(free := true)
                       else h.blocks[i]))
  }

  // ---------------------------------------------------------------------------------------
  // The invariant: the blocks tile [HEAP_START, brk)
  // ---------------------------------------------------------------------------------------

  /** The blocks, newest first, fill `[HEAP_START, top)` without gap or overlap. */
  ghost predicate Tiles(blocks: seq<Block>, top: nat) {
    if blocks == [] then top == HEAP_START
    else blocks[0].End() == top && Tiles(blocks[1..], blocks[0].addr)
  }

  ghost predicate Tiled(h: State) {
    h.brk <= HEAP_END && Tiles(h.blocks, h.brk)
  }

  ghost predicate Aligned(h: State) {
    h.brk % 8 == 0 && forall i | 0 <= i < |h.blocks| :: h.blocks[i].addr % 8 == 0
  }

  /** The payloads in use and their sizes. */
  function Live(blocks: seq<Block>): map<nat, nat> {
    if blocks == [] then map[]
    else if blocks[0].free then Live(blocks[1..])
    else Live(blocks[1..])[blocks[0].Payload() := blocks[0].size]
  }

  /** No 64-bit addition of an allocation of `size` bytes wraps around. */
  ghost predicate NoWrap(h: State, size: nat) {
    h.brk + HEADER + size + 7 < U64
  }

  lemma RoundUp8Exact(size: nat)
    requires size + 7 < U64
    ensures size <= RoundUp8(size) < size + 8 && RoundUp8(size) % 8 == 0
    ensures RoundUp8(size) == (size + 7) / 8 * 8
  {
  }

  lemma BumpExact(h: State, size: nat)
    requires NoWrap(h, size)
    ensures size <= RoundUp8(size) <= size + 7
    ensures Bump(h.brk, RoundUp8(size)) == h.brk + HEADER + RoundUp8(size)
  {
    RoundUp8Exact(size);
  }

  ghost predicate Disjoint(a: nat, m: nat, b: nat, n: nat) {
    a + m <= b || b + n <= a
  }

  // ---------------------------------------------------------------------------------------
  // Consequences of the invariant
  // ---------------------------------------------------------------------------------------

  /** Every block lies in the tiled range. */
  lemma {:induction false} TilesRange(blocks: seq<Block>, top: nat, i: nat)
    requires Tiles(blocks, top) && i < |blocks|
    ensures HEAP_START <= blocks[i].addr && blocks[i].End() <= top
  {
    if i > 0 {
      TilesRange(blocks[1..], blocks[0].addr, i - 1);
    } else if |blocks| > 1 {
      TilesRange(blocks[1..], blocks[0].addr, 0);
    }
  }

  lemma {:induction false} TilesAbove(blocks: seq<Block>, top: nat)
    requires Tiles(blocks, top)
    ensures HEAP_START <= top
  {
    if blocks != [] {
      TilesAbove(blocks[1..], blocks[0].addr);
    }
  }

  /** The list runs strictly downwards: a later block ends at or before an earlier header. */
  lemma {:induction false} TilesDescend(blocks: seq<Block>, top: nat, i: nat, j: nat)
    requires Tiles(blocks, top) && i < j < |blocks|
    ensures blocks[j].End() <= blocks[i].addr
  {
    if i == 0 {
      TilesRange(blocks[1..], blocks[0].addr, j - 1);
    } else {
      TilesDescend(blocks[1..], blocks[0].addr, i - 1, j - 1);
    }
  }

  /** Two different blocks, headers included, never overlap. */
  lemma BlocksDisjoint(h: State, i: nat, j: nat)
    requires Tiled(h) && i < |h.blocks| && j < |h.blocks| && i != j
    ensures Disjoint(h.blocks[i].addr, HEADER + h.blocks[i].size, h.blocks[j].addr, HEADER + h.blocks[j].size)
    ensures h.blocks[i].addr != h.blocks[j].addr
  {
    if i < j { TilesDescend(h.blocks, h.brk, i, j); } else { TilesDescend(h.blocks, h.brk, j, i); }
  }

  lemma {:induction false} LiveOnly(blocks: seq<Block>, p: nat) returns (i: nat)
    requires p in Live(blocks)
    ensures i < |blocks| && !blocks[i].free && blocks[i].Payload() == p && blocks[i].size == Live(blocks)[p]
  {
    if !blocks[0].free && blocks[0].Payload() == p {
      i := 0;
    } else {
      i := LiveOnly(blocks[1..], p);
      i := i + 1;
    }
  }

  lemma NullNotLive(h: State)
    requires Tiled(h)
    ensures NULL !in Live(h.blocks)
  {
    if NULL in Live(h.blocks) {
      var i := LiveOnly(h.blocks, NULL);
    }
  }

  /** Two different payloads in use are disjoint over their whole sizes. */
  lemma LiveDisjoint(h: State, p: nat, q: nat)
    requires Tiled(h) && p in Live(h.blocks) && q in Live(h.blocks) && p != q
    ensures Disjoint(p, Live(h.blocks)[p], q, Live(h.blocks)[q])
  {
    var i := LiveOnly(h.blocks, p);
    var j := LiveOnly(h.blocks, q);
    BlocksDisjoint(h, i, j);
  }

  /** Every payload in use lies inside the heap, clear of every header. */
  lemma LiveInHeap(h: State, p: nat, j: nat)
    requires Tiled(h) && p in Live(h.blocks) && j < |h.blocks|
    ensures HEAP_START + HEADER <= p && p + Live(h.blocks)[p] <= HEAP_END
    ensures Disjoint(p, Live(h.blocks)[p], h.blocks[j].addr, HEADER)
  {
    var i := LiveOnly(h.blocks, p);
    TilesRange(h.blocks, h.brk, i);
    if i != j { BlocksDisjoint(h, i, j); }
  }

  function Footprint(blocks: seq<Block>): nat {
    if blocks == [] then 0 else HEADER + blocks[0].size + Footprint(blocks[1..])
  }

  /** Conservation: headers and payloads account for every byte below the bump pointer. */
  lemma {:induction false} TilesFootprint(blocks: seq<Block>, top: nat)
    requires Tiles(blocks, top)
    ensures Footprint(blocks) == top - HEAP_START
  {
    if blocks != [] {
      TilesFootprint(blocks[1..], blocks[0].addr);
    }
  }

  // ---------------------------------------------------------------------------------------
  // What first fit finds
  // ---------------------------------------------------------------------------------------

  lemma {:induction false} FirstFitSpec(blocks: seq<Block>, need: nat, i: nat)
    requires i <= |blocks|
    ensures var k := FirstFit(blocks, need, i);
            && (k < |blocks| ==> blocks[k].free && blocks[k].size >= need)
            && (forall j | i <= j < k :: !(blocks[j].free && blocks[j].size >= need))
    decreases |blocks| - i
  {
    if i < |blocks| && !(blocks[i].free && blocks[i].size >= need) {
      FirstFitSpec(blocks, need, i + 1);
    }
  }

  // ---------------------------------------------------------------------------------------
  // Refinement of an abstract allocator that knows nothing of the list
  // ---------------------------------------------------------------------------------------

  datatype Cell = Cell(size: nat, free: bool)

  /** The abstract allocator's memory: header address to size and status. */
  function Table(blocks: seq<Block>): map<nat, Cell> {
    if blocks == [] then map[]
    else Table(blocks[1..])[blocks[0].addr := Cell(blocks[0].size, blocks[0].free)]
  }

  lemma {:induction false} TableAt(blocks: seq<Block>, i: nat)
    requires i < |blocks| && forall j | 0 <= j < i :: blocks[j].addr != blocks[i].addr
    ensures blocks[i].addr in Table(blocks)
    ensures Table(blocks)[blocks[i].addr] == Cell(blocks[i].size, blocks[i].free)
  {
    if i > 0 { TableAt(blocks[1..], i - 1); }
  }

  lemma {:induction false} TableOnly(blocks: seq<Block>, a: nat) returns (i: nat)
    requires a in Table(blocks)
    ensures i < |blocks| && blocks[i].addr == a && Table(blocks)[a] == Cell(blocks[i].size, blocks[i].free)
  {
    if blocks[0].addr == a {
      i := 0;
    } else {
      i := TableOnly(blocks[1..], a);
      i := i + 1;
    }
  }

  lemma CellAt(h: State, i: nat)
    requires Tiled(h) && i < |h.blocks|
    ensures h.blocks[i].addr in Table(h.blocks)
    ensures Table(h.blocks)[h.blocks[i].addr] == Cell(h.blocks[i].size, h.blocks[i].free)
  {
    forall j | 0 <= j < i ensures h.blocks[j].addr != h.blocks[i].addr { BlocksDisjoint(h, i, j); }
    TableAt(h.blocks, i);
  }

  ghost predicate Fits(t: map<nat, Cell>, a: nat, need: nat) {
    a in t && t[a].free && t[a].size >= need
  }

  /** The allocator's contract, on the map alone: reuse the highest free block that fits; grow
      only when none fits; fail exactly when neither is possible, and then change nothing. */
  ghost predicate AbstractAlloc(t: map<nat, Cell>, brk: nat, need: nat, t': map<nat, Cell>, brk': nat, ptr: nat) {
    if exists a: nat :: Fits(t, a, need) then
      exists a: nat :: HighestFit(t, a, need) && ptr == a + HEADER && brk' == brk && t' == t[a := Cell(t[a].size, false)]
    else if brk + HEADER + need <= HEAP_END then
      && ptr == brk + HEADER && brk' == brk + HEADER + need
      && brk !in t && t' == t[brk := Cell(need, false)]
    else
      ptr == NULL && brk' == brk && t' == t
  }

  ghost predicate HighestFit(t: map<nat, Cell>, a: nat, need: nat) {
    Fits(t, a, need) && forall b: nat | Fits(t, b, need) :: b <= a
  }

  /** Changing the status of a block leaves the tiling alone. */
  lemma {:induction false} MarkTiles(blocks: seq<Block>, top: nat, k: nat, free: bool)
    requires Tiles(blocks, top) && k < |blocks|
    ensures Tiles(blocks[k := blocks[k].(free := free)], top)
  {
    var blocks' := blocks[k := blocks[k].(free := free)];
    if k == 0 {
      assert blocks'[1..] == blocks[1..];
    } else {
      assert blocks'[1..] == blocks[1..][k - 1 := blocks[k].(free := free)];
      MarkTiles(blocks[1..], blocks[0].addr, k - 1, free);
    }
  }

  /** The invariant survives every allocation whose additions do not wrap. */
  lemma AllocKeepsTiled(h: State, need: nat)
    requires Tiled(h)
    ensures Tiled(AllocAt(h, need, h.brk + HEADER + need).heap)
  {
    var k := FirstFit(h.blocks, need, 0);
    if k < |h.blocks| {
      MarkTiles(h.blocks, h.brk, k, false);
    } else if h.brk + HEADER + need <= HEAP_END {
      assert Grow(h, h.brk + HEADER + need, need).blocks[1..] == h.blocks;
    }
  }

  /** Marking block `k` changes exactly one cell of the table. */
  lemma {:induction false} MarkTable(blocks: seq<Block>, k: nat, free: bool)
    requires k < |blocks| && forall j | 0 <= j < |blocks| && j != k :: blocks[j].addr != blocks[k].addr
    ensures Table(blocks[k := blocks[k].(free := free)])
         == Table(blocks)[blocks[k].addr := Cell(blocks[k].size, free)]
  {
    var blocks' := blocks[k := blocks[k].(free := free)];
    if k == 0 {
      assert blocks'[1..] == blocks[1..];
    } else {
      assert blocks'[1..] == blocks[1..][k - 1 := blocks[k].(free := free)];
      MarkTable(blocks[1..], k - 1, free);
    }
  }

  lemma DistinctFrom(h: State, k: nat)
    requires Tiled(h) && k < |h.blocks|
    ensures forall j | 0 <= j < |h.blocks| && j != k :: h.blocks[j].addr != h.blocks[k].addr
  {
    forall j | 0 <= j < |h.blocks| && j != k ensures h.blocks[j].addr != h.blocks[k].addr {
      BlocksDisjoint(h, j, k);
    }
  }

  /** First in the list means highest in memory. */
  lemma FirstIsHighest(h: State, need: nat, k: nat)
    requires Tiled(h) && k == FirstFit(h.blocks, need, 0) < |h.blocks|
    ensures HighestFit(Table(h.blocks), h.blocks[k].addr, need)
  {
    FirstFitSpec(h.blocks, need, 0);
    CellAt(h, k);
    forall b: nat | Fits(Table(h.blocks), b, need) ensures b <= h.blocks[k].addr {
      var j := TableOnly(h.blocks, b);
      if k < j { TilesDescend(h.blocks, h.brk, k, j); }
    }
  }

  lemma NoFit(h: State, need: nat)
    requires FirstFit(h.blocks, need, 0) == |h.blocks|
    ensures !exists a: nat :: Fits(Table(h.blocks), a, need)
  {
    FirstFitSpec(h.blocks, need, 0);
    forall a: nat | Fits(Table(h.blocks), a, need) ensures false {
      var i := TableOnly(h.blocks, a);
    }
  }

  lemma BrkUnused(h: State)
    requires Tiled(h)
    ensures h.brk !in Table(h.blocks)
  {
    if h.brk in Table(h.blocks) {
      var i := TableOnly(h.blocks, h.brk);
      TilesRange(h.blocks, h.brk, i);
    }
  }

  /** `kmalloc` on the list refines the abstract allocator on the map. */
  lemma AllocRefines(h: State, size: nat)
    requires Tiled(h) && NoWrap(h, size)
    ensures var r := Alloc(h, size);
            && Tiled(r.heap)
            && AbstractAlloc(Table(h.blocks), h.brk, RoundUp8(size), Table(r.heap.blocks), r.heap.brk, r.ptr)
  {
    BumpExact(h, size);
    AllocKeepsTiled(h, RoundUp8(size));
    AllocAtRefines(h, RoundUp8(size));
  }

  lemma AllocAtRefines(h: State, need: nat)
    requires Tiled(h)
    ensures var r := AllocAt(h, need, h.brk + HEADER + need);
            AbstractAlloc(Table(h.blocks), h.brk, need, Table(r.heap.blocks), r.heap.brk, r.ptr)
  {
    var k := FirstFit(h.blocks, need, 0);
    if k < |h.blocks| {
      FirstIsHighest(h, need, k);
      DistinctFrom(h, k);
      MarkTable(h.blocks, k, false);
      CellAt(h, k);
    } else {
      NoFit(h, need);
      BrkUnused(h);
      var h' := Grow(h, h.brk + HEADER + need, need);
      assert h'.blocks[1..] == h.blocks;
    }
  }

  // ---------------------------------------------------------------------------------------
  // Ownership: what one operation does to every payload in use
  // ---------------------------------------------------------------------------------------

  /** Headers and payloads stay 8-aligned. */
  lemma AllocAligned(h: State, size: nat)
    requires Aligned(h) && NoWrap(h, size)
    ensures Aligned(Alloc(h, size).heap) && Alloc(h, size).ptr % 8 == 0
  {
    var need := RoundUp8(size);
    RoundUp8Exact(size);
    BumpExact(h, size);
    var k := FirstFit(h.blocks, need, 0);
    var h' := Alloc(h, size).heap;
    if k < |h.blocks| {
      assert h.blocks[k].addr % 8 == 0;
      forall i | 0 <= i < |h'.blocks| ensures h'.blocks[i].addr % 8 == 0 {
        assert h'.blocks[i].addr == h.blocks[i].addr;
      }
    } else {
      SumOfMultiples(h.brk, HEADER);
      SumOfMultiples(h.brk + HEADER, need);
    }
  }

  lemma SumOfMultiples(a: int, b: int)
    requires a % 8 == 0 && b % 8 == 0
    ensures (a + b) % 8 == 0
  {
  }

  lemma ReleaseAligned(h: State, ptr: nat)
    requires Aligned(h)
    ensures Aligned(Release(h, ptr))
  {
    var h' := Release(h, ptr);
    forall i | 0 <= i < |h'.blocks| ensures h'.blocks[i].addr % 8 == 0 {
      assert h'.blocks[i].addr == h.blocks[i].addr;
    }
  }

  /** Marking block `k` in use adds its payload. */
  lemma {:induction false} TakeLive(blocks: seq<Block>, k: nat)
    requires k < |blocks| && forall j | 0 <= j < |blocks| && j != k :: blocks[j].addr != blocks[k].addr
    ensures Live(blocks[k := blocks[k].(free := false)]) == Live(blocks)[blocks[k].Payload() := blocks[k].size]
  {
    var blocks' := blocks[k := blocks[k].(free := false)];
    if k == 0 {
      assert blocks'[1..] == blocks[1..];
    } else {
      assert blocks'[1..] == blocks[1..][k - 1 := blocks[k].(free := false)];
      TakeLive(blocks[1..], k - 1);
    }
  }

  /** Marking block `k` free removes its payload. */
  lemma {:induction false} DropLive(blocks: seq<Block>, k: nat)
    requires k < |blocks| && forall j | 0 <= j < |blocks| && j != k :: blocks[j].addr != blocks[k].addr
    ensures Live(blocks[k := blocks[k].(free := true)]) == Live(blocks) - {blocks[k].Payload()}
  {
    var p, blocks' := blocks[k].Payload(), blocks[k := blocks[k].(free := true)];
    if k == 0 {
      assert blocks'[1..] == blocks[1..];
      if p in Live(blocks[1..]) {
        var j := LiveOnly(blocks[1..], p);
      }
    } else {
      assert blocks'[1..] == blocks[1..][k - 1 := blocks[k].(free := true)];
      DropLive(blocks[1..], k - 1);
    }
  }

  /** An allocation hands out memory that nobody holds, and takes nothing from anybody. */
  lemma AllocOwnership(h: State, size: nat)
    requires Tiled(h) && NoWrap(h, size)
    ensures var r := Alloc(h, size);
            && Tiled(r.heap)
            && if r.ptr == NULL then r.heap == h
               else
                 && r.ptr !in Live(h.blocks) && r.ptr in Live(r.heap.blocks)
                 && Live(r.heap.blocks)[r.ptr] >= size
                 && Live(r.heap.blocks) == Live(h.blocks)[r.ptr := Live(r.heap.blocks)[r.ptr]]
  {
    var need := RoundUp8(size);
    BumpExact(h, size);
    AllocKeepsTiled(h, need);
    FirstFitSpec(h.blocks, need, 0);
    var k := FirstFit(h.blocks, need, 0);
    if k < |h.blocks| {
      DistinctFrom(h, k);
      TakeLive(h.blocks, k);
      if h.blocks[k].Payload() in Live(h.blocks) {
        var j := LiveOnly(h.blocks, h.blocks[k].Payload());
      }
    } else if h.brk + HEADER + need <= HEAP_END {
      var h' := Grow(h, h.brk + HEADER + need, need);
      assert h'.blocks[1..] == h.blocks;
      if h.brk + HEADER in Live(h.blocks) {
        var j := LiveOnly(h.blocks, h.brk + HEADER);
        TilesRange(h.blocks, h.brk, j);
      }
    }
  }

  /** Memory just handed out overlaps no memory that was held. */
  lemma AllocDisjointFromLive(h: State, size: nat, q: nat)
    requires Tiled(h) && NoWrap(h, size) && q in Live(h.blocks) && Alloc(h, size).ptr != NULL
    ensures Disjoint(Alloc(h, size).ptr, size, q, Live(h.blocks)[q])
  {
    AllocOwnership(h, size);
    LiveDisjoint(Alloc(h, size).heap, Alloc(h, size).ptr, q);
  }

  lemma ReleaseMarks(h: State, k: nat)
    requires Tiled(h) && k < |h.blocks|
    ensures Release(h, h.blocks[k].Payload()).blocks == h.blocks[k := h.blocks[k].(free := true)]
  {
    DistinctFrom(h, k);
  }

  /** Freeing a payload in use gives back that payload and no other. */
  lemma ReleaseOwnership(h: State, ptr: nat)
    requires Tiled(h) && ptr in Live(h.blocks)
    ensures Tiled(Release(h, ptr)) && Live(Release(h, ptr).blocks) == Live(h.blocks) - {ptr}
  {
    var k := LiveOnly(h.blocks, ptr);
    ReleaseMarks(h, k);
    DistinctFrom(h, k);
    DropLive(h.blocks, k);
    MarkTiles(h.blocks, h.brk, k, true);
  }

  // ---------------------------------------------------------------------------------------
  // Whole runs
  // ---------------------------------------------------------------------------------------

  datatype Op = Malloc(size: nat) | Free(ptr: nat)

  function Apply(h: State, op: Op): State {
    match op
    case Malloc(size) => Alloc(h, size).heap
    case Free(ptr) => Release(h, ptr)
  }

  /** A request that does not wrap; a free of `NULL` or of a payload in use. */
  ghost predicate Enabled(h: State, op: Op) {
    match op
    case Malloc(size) => NoWrap(h, size)
    case Free(ptr) => ptr == NULL || ptr in Live(h.blocks)
  }

  ghost predicate ValidRun(h: State, ops: seq<Op>)
    decreases |ops|
  {
    ops == [] || (Enabled(h, ops[0]) && ValidRun(Apply(h, ops[0]), ops[1..]))
  }

  function Run(h: State, ops: seq<Op>): State
    decreases |ops|
  {
    if ops == [] then h else Run(Apply(h, ops[0]), ops[1..])
  }

  lemma FreeNull(h: State)
    ensures Release(h, NULL) == h
  {
    assert Release(h, NULL).blocks == h.blocks;
  }

  lemma ApplyKeepsHeld(h: State, op: Op)
    requires Tiled(h) && Enabled(h, op)
    ensures Tiled(Apply(h, op))
    ensures forall q | q in Live(h.blocks) && op != Free(q) ::
              q in Live(Apply(h, op).blocks) && Live(Apply(h, op).blocks)[q] == Live(h.blocks)[q]
  {
    match op
    case Malloc(size) => AllocOwnership(h, size);
    case Free(ptr) => if ptr == NULL { FreeNull(h); } else { ReleaseOwnership(h, ptr); }
  }

  lemma ApplyAligned(h: State, op: Op)
    requires Aligned(h) && Enabled(h, op)
    ensures Aligned(Apply(h, op))
  {
    match op
    case Malloc(size) => AllocAligned(h, size);
    case Free(ptr) => ReleaseAligned(h, ptr);
  }

  /** After every valid run the blocks tile the heap, aligned, and account for every byte. */
  lemma {:induction false} RunInvariant(h: State, ops: seq<Op>)
    requires Tiled(h) && Aligned(h) && ValidRun(h, ops)
    ensures Tiled(Run(h, ops)) && Aligned(Run(h, ops))
    ensures Footprint(Run(h, ops).blocks) == Run(h, ops).brk - HEAP_START
    decreases |ops|
  {
    if ops == [] {
      TilesFootprint(h.blocks, h.brk);
    } else {
      ApplyKeepsHeld(h, ops[0]);
      ApplyAligned(h, ops[0]);
      RunInvariant(Apply(h, ops[0]), ops[1..]);
    }
  }

  /** A payload stays held, with its size, through every valid run that does not free it. */
  lemma {:induction false} HeldUntilFreed(h: State, ops: seq<Op>, q: nat)
    requires Tiled(h) && ValidRun(h, ops) && q in Live(h.blocks) && Free(q) !in ops
    ensures q in Live(Run(h, ops).blocks) && Live(Run(h, ops).blocks)[q] == Live(h.blocks)[q]
    decreases |ops|
  {
    if ops != [] {
      assert ops[0] in ops;
      ApplyKeepsHeld(h, ops[0]);
      HeldUntilFreed(Apply(h, ops[0]), ops[1..], q);
    }
  }

  // ---------------------------------------------------------------------------------------
  // Requests so large that 64-bit arithmetic wraps
  // ---------------------------------------------------------------------------------------

  /** The allocation either fails or leaves a tiled heap and a block of the size asked for. */
  ghost predicate Sound(h: State, size: nat) {
    var r := Alloc(h, size);
    r.ptr == NULL || (Tiled(r.heap) && r.ptr in Live(r.heap.blocks) && Live(r.heap.blocks)[r.ptr] >= size)
  }

  /** A wrapping request that is refused all the same. A request within seven bytes of 2^64 rounds
      to zero, and is refused when no block is free and no header fits any more; any other wrapping
      request is refused when the wrapped bump pointer still lies beyond the heap. */
  ghost predicate RefusedAnyway(h: State, size: nat) {
    if size + 7 >= U64 then
      h.brk + HEADER > HEAP_END && forall i | 0 <= i < |h.blocks| :: !h.blocks[i].free
    else
      var top := h.brk + HEADER + (size + 7) / 8 * 8;
      HEAP_END < if top < U64 then top else top - U64
  }

  /** For every heap and every 64-bit request: an allocation is sound exactly when its additions do
      not wrap or it is refused anyway. */
  lemma SoundIff(h: State, size: nat)
    requires Tiled(h) && size < U64
    ensures Sound(h, size) <==> NoWrap(h, size) || RefusedAnyway(h, size)
  {
    if NoWrap(h, size) {
      AllocOwnership(h, size);
    } else {
      WrapOutcome(h, size);
      hide RefusedAnyway;
      var r := Alloc(h, size);
      if r.ptr != NULL && Sound(h, size) {
        var i := LiveOnly(r.heap.blocks, r.ptr);
        TilesRange(r.heap.blocks, r.heap.brk, i);
      }
    }
  }

  /** A wrapping request returns NULL exactly when it is refused anyway. */
  lemma WrapOutcome(h: State, size: nat)
    requires Tiled(h) && size < U64 && !NoWrap(h, size)
    ensures Alloc(h, size).ptr == NULL <==> RefusedAnyway(h, size)
  {
    var need := RoundUp8(size);
    var k := FirstFit(h.blocks, need, 0);
    FirstFitSpec(h.blocks, need, 0);
    WrappedBump(h.brk, size);
    hide RoundUp8, Bump;
    if k < |h.blocks| && size + 7 < U64 {
      TilesRange(h.blocks, h.brk, k);
    }
  }

  lemma WrappedBump(brk: nat, size: nat)
    requires brk <= HEAP_END && size < U64 && brk + HEADER + size + 7 >= U64
    ensures size + 7 >= U64 ==> RoundUp8(size) == 0 && Bump(brk, RoundUp8(size)) == brk + HEADER
    ensures size + 7 < U64 ==>
              && size <= RoundUp8(size) == (size + 7) / 8 * 8
              && var top := brk + HEADER + RoundUp8(size);
                 Bump(brk, RoundUp8(size)) == if top < U64 then top else top - U64
  {
    if size + 7 >= U64 {
      DivisionUnique(size + 7, U64, 1, size + 7 - U64);
      DivisionUnique(brk + HEADER, U64, 0, brk + HEADER);
    } else {
      RoundUp8Exact(size);
      BumpIs(brk, RoundUp8(size));
    }
  }

  /** Adding twice modulo 2^64 is adding once modulo 2^64. */
  lemma BumpIs(brk: nat, need: nat)
    requires brk <= HEAP_END && need < U64
    ensures var top := brk + HEADER + need; Bump(brk, need) == if top < U64 then top else top - U64
  {
    var inner := if HEADER + need < U64 then HEADER + need else HEADER + need - U64;
    DivisionUnique(HEADER + need, U64, if HEADER + need < U64 then 0 else 1, inner);
    var top := brk + inner;
    DivisionUnique(top, U64, if top < U64 then 0 else 1, if top < U64 then top else top - U64);
  }

  /** A concrete request that corrupts an empty heap: the bump pointer moves by 16 bytes only. */
  lemma WrapWitness()
    ensures !Sound(Empty, U64 - 8) && Alloc(Empty, U64 - 8).ptr == HEAP_START + HEADER
    ensures Alloc(Empty, U64 - 8).heap.brk == HEAP_START + 16
  {
    assert FirstFit(Empty.blocks, U64 - 8, 0) == 0;
    SoundIff(Empty, U64 - 8);
  }
}

/** The allocator as the kernel runs it: headers in memory, linked through their `next` fields. */
module KernelHeap {
  import opened Machine
  import opened Heap

  /** A block header; `next` is the address of the next header, `NULL` at the end of the list. */
  datatype MemHeader = MemHeader(size: nat, isFree: bool, next: nat)

  /** Following `next` from `head` visits exactly `blocks`, and then stops. */
  ghost predicate Linked(headers: map<nat, MemHeader>, head: nat, blocks: seq<Block>)
    decreases |blocks|
  {
    if blocks == [] then head == NULL
    else
      && head == blocks[0].addr != NULL && head in headers
      && headers[head].size == blocks[0].size && headers[head].isFree == blocks[0].free
      && Linked(headers, headers[head].next, blocks[1..])
  }

  /** Writing a header outside the list does not disturb the list. */
  lemma {:induction false} LinkedElsewhere(headers: map<nat, MemHeader>, head: nat, blocks: seq<Block>, a: nat, v: MemHeader)
    requires Linked(headers, head, blocks)
    requires forall i | 0 <= i < |blocks| :: blocks[i].addr != a
    ensures Linked(headers[a := v], head, blocks)
    decreases |blocks|
  {
    if blocks != [] {
      LinkedElsewhere(headers, headers[head].next, blocks[1..], a, v);
    }
  }

  /** Flipping the flag of one header marks exactly that block. */
  lemma {:induction false} LinkedMark(headers: map<nat, MemHeader>, head: nat, blocks: seq<Block>, k: nat, free: bool)
    requires Linked(headers, head, blocks) && k < |blocks| && blocks[k].addr in headers
    requires forall j | 0 <= j < |blocks| && j != k :: blocks[j].addr != blocks[k].addr
    ensures var a := blocks[k].addr;
            Linked(headers[a := headers[a].(isFree := free)], head, blocks[k := blocks[k].(free := free)])
    decreases |blocks|
  {
    var a := blocks[k].addr;
    var blocks' := blocks[k := blocks[k].(free := free)];
    if k == 0 {
      assert blocks'[1..] == blocks[1..];
      LinkedElsewhere(headers, headers[head].next, blocks[1..], a, headers[a].(isFree := free));
    } else {
      assert blocks'[1..] == blocks[1..][k - 1 := blocks[k].(free := free)];
      LinkedMark(headers, headers[head].next, blocks[1..], k - 1, free);
    }
  }

  lemma {:induction false} LinkedHas(headers: map<nat, MemHeader>, head: nat, blocks: seq<Block>, k: nat)
    requires Linked(headers, head, blocks) && k < |blocks|
    ensures blocks[k].addr in headers
    decreases |blocks|
  {
    if k > 0 {
      LinkedHas(headers, headers[head].next, blocks[1..], k - 1);
    }
  }

  /** The search is at block `i`. */
  lemma LinkedNode(headers: map<nat, MemHeader>, current: nat, blocks: seq<Block>, i: nat)
    requires i <= |blocks| && current != NULL && Linked(headers, current, blocks[i..])
    ensures i < |blocks| && current == blocks[i].addr && current in headers
    ensures headers[current].size == blocks[i].size && headers[current].isFree == blocks[i].free
    ensures Linked(headers, headers[current].next, blocks[i + 1..])
  {
    assert i < |blocks| ==> blocks[i..][1..] == blocks[i + 1..];
  }

  lemma LinkedEnd(headers: map<nat, MemHeader>, blocks: seq<Block>, i: nat)
    requires i <= |blocks| && Linked(headers, NULL, blocks[i..])
    ensures i == |blocks|
  {
  }

  class KernelHeap {
    var heapPtr: nat
    var freeList: nat
    var headers: map<nat, MemHeader>
    ghost var blocks: seq<Block>

    ghost function Model(): State
      reads this
    {
      State(heapPtr, blocks)
    }

    ghost predicate Valid()
      reads this
    {
      Linked(headers, freeList, blocks) && Tiled(Model())
    }

    constructor ()
      ensures Valid() && Model() == Empty
    {
      heapPtr, freeList, headers, blocks := HEAP_START, NULL, map[], [];
    }

    /** Computes the modelled allocation for every 64-bit request. The header list stays intact in any
        case; the heap stays tiled unless an addition wraps. */
    method Kmalloc(request: nat) returns (ptr: nat)
      requires Valid() && request < U64
      modifies this
      ensures Linked(headers, freeList, blocks)
      ensures Outcome(Model(), ptr) == Alloc(old(Model()), request)
      ensures NoWrap(old(Model()), request) ==> Valid()
    {
      hide Linked, Tiled, RoundUp8;
      var size := RoundUp8(request);
      var current: nat := freeList;
      ghost var i: nat := 0;
      if NoWrap(Model(), request) { AllocOwnership(Model(), request); }
      while current != NULL
        invariant i <= |blocks| && Linked(headers, current, blocks[i..])
        invariant FirstFit(blocks, size, 0) == FirstFit(blocks, size, i)
        invariant heapPtr == old(heapPtr) && freeList == old(freeList)
        invariant headers == old(headers) && blocks == old(blocks)
        decreases |blocks| - i
      {
        LinkedNode(headers, current, blocks, i);
        if headers[current].isFree && headers[current].size >= size {
          ptr := TakeBlock(current, i);
          return;
        }
        current := headers[current].next;
        i := i + 1;
      }
      LinkedEnd(headers, blocks, i);
      ptr := Extend(size);
    }

    /** Marks the block found as used. */
    method TakeBlock(current: nat, ghost i: nat) returns (ptr: nat)
      requires Valid() && i < |blocks| && blocks[i].addr == current && current in headers
      modifies this
      ensures Linked(headers, freeList, blocks)
      ensures Model() == Reuse(old(Model()), i) && ptr == old(blocks[i].Payload())
    {
      hide Linked, Tiled;
      DistinctFrom(Model(), i);
      LinkedMark(headers, freeList, blocks, i, false);
      headers := headers[current := headers[current].(isFree := false)];
      blocks := blocks[i := blocks[i].(free := false)];
      ptr := current + HEADER;
    }

    /** Lays a new block at the bump pointer, if the new bump pointer is not beyond the heap. */
    method Extend(size: nat) returns (ptr: nat)
      requires Valid()
      modifies this
      ensures Linked(headers, freeList, blocks)
      ensures Outcome(Model(), ptr) ==
                if Bump(old(heapPtr), size) > HEAP_END then Outcome(old(Model()), NULL)
                else Outcome(Grow(old(Model()), Bump(old(heapPtr), size), size), old(heapPtr) + HEADER)
    {
      var totalSize := (HEADER + size) % U64;
      if (heapPtr + totalSize) % U64 > HEAP_END {
        return NULL;
      }
      var header := heapPtr;
      forall j: nat | j < |blocks| ensures blocks[j].addr != header { TilesRange(blocks, heapPtr, j); }
      LinkedElsewhere(headers, freeList, blocks, header, MemHeader(size, false, freeList));
      TilesAbove(blocks, heapPtr);
      headers := headers[header := MemHeader(size, false, freeList)];
      freeList := header;
      heapPtr := (heapPtr + totalSize) % U64;
      blocks := [Block(header, size, false)] + blocks;
      assert blocks[1..] == old(blocks);
      return header + HEADER;
    }

    method Kfree(ptr: nat)
      requires Valid()
      requires ptr == NULL || exists i | 0 <= i < |blocks| :: blocks[i].Payload() == ptr
      modifies this
      ensures Valid()
      ensures Model() == Release(old(Model()), ptr)
    {
      if ptr == NULL {
        FreeNull(Model());
        return;
      }
      ghost var k: nat :| k < |blocks| && blocks[k].Payload() == ptr;
      LinkedHas(headers, freeList, blocks, k);
      DistinctFrom(Model(), k);
      ReleaseMarks(Model(), k);
      LinkedMark(headers, freeList, blocks, k, true);
      MarkTiles(blocks, heapPtr, k, true);
      var header := ptr - HEADER;
      headers := headers[header := headers[header].(isFree := true)];
      blocks := blocks[k := blocks[k].(free := true)];
    }
  }
}

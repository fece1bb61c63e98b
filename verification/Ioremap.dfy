/** Mapping device memory: `mmu_map_region`, `vmalloc`, `ioremap`, and what they promise of the
    hardware walk. */
module Ioremap {
  import opened Machine
  import opened Arith
  import opened PageTable

  // ---------------------------------------------------------------------------------------
  // The operations
  // ---------------------------------------------------------------------------------------

  /** One turn of the mapping loop: writes the level-3 entry of `va` if its level-2 index selects
      a pool table, and nothing otherwise. */
  function MapPage(kpt: seq<nat>, va: nat, pa: nat, flags: nat): (r: seq<nat>)
    requires |kpt| == ENTRIES
    ensures |r| == ENTRIES
  {
    var l2, l3 := va / BLOCK % 512, va / PAGE % 512;
    if l2 < 4 then kpt[L3_POOL + 512 * l2 + l3 := PageEntry(pa, flags)] else kpt
  }

  function MapPages(kpt: seq<nat>, va: nat, pa: nat, flags: nat, n: nat): (r: seq<nat>)
    requires |kpt| == ENTRIES
    ensures |r| == ENTRIES
    decreases n
  {
    if n == 0 then kpt
    else MapPages(MapPage(kpt, va, pa, flags), (va + PAGE) % U64, (pa + PAGE) % U64, flags, n - 1)
  }

  lemma MapPagesStep(kpt: seq<nat>, va: nat, pa: nat, flags: nat, n: nat)
    requires |kpt| == ENTRIES && n > 0
    ensures MapPages(kpt, va, pa, flags, n)
         == MapPages(MapPage(kpt, va, pa, flags), (va + PAGE) % U64, (pa + PAGE) % U64, flags, n - 1)
  {
  }

  lemma MapNoPages(kpt: seq<nat>, va: nat, pa: nat, flags: nat)
    requires |kpt| == ENTRIES
    ensures MapPages(kpt, va, pa, flags, 0) == kpt
  {
  }

  /** Rounds up to whole pages, in 64-bit arithmetic. */
  function PageAlign(size: nat): nat { (size + PAGE - 1) % U64 / PAGE * PAGE }

  /** The address space handed out so far is `[POOL, next)`. */
  datatype Space = Space(kpt: seq<nat>, next: nat)
  datatype Outcome = Outcome(space: Space, ptr: nat)

  function Vmalloc(next: nat, size: nat): (r: (nat, nat))
  {
    var aligned := PageAlign(size);
    if (next + aligned) % U64 > POOL_END then (next, NULL) else ((next + aligned) % U64, next)
  }

  function Remap(s: Space, phys: nat, size: nat): Outcome
    requires |s.kpt| == ENTRIES
  {
    if size == 0 then Outcome(s, NULL) else
    var offset := phys % PAGE;
    var mapSize := PageAlign(offset + size);
    var (next, page) := Vmalloc(s.next, mapSize);
    if page == NULL then Outcome(s.(next := next), NULL)
    else Outcome(Space(MapPages(s.kpt, page, phys - offset, PROT_DEVICE_PAGE, mapSize / PAGE), next), page + offset)
  }

  // ---------------------------------------------------------------------------------------
  // The pool as a sequence of slots
  // ---------------------------------------------------------------------------------------

  /** Address of pool page `s`. */
  function PoolPage(s: nat): nat { POOL + s * PAGE }

  lemma MapPageSlot(kpt: seq<nat>, s: nat, pa: nat, flags: nat)
    requires |kpt| == ENTRIES && s < 2048
    ensures MapPage(kpt, PoolPage(s), pa, flags) == kpt[L3_POOL + s := PageEntry(pa, flags)]
  {
    hide PageEntry;
    var va := PoolPage(s);
    assert (va - POOL) / PAGE == s;
    PoolIndices(va, s);
  }

  /** Slots `first .. first + n` hold the pages from `pa` on, all other entries are those of `kpt`. */
  ghost predicate SlotsWritten(kpt: seq<nat>, r: seq<nat>, first: nat, pa: nat, n: nat)
    requires |kpt| == |r| == ENTRIES
  {
    forall j | 0 <= j < ENTRIES ::
      r[j] == if first <= j < first + n then PageEntry((pa + (j - first) * PAGE) % U64, PROT_DEVICE_PAGE) else kpt[j]
  }

  /** Mapping `n` pages from slot `s` on writes exactly those slots, each with its own page, for
      every physical address. */
  lemma {:induction false} MapPagesSlots(kpt: seq<nat>, s: nat, pa: nat, n: nat)
    requires |kpt| == ENTRIES && s + n <= 2048 && pa < U64
    ensures SlotsWritten(kpt, MapPages(kpt, PoolPage(s), pa, PROT_DEVICE_PAGE, n), L3_POOL + s, pa, n)
    decreases n
  {
    hide MapPage, MapPages, PageEntry;
    if n == 0 {
      MapNoPages(kpt, PoolPage(s), pa, PROT_DEVICE_PAGE);
    } else {
      MapPageSlot(kpt, s, pa, PROT_DEVICE_PAGE);
      MapPagesStep(kpt, PoolPage(s), pa, PROT_DEVICE_PAGE, n);
      NextPage(s);
      hide PoolPage;
      var kpt', pa' := kpt[L3_POOL + s := PageEntry(pa, PROT_DEVICE_PAGE)], (pa + PAGE) % U64;
      MapPagesSlots(kpt', s + 1, pa', n - 1);
      var r := MapPages(kpt', PoolPage(s + 1), pa', PROT_DEVICE_PAGE, n - 1);
      SlotsShift(kpt, kpt', r, L3_POOL + s, pa, n);
    }
  }

  lemma SlotsShift(kpt: seq<nat>, kpt': seq<nat>, r: seq<nat>, first: nat, pa: nat, n: nat)
    requires |kpt| == |kpt'| == |r| == ENTRIES && first < ENTRIES && n > 0 && pa < U64
    requires kpt' == kpt[first := PageEntry(pa, PROT_DEVICE_PAGE)]
    requires SlotsWritten(kpt', r, first + 1, (pa + PAGE) % U64, n - 1)
    ensures SlotsWritten(kpt, r, first, pa, n)
  {
    hide PageEntry;
    forall j | 0 <= j < ENTRIES
      ensures r[j] == if first <= j < first + n then PageEntry((pa + (j - first) * PAGE) % U64, PROT_DEVICE_PAGE) else kpt[j]
    {
      if first <= j < first + n { SumModulo(pa, j - first); }
    }
  }

  lemma SumModulo(pa: nat, i: nat)
    requires pa < U64
    ensures i == 0 ==> (pa + i * PAGE) % U64 == pa
    ensures i > 0 ==> ((pa + PAGE) % U64 + (i - 1) * PAGE) % U64 == (pa + i * PAGE) % U64
  {
    DivisionUnique(pa, U64, 0, pa);
    if i > 0 {
      var x, q := (pa + PAGE) % U64, (pa + PAGE) / U64;
      var y := x + (i - 1) * PAGE;
      DivisionUnique(pa + i * PAGE, U64, q + y / U64, y % U64);
    }
  }

  lemma NextPage(s: nat)
    requires s < 2048
    ensures (PoolPage(s) + PAGE) % U64 == PoolPage(s + 1)
  {
    DivisionUnique(PoolPage(s) + PAGE, U64, 0, PoolPage(s + 1));
  }

  /** No mapping loop, whatever its range, touches anything but the pool. */
  lemma {:induction false} MapPagesWired(kpt: seq<nat>, base: nat, va: nat, pa: nat, flags: nat, n: nat)
    requires Wired(kpt, base)
    ensures Wired(MapPages(kpt, va, pa, flags, n), base)
    decreases n
  {
    hide BootEntry, PageEntry;
    if n > 0 {
      MapPagesWired(MapPage(kpt, va, pa, flags), base, (va + PAGE) % U64, (pa + PAGE) % U64, flags, n - 1);
    }
  }

  // ---------------------------------------------------------------------------------------
  // Correctness of one call
  // ---------------------------------------------------------------------------------------

  /** Addresses `[v, v + size)` translate to `[phys, phys + size)`, byte for byte. */
  ghost predicate Translates(kpt: seq<nat>, base: nat, v: nat, phys: nat, size: nat)
    requires |kpt| == ENTRIES
  {
    forall va: nat | v <= va < v + size :: Walk(kpt, base, va) == To(phys + (va - v))
  }

  ghost predicate Unchanged(kpt: seq<nat>, kpt': seq<nat>, base: nat, lo: nat, hi: nat)
    requires |kpt| == |kpt'| == ENTRIES
  {
    forall va: nat | !(lo <= va < hi) :: Walk(kpt', base, va) == Walk(kpt, base, va)
  }

  /** The address space handed out ends on a page boundary inside the pool. */
  ghost predicate InPool(next: nat) { POOL <= next <= POOL_END && next % PAGE == 0 }

  ghost predicate Valid(s: Space, base: nat) { Wired(s.kpt, base) && InPool(s.next) }

  lemma PageAlignShape(size: nat)
    ensures PageAlign(size) % PAGE == 0 && PageAlign(size) <= U64 - PAGE && PageAlign(PageAlign(size)) == PageAlign(size)
    ensures (PageAlign(size) + PAGE - 1) / PAGE == PageAlign(size) / PAGE
  {
    var q := (size + PAGE - 1) % U64 / PAGE;
    assert PageAlign(size) == q * PAGE;
    DivisionUnique(q * PAGE, PAGE, q, 0);
    DivisionUnique(q * PAGE + PAGE - 1, PAGE, q, PAGE - 1);
    DivisionUnique(q * PAGE + PAGE - 1, U64, 0, q * PAGE + PAGE - 1);
  }

  lemma PageAlignExact(size: nat)
    requires size + PAGE - 1 < U64
    ensures size <= PageAlign(size) < size + PAGE
  {
    DivisionUnique(size + PAGE - 1, U64, 0, size + PAGE - 1);
  }

  /** `vmalloc`: short of wrap-around it fails exactly when the pool has too few pages left, and
      otherwise hands out whole pages that nobody was given before. */
  lemma VmallocReserves(next: nat, size: nat)
    requires InPool(next) && size + PAGE - 1 < U64 && next + PageAlign(size) < U64
    ensures var (next', ptr) := Vmalloc(next, size);
            && InPool(next')
            && (ptr == NULL <==> POOL_END - next < size)
            && (ptr == NULL ==> next' == next)
            && (ptr != NULL ==> ptr == next && ptr % PAGE == 0 && ptr + size <= next' < ptr + size + PAGE)
  {
    PageAlignShape(size);
    PageAlignExact(size);
    DivisionUnique(next + PageAlign(size), U64, 0, next + PageAlign(size));
    PageSum(next, PageAlign(size));
    PageGap(next, size, PageAlign(size));
    hide PageAlign;
  }

  lemma PageSum(a: nat, b: nat)
    requires a % PAGE == 0 && b % PAGE == 0
    ensures (a + b) % PAGE == 0
  {
    DivisionUnique(a + b, PAGE, a / PAGE + b / PAGE, 0);
  }

  /** Between page boundaries, fitting and fitting after rounding up are the same. */
  lemma PageGap(next: nat, size: nat, aligned: nat)
    requires next % PAGE == 0 && aligned % PAGE == 0 && size <= aligned < size + PAGE
    ensures next + aligned > POOL_END <==> next + size > POOL_END
  {
    var n, k := next / PAGE, aligned / PAGE;
    assert next == n * PAGE && aligned == k * PAGE && POOL_END == 0x80800 * PAGE;
  }

  /** What one mapping of `n` pages from slot `s` does to the walk, for every address. */
  lemma WalkAfterMap(kpt: seq<nat>, base: nat, s: nat, pa: nat, n: nat, va: nat)
    requires Wired(kpt, base) && s + n <= 2048 && pa % PAGE == 0 && pa < U64
    ensures var r := MapPages(kpt, PoolPage(s), pa, PROT_DEVICE_PAGE, n);
            if PoolPage(s) <= va < PoolPage(s + n) then
              pa + n * PAGE <= PA_LIMIT ==> Walk(r, base, va) == To(pa + (va - PoolPage(s)))
            else Walk(r, base, va) == Walk(kpt, base, va)
  {
    hide Walk, BootEntry, MapPages, Leaf, IsTable, PageEntry;
    var r := MapPages(kpt, PoolPage(s), pa, PROT_DEVICE_PAGE, n);
    MapPagesSlots(kpt, s, pa, n);
    MapPagesWired(kpt, base, PoolPage(s), pa, PROT_DEVICE_PAGE, n);
    if POOL <= va < POOL_END {
      WalkPool(r, base, va);
      WalkPool(kpt, base, va);
      var j := (va - POOL) / PAGE;
      PageOf(va, j);
      hide PoolSlot;
      if s <= j < s + n && pa + n * PAGE <= PA_LIMIT {
        SlotTarget(pa, j - s, n, va);
      }
    } else {
      WalkWired(r, base, va);
      WalkWired(kpt, base, va);
    }
  }

  lemma PageOf(va: nat, j: nat)
    requires va >= POOL && j == (va - POOL) / PAGE
    ensures PoolSlot(va) == L3_POOL + j && va == PoolPage(j) + va % PAGE
  {
    var off := (va - POOL) % PAGE;
    DivisionUnique(va, PAGE, 0x80000 + j, off);
  }

  lemma SlotTarget(pa: nat, i: nat, n: nat, va: nat)
    requires pa % PAGE == 0 && i < n && pa + n * PAGE <= PA_LIMIT
    ensures var e := PageEntry((pa + i * PAGE) % U64, PROT_DEVICE_PAGE);
            IsTable(e) && Leaf(e, PAGE, va) == To(pa + i * PAGE + va % PAGE)
  {
    hide Leaf, IsTable, PageEntry;
    DivisionUnique(pa + i * PAGE, U64, 0, pa + i * PAGE);
    DivisionUnique(pa + i * PAGE, PAGE, pa / PAGE + i, 0);
    PageEntryIs(pa + i * PAGE);
    MappedPage(pa + i * PAGE, va);
  }

  /** The size the tables are edited for. */
  function MapSize(phys: nat, size: nat): nat { PageAlign(phys % PAGE + size) }

  /** The request does not make the address space pointer wrap around. */
  ghost predicate NoRollback(next: nat, phys: nat, size: nat) {
    next + MapSize(phys, size) < U64
  }

  lemma RemapCases(s: Space, phys: nat, size: nat)
    requires |s.kpt| == ENTRIES && InPool(s.next) && 0 < size
    ensures var m, offset := MapSize(phys, size), phys % PAGE;
            var next := (s.next + m) % U64;
            Remap(s, phys, size) ==
              if next > POOL_END then Outcome(s, NULL)
              else Outcome(Space(MapPages(s.kpt, s.next, phys - offset, PROT_DEVICE_PAGE, m / PAGE), next), s.next + offset)
  {
    hide PageAlign, MapPages;
    PageAlignShape(phys % PAGE + size);
  }

  /** `ioremap` for every 64-bit request that does not roll the address space pointer back: it fails
      exactly when the size is zero or the pool has too few pages left, and then changes nothing;
      otherwise no address outside the new range translates differently than before, and if the
      range ends within the 40-bit physical space every byte asked for translates to its own
      physical address, whatever the alignment and however many level-3 tables the range crosses. */
  lemma RemapCorrect(s: Space, base: nat, phys: nat, size: nat)
    requires Valid(s, base) && phys < U64 && size < U64 && NoRollback(s.next, phys, size)
    ensures var r := Remap(s, phys, size);
            && Valid(r.space, base) && s.next <= r.space.next
            && (r.ptr == NULL <==> size == 0 || s.next + MapSize(phys, size) > POOL_END)
            && (r.ptr == NULL ==> r.space == s)
            && Unchanged(s.kpt, r.space.kpt, base, s.next, r.space.next)
            && (r.ptr != NULL && phys + size <= PA_LIMIT ==>
                  s.next <= r.ptr && r.ptr + size <= r.space.next && Translates(r.space.kpt, base, r.ptr, phys, size))
  {
    hide Remap, MapSize, Translates, Unchanged, MapPages, BootEntry, Walk;
    if size == 0 {
      RemapZero(s, phys, base);
    } else {
      RemapCases(s, phys, size);
      MapSizeFacts(phys, size);
      var m := MapSize(phys, size);
      DivisionUnique(s.next + m, U64, 0, s.next + m);
      if s.next + m <= POOL_END {
        PageSum(s.next, m);
        MappedRange(s, base, phys, size, phys % PAGE, m);
      } else {
        SameTables(s.kpt, base, s.next);
      }
    }
  }

  lemma RemapZero(s: Space, phys: nat, base: nat)
    requires |s.kpt| == ENTRIES
    ensures Remap(s, phys, 0) == Outcome(s, NULL) && Unchanged(s.kpt, s.kpt, base, s.next, s.next)
  {
  }

  lemma SameTables(kpt: seq<nat>, base: nat, next: nat)
    requires |kpt| == ENTRIES
    ensures Unchanged(kpt, kpt, base, next, next)
  {
  }

  lemma MapSizeFacts(phys: nat, size: nat)
    ensures MapSize(phys, size) % PAGE == 0
    ensures phys + size <= PA_LIMIT ==>
              && phys % PAGE + size <= MapSize(phys, size)
              && phys - phys % PAGE + MapSize(phys, size) <= PA_LIMIT
  {
    PageAlignShape(phys % PAGE + size);
    if phys + size <= PA_LIMIT {
      PageAlignExact(phys % PAGE + size);
      FitsLimit(phys, size, MapSize(phys, size));
    }
  }

  lemma FitsLimit(phys: nat, size: nat, m: nat)
    requires phys + size <= PA_LIMIT && m % PAGE == 0 && m < phys % PAGE + size + PAGE
    ensures phys - phys % PAGE + m <= PA_LIMIT
  {
    var q, k := phys / PAGE, m / PAGE;
    assert phys - phys % PAGE == q * PAGE && m == k * PAGE && PA_LIMIT == 0x1000_0000 * PAGE;
  }

  lemma MappedRange(s: Space, base: nat, phys: nat, size: nat, offset: nat, m: nat)
    requires Valid(s, base) && s.next + m <= POOL_END && m % PAGE == 0 && phys < U64 && offset == phys % PAGE
    ensures var kpt' := MapPages(s.kpt, s.next, phys - offset, PROT_DEVICE_PAGE, m / PAGE);
            && Wired(kpt', base)
            && Unchanged(s.kpt, kpt', base, s.next, s.next + m)
            && (offset + size <= m && phys - offset + m <= PA_LIMIT ==>
                  Translates(kpt', base, s.next + offset, phys, size))
  {
    hide Walk, BootEntry, MapPages;
    var slot, n, pa := (s.next - POOL) / PAGE, m / PAGE, phys - offset;
    assert s.next == PoolPage(slot) && s.next + m == PoolPage(slot + n) && n * PAGE == m;
    DivisionUnique(pa, PAGE, phys / PAGE, 0);
    var kpt' := MapPages(s.kpt, s.next, pa, PROT_DEVICE_PAGE, n);
    MapPagesWired(s.kpt, base, s.next, pa, PROT_DEVICE_PAGE, n);
    forall va: nat
      ensures if s.next <= va < s.next + m then pa + m <= PA_LIMIT ==> Walk(kpt', base, va) == To(pa + (va - s.next))
              else Walk(kpt', base, va) == Walk(s.kpt, base, va)
    {
      WalkAfterMap(s.kpt, base, slot, pa, n, va);
    }
  }

  /** For every 64-bit request that is not refused: the mapping is right if and only if the range
      ends within the 40-bit physical space. */
  lemma RemapCorrectIff(s: Space, base: nat, phys: nat, size: nat)
    requires Valid(s, base) && 0 < size < U64 && phys < U64 && Remap(s, phys, size).ptr != NULL
    ensures Translates(Remap(s, phys, size).space.kpt, base, Remap(s, phys, size).ptr, phys, size)
            <==> phys + size <= PA_LIMIT
  {
    var r := Remap(s, phys, size);
    assert |r.space.kpt| == ENTRIES;
    hide Remap, Walk, BootEntry, Wired, Unchanged, MapSize;
    if phys + size <= PA_LIMIT {
      SmallNoRollback(s.next, phys, size);
      RemapCorrect(s, base, phys, size);
    } else {
      var last := r.ptr + (size - 1);
      WalkBelowLimit(r.space.kpt, base, last);
      assert Walk(r.space.kpt, base, last) != To(phys + (last - r.ptr));
    }
  }

  lemma SmallNoRollback(next: nat, phys: nat, size: nat)
    requires next <= POOL_END && phys + size <= PA_LIMIT
    ensures NoRollback(next, phys, size)
  {
    PageAlignExact(phys % PAGE + size);
  }

  /** A request that is granted and wrong: one byte, right behind the 40-bit physical space. */
  lemma BadRemapWitness(kpt: seq<nat>, base: nat)
    requires Booted(kpt, base)
    ensures var r := Remap(Space(kpt, POOL), PA_LIMIT, 1);
            r.ptr == POOL && !Translates(r.space.kpt, base, r.ptr, PA_LIMIT, 1)
  {
    hide BootEntry, Translates;
    var s := Space(kpt, POOL);
    assert MapSize(PA_LIMIT, 1) == PAGE;
    RemapCases(s, PA_LIMIT, 1);
    hide Remap;
    RemapCorrectIff(s, base, PA_LIMIT, 1);
  }

  // ---------------------------------------------------------------------------------------
  // When earlier mappings survive
  // ---------------------------------------------------------------------------------------

  /** For every 64-bit request, whatever its physical address: the call keeps the address space
      growing and every translation outside the new range, if and only if adding the mapping size
      to the address space pointer does not wrap around. */
  lemma RemapKeepsEarlierIff(s: Space, base: nat, phys: nat, size: nat)
    requires Valid(s, base) && phys < U64 && size < U64
    ensures var r := Remap(s, phys, size);
            (Valid(r.space, base) && s.next <= r.space.next && Unchanged(s.kpt, r.space.kpt, base, s.next, r.space.next))
            <==> NoRollback(s.next, phys, size)
  {
    hide MapSize, Remap, Walk, Unchanged, MapPages, BootEntry;
    if NoRollback(s.next, phys, size) {
      RemapCorrect(s, base, phys, size);
    } else {
      MapSizeBound(phys, size);
      if size == 0 {
        MapSizeOfZero(phys);
      } else {
        RemapCases(s, phys, size);
        var m := MapSize(phys, size);
        DivisionUnique(s.next + m, U64, 1, s.next + m - U64);
      }
    }
  }

  lemma MapSizeBound(phys: nat, size: nat)
    ensures MapSize(phys, size) <= U64 - PAGE
  {
    PageAlignShape(phys % PAGE + size);
  }

  lemma MapSizeOfZero(phys: nat)
    ensures MapSize(phys, 0) <= 2 * PAGE
  {
    PageAlignExact(phys % PAGE);
  }

  /** What a wrapping request leads to, from any state with something mapped: it is granted, moves
      the pointer back by a page, and the next request of a page gets that page again, for any
      physical page `p`, over whatever was mapped there. */
  lemma RollbackDestroys(s: Space, base: nat, p: nat)
    requires Valid(s, base) && s.next > POOL && p % PAGE == 0 && p + PAGE <= PA_LIMIT
    ensures var r := Remap(s, 0, U64 - PAGE);
            var r' := Remap(r.space, p, PAGE);
            && r.ptr == s.next && r.space.next == s.next - PAGE && Valid(r.space, base)
            && r'.ptr == s.next - PAGE && Walk(r'.space.kpt, base, s.next - PAGE) == To(p)
  {
    hide Remap, MapPages, Walk, BootEntry, PageAlign;
    var m := MapSize(0, U64 - PAGE);
    WholePages();
    RemapCases(s, 0, U64 - PAGE);
    DivisionUnique(s.next + m, U64, 1, s.next - PAGE);
    var r := Remap(s, 0, U64 - PAGE);
    MapPagesWired(s.kpt, base, s.next, 0, PROT_DEVICE_PAGE, m / PAGE);
    DivisionUnique(s.next - PAGE, PAGE, s.next / PAGE - 1, 0);
    OnePage(p);
    RemapCases(r.space, p, PAGE);
    DivisionUnique(r.space.next + PAGE, U64, 0, s.next);
    RemapCorrect(r.space, base, p, PAGE);
    hide MapSize;
  }

  lemma WholePages()
    ensures MapSize(0, U64 - PAGE) == U64 - PAGE
  {
  }

  lemma OnePage(p: nat)
    requires p % PAGE == 0
    ensures MapSize(p, PAGE) == PAGE
  {
  }

  // ---------------------------------------------------------------------------------------
  // Whole runs: nothing mapped is ever disturbed
  // ---------------------------------------------------------------------------------------

  datatype Request = Request(phys: nat, size: nat)
  datatype Mapping = Mapping(v: nat, phys: nat, size: nat)

  /** The mappings granted for ranges within the 40-bit physical space. */
  datatype History = History(space: Space, mappings: seq<Mapping>)

  function Serve(h: History, r: Request): History
    requires |h.space.kpt| == ENTRIES
  {
    var o := Remap(h.space, r.phys, r.size);
    History(o.space, if o.ptr != NULL && r.phys + r.size <= PA_LIMIT then h.mappings + [Mapping(o.ptr, r.phys, r.size)]
                     else h.mappings)
  }

  function ServeAll(h: History, rs: seq<Request>): History
    requires |h.space.kpt| == ENTRIES
    decreases |rs|
  {
    if rs == [] then h else ServeAll(Serve(h, rs[0]), rs[1..])
  }

  /** 64-bit requests, none of which rolls the pointer back when its turn comes. */
  ghost predicate Served(h: History, rs: seq<Request>)
    requires |h.space.kpt| == ENTRIES
    decreases |rs|
  {
    rs == [] || (rs[0].phys < U64 && rs[0].size < U64 && NoRollback(h.space.next, rs[0].phys, rs[0].size)
                 && Served(Serve(h, rs[0]), rs[1..]))
  }

  /** Every mapping recorded lies below `next` and still translates. */
  ghost predicate AllHold(h: History, base: nat) {
    && Valid(h.space, base)
    && forall i | 0 <= i < |h.mappings| :: Holds(h.space, base, h.mappings[i])
  }

  ghost predicate Holds(s: Space, base: nat, m: Mapping)
    requires |s.kpt| == ENTRIES
  {
    POOL <= m.v && m.v + m.size <= s.next && Translates(s.kpt, base, m.v, m.phys, m.size)
  }

  lemma HoldsAfter(s: Space, s': Space, base: nat, m: Mapping)
    requires |s.kpt| == |s'.kpt| == ENTRIES && Holds(s, base, m)
    requires s.next <= s'.next && Unchanged(s.kpt, s'.kpt, base, s.next, s'.next)
    ensures Holds(s', base, m)
  {
    hide Walk;
  }

  lemma ServeKeeps(h: History, base: nat, r: Request)
    requires AllHold(h, base) && r.phys < U64 && r.size < U64 && NoRollback(h.space.next, r.phys, r.size)
    ensures AllHold(Serve(h, r), base)
  {
    RemapCorrect(h.space, base, r.phys, r.size);
    hide Remap, Walk, BootEntry, Translates, Unchanged, MapSize;
    var h' := Serve(h, r);
    forall i | 0 <= i < |h'.mappings| ensures Holds(h'.space, base, h'.mappings[i]) {
      if i < |h.mappings| {
        assert h'.mappings[i] == h.mappings[i];
        HoldsAfter(h.space, h'.space, base, h.mappings[i]);
      }
    }
  }

  /** After any sequence of 64-bit requests, granted, refused or out of range, that never rolls the
      pointer back: every mapping ever granted within the 40-bit space is intact. */
  lemma {:induction false} MappingsSurvive(h: History, base: nat, rs: seq<Request>)
    requires AllHold(h, base) && Served(h, rs)
    ensures AllHold(ServeAll(h, rs), base)
    decreases |rs|
  {
    if rs != [] {
      ServeKeeps(h, base, rs[0]);
      hide Serve, NoRollback;
      MappingsSurvive(Serve(h, rs[0]), base, rs[1..]);
    }
  }
}

/** The VMSAv8-64 table walk and the kernel's page tables.

    The kernel keeps its eight tables in one structure of 4096 entries: level 1, three level-2
    tables and a pool of four level-3 tables. The walk below knows nothing of that layout: it is
    the hardware's, for a 4 KB granule, 39-bit virtual and 40-bit physical addresses, and reads
    entries of memory by physical address. */
module PageTable {
  import opened Arith
  import opened Bits

  const PAGE: int := 0x1000
  const BLOCK: int := 0x20_0000
  const GIGA: int := 0x4000_0000
  const VA_LIMIT: int := 0x80_0000_0000
  const PA_LIMIT: int := 0x100_0000_0000
  const BITS48: int := 0x1_0000_0000_0000

  const ECAM: int := 0x7000_0000
  const ECAM_END: int := 0x7800_0000
  const PCIE_PHYS_BASE: int := 0x3f00_0000
  const POOL: int := 0x8000_0000
  const POOL_END: int := 0x8080_0000

  const ENTRIES: int := 4096
  const L2_PERIPH: int := 512
  const L2_RAM: int := 1024
  const L2_DYNAMIC: int := 1536
  const L3_POOL: int := 2048

  // ---------------------------------------------------------------------------------------
  // The hardware walk
  // ---------------------------------------------------------------------------------------

  datatype Translation = Fault | To(pa: nat)

  /** Memory holding the tables: `kpt[i]` is the 64-bit entry at physical address `base + 8 * i`. */
  predicate Readable(base: nat, pa: nat) {
    base <= pa < base + 8 * ENTRIES && (pa - base) % 8 == 0
  }

  /** Bits 1..0 are 01 for a block, 11 for a table or a page; anything else is invalid. */
  predicate IsBlock(e: nat) { e % 4 == 1 }
  predicate IsTable(e: nat) { e % 4 == 3 }
  /** Bit 10, the access flag: a leaf without it faults. */
  predicate Accessed(e: nat) { e / 1024 % 2 == 1 }

  /** A leaf entry that maps `size` bytes: output address bits 47 down to log2(size). */
  function Leaf(e: nat, size: nat, va: nat): Translation
    requires size > 0
  {
    var pa := e % BITS48 / size * size + va % size;
    if Accessed(e) && pa < PA_LIMIT then To(pa) else Fault
  }

  function NextTable(e: nat): nat { e % BITS48 / PAGE * PAGE }

  function Walk(kpt: seq<nat>, base: nat, va: nat): Translation
    requires |kpt| == ENTRIES
  {
    if va >= VA_LIMIT then Fault else WalkLevel1(kpt, base, va, base)
  }

  function WalkLevel1(kpt: seq<nat>, base: nat, va: nat, table: nat): Translation
    requires |kpt| == ENTRIES
  {
    var pa := table + 8 * (va / GIGA % 512);
    if !Readable(base, pa) then Fault else
    var e := kpt[(pa - base) / 8];
    if IsBlock(e) then Leaf(e, GIGA, va)
    else if IsTable(e) then WalkLevel2(kpt, base, va, NextTable(e))
    else Fault
  }

  function WalkLevel2(kpt: seq<nat>, base: nat, va: nat, table: nat): Translation
    requires |kpt| == ENTRIES
  {
    var pa := table + 8 * (va / BLOCK % 512);
    if !Readable(base, pa) then Fault else
    var e := kpt[(pa - base) / 8];
    if IsBlock(e) then Leaf(e, BLOCK, va)
    else if IsTable(e) then WalkLevel3(kpt, base, va, NextTable(e))
    else Fault
  }

  function WalkLevel3(kpt: seq<nat>, base: nat, va: nat, table: nat): Translation
    requires |kpt| == ENTRIES
  {
    var pa := table + 8 * (va / PAGE % 512);
    if !Readable(base, pa) then Fault else
    var e := kpt[(pa - base) / 8];
    if IsTable(e) then Leaf(e, PAGE, va) else Fault
  }

  /** The structure is page aligned and lies in physical memory. */
  predicate TableBase(base: nat) {
    base % PAGE == 0 && base + 8 * ENTRIES <= PA_LIMIT
  }

  /** No walk of any tables leaves the 40-bit physical space. */
  lemma WalkBelowLimit(kpt: seq<nat>, base: nat, va: nat)
    requires |kpt| == ENTRIES
    ensures Walk(kpt, base, va).To? ==> Walk(kpt, base, va).pa < PA_LIMIT
  {
    hide Leaf;
    forall e: nat, size: nat | size > 0 ensures Leaf(e, size, va).To? ==> Leaf(e, size, va).pa < PA_LIMIT {
      LeafBelowLimit(e, size, va);
    }
  }

  lemma LeafBelowLimit(e: nat, size: nat, va: nat)
    requires size > 0
    ensures Leaf(e, size, va).To? ==> Leaf(e, size, va).pa < PA_LIMIT
  {
  }

  // ---------------------------------------------------------------------------------------
  // What boot writes
  // ---------------------------------------------------------------------------------------

  /** A level-2 entry of the RAM gigabyte: the ECAM window is bridged to the PCIe controller, the
      rest is mapped to itself. */
  function RamEntry(i: nat): nat {
    var va := GIGA + i * BLOCK;
    if ECAM <= va < ECAM_END then Or(Or(PCIE_PHYS_BASE + (va - ECAM), 0x405), 0)
    else Or(Or(va, 0x401), 8)
  }

  function PeriphEntry(i: nat): nat { Or(Or(i * BLOCK, 0x405), 0) }

  /** Entry `j` of the structure after boot. */
  function BootEntry(base: nat, j: nat): nat {
    if j < 3 then Or(base + PAGE * (j + 1), 3)
    else if j < L2_PERIPH then 0
    else if j < L2_RAM then PeriphEntry(j - L2_PERIPH)
    else if j < L2_DYNAMIC then RamEntry(j - L2_RAM)
    else if j < L2_DYNAMIC + 4 then Or(base + PAGE * (4 + (j - L2_DYNAMIC)), 3)
    else 0
  }

  /** Everything but the level-3 pool is as boot left it. */
  ghost predicate Wired(kpt: seq<nat>, base: nat) {
    |kpt| == ENTRIES && TableBase(base) && forall j | 0 <= j < L3_POOL :: kpt[j] == BootEntry(base, j)
  }

  ghost predicate Booted(kpt: seq<nat>, base: nat) {
    Wired(kpt, base) && forall j | L3_POOL <= j < ENTRIES :: kpt[j] == 0
  }

  // ---------------------------------------------------------------------------------------
  // The entries as sums
  // ---------------------------------------------------------------------------------------

  lemma OrAttribute(p: nat, c: nat)
    requires p % PAGE == 0 && c < PAGE
    ensures Or(p, c) == p + c
  {
    Or12(p, 0, c);
    OrZero(c);
  }

  lemma OrMore(p: nat, x: nat, y: nat)
    requires p % PAGE == 0 && x < PAGE && y < PAGE
    ensures Or(Or(p, x), y) == p + Or(x, y)
  {
    OrAttribute(p, x);
    Or12(p, x, y);
  }

  lemma SmallOrs()
    ensures Pow2(10) == 0x400 && Or(1, 8) == 9 && Or(3, 3) == 3 && Or(1, 1) == 1
  {
    OrUnfold(1, 8);
    OrZero(4);
  }

  lemma OrConstants()
    ensures Or(0x401, 8) == 0x409 && Or(0x403, 0x400) == 0x403 && Or(0x403, 3) == 0x403
  {
    hide Or, Pow2;
    SmallOrs();
    OrZero(3);
    OrBelow(1, 10, 1, 8);
    OrFields(1, 1, 10, 3, 0);
    OrBelow(1, 10, 3, 3);
  }

  lemma PeriphEntryIs(i: nat)
    ensures PeriphEntry(i) == i * BLOCK + 0x405
  {
    OrAttribute(i * BLOCK, 0x405);
    OrZero(i * BLOCK + 0x405);
  }

  lemma RamEntryIs(i: nat)
    requires i < 512
    ensures var va := GIGA + i * BLOCK;
            RamEntry(i) == if ECAM <= va < ECAM_END then va - ECAM + PCIE_PHYS_BASE + 0x405 else va + 0x409
  {
    hide Or;
    var va := GIGA + i * BLOCK;
    if ECAM <= va < ECAM_END {
      OrAttribute(va - ECAM + PCIE_PHYS_BASE, 0x405);
      OrZero(va - ECAM + PCIE_PHYS_BASE + 0x405);
    } else {
      OrMore(va, 0x401, 8);
      OrConstants();
    }
  }

  /** The page entry the driver code writes: attributes and access flag may be set twice. */
  function PageEntry(pa: nat, flags: nat): nat {
    Or(Or(Or(pa, flags), 0x400), 3)
  }

  const PROT_DEVICE_PAGE: int := 0x403

  lemma PageEntryIs(pa: nat)
    requires pa % PAGE == 0
    ensures PageEntry(pa, PROT_DEVICE_PAGE) == pa + 0x403
  {
    hide Or;
    OrConstants();
    OrMore(pa, 0x403, 0x400);
    Or12(pa, 0x403, 3);
  }

  // ---------------------------------------------------------------------------------------
  // Reading one entry
  // ---------------------------------------------------------------------------------------

  /** An entry is a multiple of `unit` plus attribute bits: the parts can be told apart. */
  lemma Parts(q: nat, unit: nat, attr: nat)
    requires attr < unit && q * unit + attr < BITS48
    ensures (q * unit + attr) % BITS48 / unit * unit == q * unit
  {
    DivisionUnique(q * unit + attr, BITS48, 0, q * unit + attr);
    DivisionUnique(q * unit + attr, unit, q, attr);
  }

  /** `e` has low bits `low` and the access flag, when it is a multiple of 2048 plus 1024 plus a
      number below 1024 with those low bits. */
  lemma LowBits(e: nat, k: nat, r: nat, low: nat)
    requires e == 2048 * k + 1024 + 4 * r + low && low < 4 && r < 256
    ensures e % 4 == low && Accessed(e)
  {
    DivisionUnique(e, 4, 512 * k + 256 + r, low);
    DivisionUnique(e, 1024, 2 * k + 1, 4 * r + low);
    DivisionUnique(2 * k + 1, 2, k, 1);
  }

  lemma TableEntry(p: nat)
    requires p % PAGE == 0 && p < PA_LIMIT
    ensures IsTable(p + 3) && NextTable(p + 3) == p
  {
    var q := p / PAGE;
    Parts(q, PAGE, 3);
    DivisionUnique(p + 3, 4, 1024 * q, 3);
  }

  lemma BlockEntry(p: nat, attr: nat, va: nat)
    requires p % BLOCK == 0 && p + BLOCK <= PA_LIMIT && attr in {0x405, 0x409}
    ensures IsBlock(p + attr) && Leaf(p + attr, BLOCK, va) == To(p + va % BLOCK)
  {
    hide Accessed;
    var q := p / BLOCK;
    assert p == q * BLOCK;
    Parts(q, BLOCK, attr);
    LowBits(p + attr, 1024 * q, (attr - 0x401) / 4, 1);
    assert 0 <= va % BLOCK < BLOCK;
  }

  lemma MappedPage(p: nat, va: nat)
    requires p % PAGE == 0 && p + PAGE <= PA_LIMIT
    ensures IsTable(p + 0x403) && Leaf(p + 0x403, PAGE, va) == To(p + va % PAGE)
  {
    hide Accessed;
    var q := p / PAGE;
    assert p == q * PAGE;
    Parts(q, PAGE, 0x403);
    LowBits(p + 0x403, 2 * q, 0, 3);
    assert 0 <= va % PAGE < PAGE;
  }

  lemma WiredLevel1(kpt: seq<nat>, base: nat, i: nat)
    requires Wired(kpt, base) && i < 512
    ensures kpt[i] == if i < 3 then base + PAGE * (i + 1) + 3 else 0
  {
    hide Or;
    assert kpt[i] == BootEntry(base, i);
    if i < 3 { OrAttribute(base + PAGE * (i + 1), 3); }
  }

  lemma WiredPeriph(kpt: seq<nat>, base: nat, i: nat)
    requires Wired(kpt, base) && i < 512
    ensures kpt[512 + i] == i * BLOCK + 0x405
  {
    hide Or;
    assert kpt[512 + i] == BootEntry(base, 512 + i);
    PeriphEntryIs(i);
  }

  lemma WiredRam(kpt: seq<nat>, base: nat, i: nat)
    requires Wired(kpt, base) && i < 512
    ensures var va := GIGA + i * BLOCK;
            kpt[1024 + i] == if ECAM <= va < ECAM_END then va - ECAM + PCIE_PHYS_BASE + 0x405 else va + 0x409
  {
    hide Or;
    assert kpt[1024 + i] == BootEntry(base, 1024 + i);
    RamEntryIs(i);
  }

  lemma WiredDynamic(kpt: seq<nat>, base: nat, i: nat)
    requires Wired(kpt, base) && i < 512
    ensures kpt[1536 + i] == if i < 4 then base + PAGE * (4 + i) + 3 else 0
  {
    hide Or;
    assert kpt[1536 + i] == BootEntry(base, 1536 + i);
    if i < 4 { OrAttribute(base + PAGE * (4 + i), 3); }
  }

  lemma ReadableAt(base: nat, t: nat, x: nat)
    requires 512 * t + x < ENTRIES
    ensures var pa := base + PAGE * t + 8 * x; Readable(base, pa) && (pa - base) / 8 == 512 * t + x
  {
  }

  /** Level 1 finds the level-2 table of each of the three gigabytes, and nothing above. */
  lemma Level1(kpt: seq<nat>, base: nat, va: nat, i: nat)
    requires Wired(kpt, base) && va < VA_LIMIT && i == va / GIGA % 512
    ensures Walk(kpt, base, va) == if i < 3 then WalkLevel2(kpt, base, va, base + PAGE * (i + 1)) else Fault
  {
    hide WalkLevel2, NextTable, Leaf, Readable;
    WiredLevel1(kpt, base, i);
    ReadableAt(base, 0, i);
    hide Wired;
    if i < 3 { TableEntry(base + PAGE * (i + 1)); }
  }

  lemma Level2Read(kpt: seq<nat>, base: nat, va: nat, t: nat, x: nat)
    requires |kpt| == ENTRIES && t < 4 && x == va / BLOCK % 512
    ensures var e := kpt[512 * t + x];
            WalkLevel2(kpt, base, va, base + PAGE * t) ==
              if IsBlock(e) then Leaf(e, BLOCK, va)
              else if IsTable(e) then WalkLevel3(kpt, base, va, NextTable(e)) else Fault
  {
    hide Leaf, WalkLevel3, NextTable, Readable, IsBlock, IsTable;
    ReadableAt(base, t, x);
  }

  lemma Level3Read(kpt: seq<nat>, base: nat, va: nat, t: nat, x: nat)
    requires |kpt| == ENTRIES && t < 8 && x == va / PAGE % 512
    ensures var e := kpt[512 * t + x];
            WalkLevel3(kpt, base, va, base + PAGE * t) == if IsTable(e) then Leaf(e, PAGE, va) else Fault
  {
    hide Leaf, Readable, IsTable;
    ReadableAt(base, t, x);
  }

  // ---------------------------------------------------------------------------------------
  // The boot map, exactly
  // ---------------------------------------------------------------------------------------

  /** Where boot intends a virtual address to go. */
  function BootMap(va: nat): Translation {
    if ECAM <= va < ECAM_END then To(PCIE_PHYS_BASE + (va - ECAM))
    else if va < 2 * GIGA then To(va)
    else Fault
  }

  /** The indices of an address below 3 GB, and its offset in a 2 MB block. */
  lemma Indices(va: nat, g: nat, i: nat, off: nat)
    requires g < 3 && i < 512 && off < BLOCK && va == g * GIGA + i * BLOCK + off
    ensures va / GIGA % 512 == g && va / BLOCK % 512 == i && va % BLOCK == off
  {
    assert GIGA == 512 * BLOCK;
    assert va == (512 * g + i) * BLOCK + off;
    assert va / BLOCK == 512 * g + i;
    assert va / GIGA == g;
  }

  lemma WalkPeriph(kpt: seq<nat>, base: nat, va: nat, i: nat, off: nat)
    requires Wired(kpt, base) && i < 512 && off < BLOCK && va == i * BLOCK + off
    ensures Walk(kpt, base, va) == To(va)
  {
    hide Walk, WalkLevel2, BootEntry, Leaf, IsBlock, IsTable, NextTable;
    Indices(va, 0, i, off);
    Level1(kpt, base, va, 0);
    Level2Read(kpt, base, va, 1, i);
    WiredPeriph(kpt, base, i);
    BlockEntry(i * BLOCK, 0x405, va);
  }

  lemma WalkRam(kpt: seq<nat>, base: nat, va: nat, i: nat, off: nat)
    requires Wired(kpt, base) && i < 512 && off < BLOCK && va == GIGA + i * BLOCK + off
    ensures Walk(kpt, base, va) == BootMap(va)
  {
    hide Walk, WalkLevel2, BootEntry, Leaf, IsBlock, IsTable, NextTable;
    Indices(va, 1, i, off);
    Level1(kpt, base, va, 1);
    Level2Read(kpt, base, va, 2, i);
    WiredRam(kpt, base, i);
    var block := GIGA + i * BLOCK;
    if ECAM <= block < ECAM_END {
      assert block - ECAM + PCIE_PHYS_BASE == (i - 384 + 504) * BLOCK;
      BlockEntry(block - ECAM + PCIE_PHYS_BASE, 0x405, va);
    } else {
      assert block == (512 + i) * BLOCK;
      BlockEntry(block, 0x409, va);
    }
  }

  /** The level-3 entry that decides a dynamic address. */
  function PoolSlot(va: nat): nat
    requires va >= POOL
  {
    L3_POOL + (va - POOL) / PAGE
  }

  lemma PoolIndices(va: nat, s: nat)
    requires POOL <= va < POOL_END && s == (va - POOL) / PAGE
    ensures va / GIGA % 512 == 2 && va / BLOCK % 512 == s / 512 < 4 && va / PAGE % 512 == s % 512
  {
    var off := va % PAGE;
    assert va == POOL + s * PAGE + off;
    assert va / PAGE == 0x80000 + s;
    assert va / BLOCK == 1024 + s / 512;
  }

  lemma WalkPool(kpt: seq<nat>, base: nat, va: nat)
    requires Wired(kpt, base) && POOL <= va < POOL_END
    ensures PoolSlot(va) < ENTRIES
    ensures var e := kpt[PoolSlot(va)]; Walk(kpt, base, va) == if IsTable(e) then Leaf(e, PAGE, va) else Fault
  {
    hide Walk, WalkLevel2, WalkLevel3, BootEntry, Leaf, IsBlock, IsTable, NextTable;
    var s := (va - POOL) / PAGE;
    PoolIndices(va, s);
    var i := s / 512;
    Level1(kpt, base, va, 2);
    Level2Read(kpt, base, va, 3, i);
    WiredDynamic(kpt, base, i);
    TableNotBlock(base + PAGE * (4 + i));
    Level3Read(kpt, base, va, 4 + i, s % 512);
  }

  lemma TableNotBlock(p: nat)
    requires p % PAGE == 0 && p < PA_LIMIT
    ensures IsTable(p + 3) && !IsBlock(p + 3) && NextTable(p + 3) == p
  {
    TableEntry(p);
  }

  lemma WalkBeyond(kpt: seq<nat>, base: nat, va: nat)
    requires Wired(kpt, base) && POOL_END <= va < VA_LIMIT
    ensures Walk(kpt, base, va) == Fault
  {
    assert |kpt| == ENTRIES;
    hide Walk, WalkLevel2, BootEntry, Leaf, NextTable, Wired;
    var g, i := va / GIGA, va / BLOCK % 512;
    IndicesBeyond(va);
    Level1(kpt, base, va, g);
    if g == 2 {
      Level2Read(kpt, base, va, 3, i);
      WiredDynamic(kpt, base, i);
    }
  }

  lemma IndicesBeyond(va: nat)
    requires POOL_END <= va < VA_LIMIT
    ensures 2 <= va / GIGA == va / GIGA % 512 && (va / GIGA == 2 ==> 4 <= va / BLOCK % 512 < 512)
  {
    if va / GIGA == 2 { assert va / BLOCK == 1024 + va / BLOCK % 512; }
  }

  /** Through any tables with the boot wiring: below 2 GB exactly the boot map, above the pool
      nothing, in the pool whatever its level-3 entry says. */
  lemma WalkWired(kpt: seq<nat>, base: nat, va: nat)
    requires Wired(kpt, base)
    ensures !(POOL <= va < POOL_END) ==> Walk(kpt, base, va) == BootMap(va)
  {
    hide Walk, BootEntry;
    if va < GIGA {
      WalkPeriph(kpt, base, va, va / BLOCK, va % BLOCK);
    } else if va < 2 * GIGA {
      WalkRam(kpt, base, va, (va - GIGA) / BLOCK, (va - GIGA) % BLOCK);
    } else if POOL_END <= va < VA_LIMIT {
      WalkBeyond(kpt, base, va);
    } else if va >= VA_LIMIT {
      WalkAbove(kpt, base, va);
    }
  }

  lemma WalkAbove(kpt: seq<nat>, base: nat, va: nat)
    requires |kpt| == ENTRIES && va >= VA_LIMIT
    ensures Walk(kpt, base, va) == Fault
  {
  }

  /** After boot: identity below 2 GB outside the ECAM window, the PCIe controller inside it, and
      a fault everywhere else. */
  lemma BootMapExact(kpt: seq<nat>, base: nat, va: nat)
    requires Booted(kpt, base)
    ensures Walk(kpt, base, va) == BootMap(va)
  {
    hide Walk, BootEntry;
    WalkWired(kpt, base, va);
    if POOL <= va < POOL_END { WalkPool(kpt, base, va); }
  }
}

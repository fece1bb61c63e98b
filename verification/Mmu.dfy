/** The code that fills and edits the page tables, in place. */
module Mmu {
  import opened Machine
  import opened Bits
  import opened PageTable
  import opened Ioremap

  class Mmu {
    /** The eight tables, one after the other, at physical address `base`. */
    const kpt: array<nat>
    const base: nat
    var vmallocPtr: nat

    ghost function Model(): Space
      reads this, kpt
    {
      Space(kpt[..], vmallocPtr)
    }

    constructor (memory: array<nat>, address: nat)
      requires memory.Length == ENTRIES
      ensures kpt == memory && base == address && vmallocPtr == POOL
    {
      kpt, base, vmallocPtr := memory, address, POOL;
    }

    /** `mmu_init`: whatever the memory held, afterwards it is the boot map. */
    method Init()
      requires kpt.Length == ENTRIES && TableBase(base)
      modifies kpt
      ensures Booted(kpt[..], base)
      ensures forall va: nat :: Walk(kpt[..], base, va) == BootMap(va)
    {
      hide Or, Walk, BootMap;
      for i := 0 to ENTRIES
        invariant forall j | 0 <= j < i :: kpt[j] == 0
      {
        kpt[i] := 0;
      }
      kpt[0] := Or(base + PAGE * 1, 3);
      kpt[1] := Or(base + PAGE * 2, 3);
      kpt[2] := Or(base + PAGE * 3, 3);
      FillPeripherals();
      FillRam();
      for i := 0 to 4
        invariant forall j | 0 <= j < L2_DYNAMIC + i :: kpt[j] == BootEntry(base, j)
        invariant forall j | L2_DYNAMIC + i <= j < ENTRIES :: kpt[j] == 0
      {
        kpt[L2_DYNAMIC + i] := Or(base + PAGE * (4 + i), 3);
      }
      forall va: nat ensures Walk(kpt[..], base, va) == BootMap(va) {
        BootMapExact(kpt[..], base, va);
      }
    }

    /** Identity blocks for the first gigabyte. */
    method FillPeripherals()
      requires kpt.Length == ENTRIES
      modifies kpt
      ensures forall j | 0 <= j < ENTRIES ::
                kpt[j] == if L2_PERIPH <= j < L2_RAM then PeriphEntry(j - L2_PERIPH) else old(kpt[j])
    {
      hide Or;
      for i := 0 to 512
        invariant forall j | 0 <= j < ENTRIES ::
                    kpt[j] == if L2_PERIPH <= j < L2_PERIPH + i then PeriphEntry(j - L2_PERIPH) else old(kpt[j])
      {
        kpt[L2_PERIPH + i] := Or(Or(i * BLOCK, 0x405), 0);
      }
    }

    /** The second gigabyte: RAM mapped to itself, except the ECAM window. */
    method FillRam()
      requires kpt.Length == ENTRIES
      modifies kpt
      ensures forall j | 0 <= j < ENTRIES ::
                kpt[j] == if L2_RAM <= j < L2_DYNAMIC then RamEntry(j - L2_RAM) else old(kpt[j])
    {
      hide Or;
      for i := 0 to 512
        invariant forall j | 0 <= j < ENTRIES ::
                    kpt[j] == if L2_RAM <= j < L2_RAM + i then RamEntry(j - L2_RAM) else old(kpt[j])
      {
        var virtualAddr := GIGA + i * BLOCK;
        if ECAM <= virtualAddr < ECAM_END {
          kpt[L2_RAM + i] := Or(Or(PCIE_PHYS_BASE + (virtualAddr - ECAM), 0x405), 0);
        } else {
          kpt[L2_RAM + i] := Or(Or(virtualAddr, 0x401), 8);
        }
      }
    }

    /** `mmu_map_region`: one level-3 entry per page. */
    method MapRegion(va: nat, pa: nat, size: nat, flags: nat)
      requires kpt.Length == ENTRIES && size <= U64 - PAGE
      modifies kpt
      ensures kpt[..] == MapPages(old(kpt[..]), va, pa - pa % PAGE, flags, (size + PAGE - 1) / PAGE)
    {
      hide PageEntry, MapPages;
      var v: nat, p: nat, mapped: nat := va, pa - pa % PAGE, 0;
      ghost var n: nat := (size + PAGE - 1) / PAGE;
      ghost var total := n;
      while mapped < size
        invariant mapped + n * PAGE == total * PAGE
        invariant MapPages(kpt[..], v, p, flags, n) == MapPages(old(kpt[..]), va, pa - pa % PAGE, flags, total)
        decreases n
      {
        var l2, l3 := v / BLOCK % 512, v / PAGE % 512;
        ghost var before := kpt[..];
        MapPagesStep(before, v, p, flags, n);
        if l2 < 4 {
          kpt[L3_POOL + 512 * l2 + l3] := PageEntry(p, flags);
        }
        assert kpt[..] == MapPage(before, v, p, flags);
        v, p, mapped, n := (v + PAGE) % U64, (p + PAGE) % U64, mapped + PAGE, n - 1;
      }
      MapNoPages(kpt[..], v, p, flags);
    }

    /** `vmalloc`: reserves whole pages of address space. Short of wrap-around it fails exactly when
        the pool has too few left, and what it hands out was never handed out before. */
    method Reserve(size: nat) returns (ptr: nat)
      modifies this
      ensures (vmallocPtr, ptr) == Vmalloc(old(vmallocPtr), size)
      ensures InPool(old(vmallocPtr)) && size + PAGE - 1 < U64 && old(vmallocPtr) + PageAlign(size) < U64 ==>
                && InPool(vmallocPtr)
                && (if POOL_END - old(vmallocPtr) < size then ptr == NULL && vmallocPtr == old(vmallocPtr)
                    else ptr % PAGE == 0 && old(vmallocPtr) <= ptr && ptr + size <= vmallocPtr < ptr + size + PAGE)
    {
      ghost var next := vmallocPtr;
      if InPool(next) && size + PAGE - 1 < U64 && next + PageAlign(size) < U64 {
        VmallocReserves(next, size);
      }
      hide InPool, PageAlign;
      var aligned := PageAlign(size);
      if (vmallocPtr + aligned) % U64 > POOL_END { return NULL; }
      ptr := vmallocPtr;
      vmallocPtr := (vmallocPtr + aligned) % U64;
    }

    /** `ioremap`. */
    method Remap(phys: nat, size: nat) returns (ptr: nat)
      requires kpt.Length == ENTRIES
      modifies this, kpt
      ensures Outcome(Model(), ptr) == Ioremap.Remap(old(Model()), phys, size)
    {
      hide PageAlign, MapPages, Vmalloc;
      if size == 0 { return NULL; }
      var physPage := phys - phys % PAGE;
      var offset := phys % PAGE;
      var mapSize := PageAlign(offset + size);
      var virtPage := Reserve(mapSize);
      if virtPage == NULL { return NULL; }
      PageAlignShape(offset + size);
      MapRegion(virtPage, physPage, mapSize, PROT_DEVICE_PAGE);
      return virtPage + offset;
    }
  }
}

/** PCIe configuration space, reached through the ECAM window of the boot map. */
module Pcie {
  import opened Bits
  import opened PageTable

  /** Offset, in the ECAM window, of the 32-bit word of a configuration register. */
  function ConfigOffset(bus: nat, dev: nat, func: nat, reg: nat): nat {
    Or(Or(Or(bus % 256 * 0x10_0000, dev % 32 * 0x8000), func % 8 * 0x1000), reg % 0x1000 / 4 * 4)
  }

  lemma Powers()
    ensures Pow2(12) == 0x1000 && Pow2(15) == 0x8000 && Pow2(20) == 0x10_0000
  {
    assert Pow2(12) == 0x1000;
    assert Pow2(15) == 0x8000;
  }

  lemma ConfigOffsetIs(bus: nat, dev: nat, func: nat, reg: nat)
    ensures ConfigOffset(bus, dev, func, reg)
         == bus % 256 * 0x10_0000 + dev % 32 * 0x8000 + func % 8 * 0x1000 + reg % 0x1000 / 4 * 4
  {
    hide Or, Pow2;
    Powers();
    var b, d, f, r := bus % 256, dev % 32, func % 8, reg % 0x1000 / 4 * 4;
    OrBelow(b, 20, 0, d * 0x8000);
    OrZero(d * 0x8000);
    OrBelow(b * 32 + d, 15, 0, f * 0x1000);
    OrZero(f * 0x1000);
    OrBelow((b * 32 + d) * 8 + f, 12, 0, r);
    OrZero(r);
  }

  /** A configuration access reaches the PCIe controller's register exactly for buses below 128:
      the window is 128 MB and the buses above it fall onto plain memory. */
  lemma ConfigReachesController(kpt: seq<nat>, base: nat, bus: nat, dev: nat, func: nat, reg: nat)
    requires Booted(kpt, base)
    ensures var offset := ConfigOffset(bus, dev, func, reg);
            Walk(kpt, base, ECAM + offset) == To(PCIE_PHYS_BASE + offset) <==> bus % 256 < 128
  {
    hide Walk, ConfigOffset, Booted;
    ConfigOffsetIs(bus, dev, func, reg);
    ConfigTarget(kpt, base, bus, dev, func, reg);
  }

  /** Buses from 128 on reach ordinary memory behind the window: bus 128 its first bytes. */
  lemma BusBeyondWindow(kpt: seq<nat>, base: nat)
    requires Booted(kpt, base)
    ensures Walk(kpt, base, ECAM + ConfigOffset(128, 0, 0, 0)) == To(0x7800_0000)
  {
    hide Walk, ConfigOffset, Booted, Or;
    ConfigOffsetIs(128, 0, 0, 0);
    ConfigTarget(kpt, base, 128, 0, 0, 0);
  }

  /** Different functions or words never reach the same physical address, on any of the 256 buses. */
  lemma ConfigInjective(kpt: seq<nat>, base: nat,
                        bus: nat, dev: nat, func: nat, reg: nat, bus': nat, dev': nat, func': nat, reg': nat)
    requires Booted(kpt, base)
    requires bus < 256 && dev < 32 && func < 8 && reg < 0x1000
    requires bus' < 256 && dev' < 32 && func' < 8 && reg' < 0x1000
    requires Walk(kpt, base, ECAM + ConfigOffset(bus, dev, func, reg))
          == Walk(kpt, base, ECAM + ConfigOffset(bus', dev', func', reg'))
    ensures bus == bus' && dev == dev' && func == func' && reg / 4 == reg' / 4
  {
    hide ConfigOffset, Walk, Booted;
    ConfigTarget(kpt, base, bus, dev, func, reg);
    ConfigTarget(kpt, base, bus', dev', func', reg');
    OffsetsInjective(bus, dev, func, reg, bus', dev', func', reg');
  }

  /** Every configuration offset is mapped: in the window to the controller, behind it to itself. */
  lemma ConfigTarget(kpt: seq<nat>, base: nat, bus: nat, dev: nat, func: nat, reg: nat)
    requires Booted(kpt, base)
    ensures var o := ConfigOffset(bus, dev, func, reg);
            Walk(kpt, base, ECAM + o) == To(if ECAM + o < ECAM_END then PCIE_PHYS_BASE + o else ECAM + o)
  {
    hide Walk, ConfigOffset, Booted;
    ConfigOffsetIs(bus, dev, func, reg);
    BootMapExact(kpt, base, ECAM + ConfigOffset(bus, dev, func, reg));
  }

  lemma OffsetsInjective(bus: nat, dev: nat, func: nat, reg: nat, bus': nat, dev': nat, func': nat, reg': nat)
    requires bus < 256 && dev < 32 && func < 8 && reg < 0x1000
    requires bus' < 256 && dev' < 32 && func' < 8 && reg' < 0x1000
    requires ConfigOffset(bus, dev, func, reg) == ConfigOffset(bus', dev', func', reg')
    ensures bus == bus' && dev == dev' && func == func' && reg / 4 == reg' / 4
  {
    hide ConfigOffset;
    ConfigFields(bus, dev, func, reg);
    ConfigFields(bus', dev', func', reg');
  }

  lemma ConfigFields(bus: nat, dev: nat, func: nat, reg: nat)
    requires bus < 256 && dev < 32 && func < 8 && reg < 0x1000
    ensures var o := ConfigOffset(bus, dev, func, reg);
            && bus == o / 0x10_0000 && dev == o / 0x8000 % 32 && func == o / 0x1000 % 8 && reg / 4 == o % 0x1000 / 4
  {
    hide ConfigOffset;
    ConfigOffsetIs(bus, dev, func, reg);
    Fields(bus, dev, func, reg / 4 * 4, ConfigOffset(bus, dev, func, reg));
  }

  /** The four fields can be read back from the offset. */
  lemma Fields(b: nat, d: nat, f: nat, r: nat, o: nat)
    requires d < 32 && f < 8 && r < 0x1000 && o == b * 0x10_0000 + d * 0x8000 + f * 0x1000 + r
    ensures b == o / 0x10_0000 && d == o / 0x8000 % 32 && f == o / 0x1000 % 8 && r == o % 0x1000
  {
    assert o == ((b * 32 + d) * 8 + f) * 0x1000 + r;
    assert o / 0x1000 == (b * 32 + d) * 8 + f;
    assert o / 0x8000 == b * 32 + d;
  }
}

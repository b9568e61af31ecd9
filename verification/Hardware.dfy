/** The tables as the processor reads them (Intel SDM Vol. 3A, sections 4.5.4, 4.6 and 4.9): an
    independent walk in bit positions, and the rights it gives to each address after the boot. */
module Hardware {
  import opened Words
  import opened PageTables
  import opened Mappings
  import opened BootMapping
  import KernelImage

  /** Where an access goes, whether it may write, and the caching bits of the entry that maps it. */
  datatype Reached = Reached(phys: nat, writable: bool, writeThrough: bool, cacheDisabled: bool)

  // Bit 0 is P, bit 1 R/W, bit 3 PWT, bit 4 PCD, bit 7 PS; bits 51 to 12 hold the address.
  function Address(e: u64): u64 { e % 0x10_0000_0000_0000 / 4096 * 4096 }

  predicate Writes(e: u64) { e / 2 % 2 == 1 }

  function Reach(phys: nat, writable: bool, e: u64): Reached {
    Reached(phys, writable && Writes(e), e / 8 % 2 == 1, e / 16 % 2 == 1)
  }

  /** Four-level paging: an address may be written when the R/W bit is set in every entry used. */
  function HardwareWalk(mem: Memory, cr3: u64, v: u64): Option<Reached> {
    var e4 := ReadEntry(mem, Address(cr3), v / 0x80_0000_0000 % 512);
    if e4 % 2 == 0 then None else
    var e3 := ReadEntry(mem, Address(e4), v / 0x4000_0000 % 512);
    if e3 % 2 == 0 then None else
    var w3 := Writes(e4);
    if e3 / 128 % 2 == 1 then
      Some(Reach(e3 % 0x10_0000_0000_0000 / 0x4000_0000 * 0x4000_0000 + v % 0x4000_0000, w3, e3))
    else
    var e2 := ReadEntry(mem, Address(e3), v / 0x20_0000 % 512);
    if e2 % 2 == 0 then None else
    var w2 := w3 && Writes(e3);
    if e2 / 128 % 2 == 1 then
      Some(Reach(e2 % 0x10_0000_0000_0000 / 0x20_0000 * 0x20_0000 + v % 0x20_0000, w2, e2))
    else
    var e1 := ReadEntry(mem, Address(e2), v / 4096 % 512);
    if e1 % 2 == 0 then None else
    Some(Reach(Address(e1) + v % 4096, w2 && Writes(e2), e1))
  }

  /** Entries that use no bit above the address field. */
  ghost predicate PlainEntries(mem: Memory) {
    forall t <- mem :: forall e <- mem[t] :: e < 0x10_0000_0000_0000
  }

  /** On such tables, whatever else they hold, the diagnostic's walk reaches what the processor reaches,
      large pages included. */
  lemma DiagnosticIsHardware(mem: Memory, root: u64, v: u64)
    requires PlainEntries(mem) && root % 4096 == 0 && root < 0x10_0000_0000_0000
    ensures HardwareWalk(mem, root, v).Some? <==> Walk(mem, root, v).Some?
    ensures Walk(mem, root, v).Some? ==>
              var h, a := HardwareWalk(mem, root, v).value, Walk(mem, root, v).value;
              && h.phys == a.phys && (h.writable ==> a.flags / 2 % 2 == 1)
              && (h.writeThrough <==> a.flags / 8 % 2 == 1) && (h.cacheDisabled <==> a.flags / 16 % 2 == 1)
  {
    hide Address;
    PlainEntry(mem, root, v / 0x80_0000_0000 % 512);
    AddressOf(root);
    var e4 := ReadEntry(mem, root, Pml4Index(v));
    if e4 % 2 == 1 {
      PlainEntry(mem, FrameOf(e4), v / 0x4000_0000 % 512);
      var e3 := ReadEntry(mem, FrameOf(e4), PdptIndex(v));
      if e3 % 2 == 1 && e3 / 128 % 2 == 0 {
        PlainEntry(mem, FrameOf(e3), v / 0x20_0000 % 512);
        var e2 := ReadEntry(mem, FrameOf(e3), PdIndex(v));
        if e2 % 2 == 1 && e2 / 128 % 2 == 0 {
          PlainEntry(mem, FrameOf(e2), v / 4096 % 512);
        }
      }
    }
  }

  lemma PlainEntry(mem: Memory, table: u64, i: nat)
    requires PlainEntries(mem)
    ensures var e := ReadEntry(mem, table, i);
            && e < 0x10_0000_0000_0000 && Address(e) == FrameOf(e)
            && e % 4096 / 2 % 2 == e / 2 % 2 && e % 4096 / 8 % 2 == e / 8 % 2 && e % 4096 / 16 % 2 == e / 16 % 2
            && e % 0x10_0000_0000_0000 / 0x4000_0000 * 0x4000_0000 == e - e % 0x4000_0000
            && e % 0x10_0000_0000_0000 / 0x20_0000 * 0x20_0000 == e - e % 0x20_0000
  {
    PlainWord(mem, table, i);
    var e := ReadEntry(mem, table, i);
    hide ReadEntry, PlainEntries, Address;
    AddressOf(e);
    FlagsOf(e);
    LargeFrames(e);
  }

  lemma PlainWord(mem: Memory, table: u64, i: nat)
    requires PlainEntries(mem)
    ensures ReadEntry(mem, table, i) < 0x10_0000_0000_0000
  {
    if table in mem && i < |mem[table]| {
      assert mem[table][i] in mem[table];
    }
  }

  lemma FlagsOf(e: u64)
    ensures e % 4096 / 2 % 2 == e / 2 % 2 && e % 4096 / 8 % 2 == e / 8 % 2 && e % 4096 / 16 % 2 == e / 16 % 2
  {
    hide Address;
    Bits(e - e % 4096, e % 4096);
  }

  lemma LargeFrames(e: u64)
    requires e < 0x10_0000_0000_0000
    ensures e % 0x10_0000_0000_0000 / 0x4000_0000 * 0x4000_0000 == e - e % 0x4000_0000
    ensures e % 0x10_0000_0000_0000 / 0x20_0000 * 0x20_0000 == e - e % 0x20_0000
  {
  }

  lemma AddressOf(e: u64)
    requires e < 0x10_0000_0000_0000
    ensures Address(e) == FrameOf(e)
  {
  }

  // ---------------------------------------------------------------------
  // The loader's tables
  // ---------------------------------------------------------------------

  /** Bits of an entry whose frame shares none with its flags. */
  lemma Bits(frame: u64, flags: nat)
    requires frame % 4096 == 0 && flags < 4096 && frame + flags < TWO_64
    ensures var e: u64 := frame + flags;
            && Address(e) == frame % 0x10_0000_0000_0000 && e % 2 == flags % 2 && e / 2 % 2 == flags / 2 % 2
            && e / 8 % 2 == flags / 8 % 2 && e / 16 % 2 == flags / 16 % 2 && e / 128 % 2 == flags / 128 % 2
  {
    var q := frame / 4096;
    assert frame == 4096 * q;
    Drop(1, q, flags);
    Drop(2, q, flags);
    Drop(8, q, flags);
    Drop(16, q, flags);
    Drop(128, q, flags);
    AddressOfSum(q, flags);
  }

  lemma Drop(d: nat, q: nat, flags: nat)
    requires d == 1 || d == 2 || d == 8 || d == 16 || d == 128
    ensures (4096 * q + flags) / d % 2 == flags / d % 2
  {
    var h := 2048 / d * q;
    assert 4096 * q + flags == d * (2 * h) + flags;
    assert (4096 * q + flags) / d == 2 * h + flags / d;
    DropEven(h, flags / d);
  }

  lemma AddressOfSum(q: nat, flags: nat)
    requires flags < 4096 && 4096 * q + flags < TWO_64
    ensures Address(4096 * q + flags) == 4096 * q % 0x10_0000_0000_0000
  {
    var h, x := q / 0x100_0000_0000, q % 0x100_0000_0000;
    assert 4096 * q + flags == 0x10_0000_0000_0000 * h + (4096 * x + flags);
    assert (4096 * q + flags) % 0x10_0000_0000_0000 == 4096 * x + flags;
    assert (4096 * x + flags) / 4096 == x;
  }

  /** A present entry above the leaves leads to its table, permits writing and is no large page. */
  lemma TableBits(mem: Memory, dir: Directory, spec: Translation, n: Node, i: nat)
    requires Tree(mem, dir, spec) && n in dir && n.level >= 2 && i < 512
    ensures dir[n] in mem && |mem[dir[n]]| == 512 && Address(dir[n]) == dir[n]
    ensures var e := ReadEntry(mem, dir[n], i);
            && (e % 2 == 1 <==> Child(n, i) in dir)
            && (e % 2 == 1 ==> Address(e) == dir[Child(n, i)] && Writes(e) && e / 128 % 2 == 0)
  {
    TableEntryRead(mem, dir, spec, n, i);
    hide Tree, Address, Child, ReadEntry;
    Bits(dir[n], 0);
    if Child(n, i) in dir {
      LinkBits(dir[Child(n, i)]);
    }
  }

  lemma LinkBits(page: u64)
    requires page % 4096 == 0 && page < 0x1_0000_0000_0000
    ensures var e: u64 := page + PTE_P + PTE_W;
            e % 2 == 1 && Address(e) == page && Writes(e) && e / 128 % 2 == 0
  {
    Bits(page, 3);
  }

  lemma TableEntryRead(mem: Memory, dir: Directory, spec: Translation, n: Node, i: nat)
    requires Tree(mem, dir, spec) && n in dir && n.level >= 2 && i < 512
    ensures dir[n] in mem && |mem[dir[n]]| == 512 && ReadEntry(mem, dir[n], i) == TableEntry(dir, n, i)
    ensures forall m <- dir :: dir[m] % 4096 == 0 && dir[m] < 0x1_0000_0000_0000
  {
    assert mem[dir[n]][i] == TableEntry(dir, n, i);
  }

  lemma LeafBits(mem: Memory, dir: Directory, spec: Translation, k: nat)
    requires Tree(mem, dir, spec) && PtNode(k) in dir
    ensures var e := ReadEntry(mem, dir[PtNode(k)], k % 512);
            && (e % 2 == 1 <==> k in spec)
            && (k in spec ==>
                  && Address(e) == spec[k].frame % 0x10_0000_0000_0000
                  && (Writes(e) <==> spec[k].flags / 2 % 2 == 1)
                  && e / 8 % 2 == spec[k].flags / 8 % 2 && e / 16 % 2 == spec[k].flags / 16 % 2)
  {
    hide Tree, PtNode, ReadEntry;
    LeafEntryRead(mem, dir, spec, k);
    if k in spec {
      Bits(spec[k].frame, spec[k].flags);
    }
  }

  lemma PathKnown(mem: Memory, dir: Directory, spec: Translation, k: nat)
    requires Tree(mem, dir, spec)
    ensures ROOT in dir && (k in spec ==> PdptNode(k) in dir && PdNode(k) in dir && PtNode(k) in dir)
    ensures PdptNode(k).level == 3 && PdNode(k).level == 2
  {
    if k in spec {
      ShiftsCompose(k);
      assert Parent(PtNode(k)) == PdNode(k) && Parent(PdNode(k)) == PdptNode(k);
    }
  }

  /** In every reachable state the processor reaches what the translation says, in its 52 address
      bits; whether it may write, and how it caches, are bits 1, 3 and 4 of the leaf's flags. */
  lemma HardwareAgrees(mem: Memory, dir: Directory, spec: Translation, v: u64)
    requires Tree(mem, dir, spec)
    ensures HardwareWalk(mem, dir[ROOT], v) ==
            if PageNo(v) in spec
            then var leaf := spec[PageNo(v)];
                 Some(Reached(leaf.frame % 0x10_0000_0000_0000 + v % 4096, leaf.flags / 2 % 2 == 1,
                              leaf.flags / 8 % 2 == 1, leaf.flags / 16 % 2 == 1))
            else None
  {
    hide Tree, ReadEntry, Address, Writes, Child, Parent, PageNo, PdptNode, PdNode, PtNode;
    var k := PageNo(v);
    PathKnown(mem, dir, spec, k);
    IndicesLeadToPage(v);
    TableBits(mem, dir, spec, ROOT, Pml4Index(v));
    if PdptNode(k) in dir {
      TableBits(mem, dir, spec, PdptNode(k), PdptIndex(v));
      if PdNode(k) in dir {
        TableBits(mem, dir, spec, PdNode(k), PdIndex(v));
        if PtNode(k) in dir {
          LeafBits(mem, dir, spec, k);
        }
      }
    }
  }

  /** So what is stated of the loader's own walk holds of the processor's. */
  lemma WalkIsHardware(mem: Memory, dir: Directory, spec: Translation, v: u64)
    requires Tree(mem, dir, spec)
    ensures HardwareWalk(mem, dir[ROOT], v) ==
            match Walk(mem, dir[ROOT], v)
            case None => None
            case Some(a) => Some(Reached(a.phys % 0x10_0000_0000_0000, a.flags / 2 % 2 == 1,
                                         a.flags / 8 % 2 == 1, a.flags / 16 % 2 == 1))
  {
    hide Tree, Walk, HardwareWalk, PageNo;
    HardwareAgrees(mem, dir, spec, v);
    WalkRefinesTranslation(mem, dir, spec, v);
    if PageNo(v) in spec {
      LeafAligned(mem, dir, spec, PageNo(v));
      var q := spec[PageNo(v)].frame / 4096;
      var h, x := q / 0x100_0000_0000, q % 0x100_0000_0000;
      assert spec[PageNo(v)].frame == 0x10_0000_0000_0000 * h + 4096 * x;
      assert (0x10_0000_0000_0000 * h + (4096 * x + v % 4096)) % 0x10_0000_0000_0000 == 4096 * x + v % 4096;
    }
  }

  lemma LeafAligned(mem: Memory, dir: Directory, spec: Translation, k: nat)
    requires Tree(mem, dir, spec) && k in spec
    ensures spec[k].frame % 4096 == 0
  {
  }

  /** The flags the mapping calls use: bits 0 and 1, and for devices bits 3 and 4 as well. */
  lemma FlagBits()
    ensures RW % 2 == 1 && RW / 2 % 2 == 1 && RW / 8 % 2 == 0 && RW / 16 % 2 == 0
    ensures var f := RW + UNCACHED; f % 2 == 1 && f / 2 % 2 == 1 && f / 8 % 2 == 1 && f / 16 % 2 == 1
  {
  }

  /** After a mapping call, an address on its page i reaches frame i of the call and may be written,
      and is cached unless the call was for a device. */
  lemma CallAccess(mem: Memory, dir: Directory, before: Translation, virt: u64, phys: u64, n: nat, i: nat, v: u64,
                   device: bool)
    requires Tree(mem, dir, MapPages(before, virt, phys, n, if device then RW + UNCACHED else RW))
    requires i < n <= PAGES && PageNo(v) == PageAt(virt, i) && phys + 4096 * i < 0x10_0000_0000_0000
    ensures HardwareWalk(mem, dir[ROOT], v) == Some(Reached(phys + 4096 * i + v % 4096, true, device, device))
  {
    hide Tree, HardwareWalk, PageNo, PageAt;
    HardwareAgrees(mem, dir, MapPages(before, virt, phys, n, if device then RW + UNCACHED else RW), v);
    MapPagesInside(before, virt, phys, n, if device then RW + UNCACHED else RW, i);
    FlagBits();
  }

  // ---------------------------------------------------------------------
  // After the boot sequence
  // ---------------------------------------------------------------------

  /** Every mapped address may be written; exactly the device addresses are uncached, but for a
      device page that holds a remembered table. */
  lemma BootAccess(mem: Memory, dir: Directory, plan: Plan, t1: seq<u64>, t2: seq<u64>, t3: seq<u64>, v: u64)
    requires Addressable(plan) && t1 <= t2 <= t3 && forall t <- t3 :: TablePage(t)
    requires Tree(mem, dir, BootTranslation(plan, t1, t2, t3))
    ensures var h, k := HardwareWalk(mem, dir[ROOT], v), PageNo(v);
            && (h.Some? ==> h.value.writable && (h.value.writeThrough <==> h.value.cacheDisabled))
            && (h.Some? && h.value.cacheDisabled <==> IsDevice(plan, k) && !IsTable(t3, k))
            && (h.Some? <==> IsTable(t3, k) || MappedAnyway(plan, k))
  {
    hide Tree, HardwareWalk, PageNo, BootTranslation, IsDevice, IsTable, InRanges, PageAt, RangePages, AlignDown;
    HardwareAgrees(mem, dir, BootTranslation(plan, t1, t2, t3), v);
    BootTranslationMeaning(plan, t1, t2, t3, PageNo(v));
    FlagBits();
  }

  /** The local APIC, the I/O APIC and the framebuffer, byte by byte. */
  lemma DevicesReached(mem: Memory, dir: Directory, plan: Plan, t1: seq<u64>, t2: seq<u64>, t3: seq<u64>, v: u64)
    requires Addressable(plan) && t1 <= t2 <= t3 && forall t <- t3 :: TablePage(t)
    requires Tree(mem, dir, BootTranslation(plan, t1, t2, t3))
    requires || 0xFEE0_0000 <= v < 0xFEE0_1000 || 0xFEC0_0000 <= v < 0xFEC0_1000
             || (plan.framebuffer.base != 0
                 && plan.framebuffer.base <= v < plan.framebuffer.base + plan.framebuffer.size)
    requires !IsTable(t3, PageNo(v))
    ensures HardwareWalk(mem, dir[ROOT], v) == Some(Reached(v, true, true, true))
  {
    hide Tree, HardwareWalk, BootTranslation, IsTable, InRanges, PageAt, RangePages, AlignDown;
    HardwareAgrees(mem, dir, BootTranslation(plan, t1, t2, t3), v);
    BootTranslationMeaning(plan, t1, t2, t3, PageNo(v));
    FlagBits();
    assert PageNo(v) == v / 4096;
  }

  /** The kernel's range: each address leads into the image, which may be written and is cached. */
  lemma KernelReached(mem: Memory, dir: Directory, plan: Plan, t1: seq<u64>, t2: seq<u64>, t3: seq<u64>, v: u64)
    requires Addressable(plan) && KernelImage.NoWrap(plan) && t1 <= t2 <= t3
    requires forall t <- t3 :: TablePage(t)
    requires Tree(mem, dir, BootTranslation(plan, t1, t2, t3))
    requires plan.kernelVirt <= v < plan.kernelVirt + plan.kernelSpan
    requires plan.kernelPhys + plan.kernelSpan + 4096 <= 0x10_0000_0000_0000
    requires !IsTable(t3, PageNo(v)) && !IsDevice(plan, PageNo(v))
    ensures var image := plan.kernelPhys / 4096 * 4096;
            HardwareWalk(mem, dir[ROOT], v)
            == Some(Reached(image + (v - plan.kernelVirt / 4096 * 4096), true, false, false))
  {
    hide Tree, Walk, HardwareWalk, BootTranslation, IsTable, IsDevice, PageNo;
    KernelImage.KernelWalk(mem, dir, plan, t1, t2, t3, v);
    WalkIsHardware(mem, dir, BootTranslation(plan, t1, t2, t3), v);
    FlagBits();
  }
}

/** The address space efi_main hands to the kernel: which calls it makes, in which order,
    and what every page is mapped to when they have all succeeded. */
module BootMapping {
  import opened Words
  import opened PageTables
  import opened Mappings
  import opened Paging

  const MIB := 0x10_0000
  const LOCAL_APIC := 0xFEE0_0000
  const IO_APIC := 0xFEC0_0000
  const STACK_BYTES := 128 * PAGE_SIZE
  const MEMMAP_BYTES := 256 * 1024
  /** The kernel allocator's 1 GiB region. */
  const HEAP_BASE := 0x400_0000
  const HEAP_BYTES := 1024 * MIB

  datatype Range = Range(base: u64, size: u64)

  predicate Touches(r: Range, k: nat) {
    r.size > 0 && r.base < (k + 1) * PAGE_SIZE && k * PAGE_SIZE < r.base + r.size
  }

  // ---------------------------------------------------------------------
  // The identity ranges
  // ---------------------------------------------------------------------

  /** What efi_main knows when it fills the table of ranges; 0 and None are "absent". */
  datatype Regions = Regions(
    kernelPhys: u64, kernelSpan: u64, stackPhys: u64, bootInfoPhys: u64, memMapPhys: u64,
    ramdiskPhys: u64, ramdiskSize: u64, rsdp: u64, loader: Option<Range>,
    trampolinePhys: u64, trampolineBytes: u64)

  /** The ranges every boot lists, whatever is absent. */
  function AlwaysListed(r: Regions): set<Range> {
    { Range(0, MIB), Range(r.kernelPhys, r.kernelSpan), Range(r.bootInfoPhys, PAGE_SIZE),
      Range(r.memMapPhys, MEMMAP_BYTES), Range(r.trampolinePhys, r.trampolineBytes),
      Range(HEAP_BASE, HEAP_BYTES), Range(MIB, 4 * MIB) }
  }

  function ListedIfPresent(r: Regions): set<Range> {
    (if r.stackPhys != 0 then {Range(r.stackPhys, STACK_BYTES)} else {}) + OptionalRegions(r)
  }

  function OptionalRegions(r: Regions): set<Range> {
    (if r.ramdiskPhys != 0 && r.ramdiskSize != 0 then {Range(r.ramdiskPhys, r.ramdiskSize)} else {})
    + (if r.rsdp != 0 then {Range(AlignDown(r.rsdp), 4 * PAGE_SIZE)} else {})
    + (if r.loader.Some?
       then {Range(r.loader.value.base, Max(r.loader.value.size, 16 * PAGE_SIZE))} else {})
  }

  /** The table as efi_main fills it. */
  function RangeList(r: Regions): seq<Range> {
    [Range(0, MIB), Range(r.kernelPhys, r.kernelSpan)]
    + (if r.stackPhys != 0 then [Range(r.stackPhys, STACK_BYTES)] else [])
    + [Range(r.bootInfoPhys, PAGE_SIZE), Range(r.memMapPhys, MEMMAP_BYTES)]
    + OptionalList(r)
    + [Range(r.trampolinePhys, r.trampolineBytes), Range(HEAP_BASE, HEAP_BYTES), Range(MIB, 4 * MIB)]
  }

  function OptionalList(r: Regions): seq<Range> {
    (if r.ramdiskPhys != 0 && r.ramdiskSize != 0 then [Range(r.ramdiskPhys, r.ramdiskSize)] else [])
    + (if r.rsdp != 0 then [Range(AlignDown(r.rsdp), 4 * PAGE_SIZE)] else [])
    + (if r.loader.Some?
       then [Range(r.loader.value.base, Max(r.loader.value.size, 16 * PAGE_SIZE))] else [])
  }

  lemma RangeListParts(r: Regions, first: seq<Range>, middle: seq<Range>, all: seq<Range>)
    requires var start := [] + [Range(0, MIB)] + [Range(r.kernelPhys, r.kernelSpan)];
             first == if r.stackPhys != 0 then start + [Range(r.stackPhys, STACK_BYTES)] else start
    requires middle == first + [Range(r.bootInfoPhys, PAGE_SIZE)] + [Range(r.memMapPhys, MEMMAP_BYTES)]
                       + OptionalList(r)
    requires all == middle + [Range(r.trampolinePhys, r.trampolineBytes)] + [Range(HEAP_BASE, HEAP_BYTES)]
                    + [Range(MIB, 4 * MIB)]
    ensures all == RangeList(r)
  {
    hide OptionalList;
  }

  /** Its entries are the ranges listed. */
  lemma RangeListMembers(r: Regions)
    ensures forall x :: x in RangeList(r) <==> x in AlwaysListed(r) + ListedIfPresent(r)
    ensures 7 <= |RangeList(r)| <= 11
  {
    hide PageTables.AlignDown;
    OptionalMembers(r);
    hide OptionalList, OptionalRegions;
  }

  lemma OptionalMembers(r: Regions)
    ensures forall x :: x in OptionalList(r) <==> x in OptionalRegions(r)
    ensures |OptionalList(r)| <= 3
  {
    hide PageTables.AlignDown;
  }

  // The two arrays of a list of ranges, and back.
  function Bases(list: seq<Range>): seq<u64> { seq(|list|, i requires 0 <= i < |list| => list[i].base) }

  function Sizes(list: seq<Range>): seq<u64> { seq(|list|, i requires 0 <= i < |list| => list[i].size) }

  function Zip(ranges: seq<u64>, sizes: seq<u64>): (r: seq<Range>)
    requires |ranges| == |sizes|
    ensures |r| == |ranges| && ranges == Bases(r) && sizes == Sizes(r)
  {
    seq(|ranges|, i requires 0 <= i < |ranges| => Range(ranges[i], sizes[i]))
  }

  /** The two arrays as a set of ranges. */
  ghost function Pairs(ranges: seq<u64>, sizes: seq<u64>): set<Range>
    requires |ranges| == |sizes|
  {
    set i | 0 <= i < |ranges| :: Range(ranges[i], sizes[i])
  }

  lemma PairsOfList(list: seq<Range>)
    ensures forall x :: x in Pairs(Bases(list), Sizes(list)) <==> x in list
  {
    forall x | x in list ensures x in Pairs(Bases(list), Sizes(list)) {
      var i :| 0 <= i < |list| && list[i] == x;
      assert Bases(list)[i] == x.base && Sizes(list)[i] == x.size;
    }
  }

  /** The two parallel arrays of 20 entries and their count. */
  class RangeTable {
    const ranges: array<u64>
    const sizes: array<u64>
    var rangeCount: nat

    constructor ()
      ensures Valid() && fresh(ranges) && fresh(sizes) && rangeCount == 0
    {
      ranges, sizes, rangeCount := new u64[20], new u64[20], 0;
    }

    ghost predicate Valid()
      reads this
    {
      ranges != sizes && ranges.Length == sizes.Length == 20 && rangeCount <= 20
    }

    ghost function Entries(): (list: seq<Range>)
      reads this, ranges, sizes
      requires Valid()
      ensures |list| == rangeCount
    {
      Zip(ranges[..rangeCount], sizes[..rangeCount])
    }

    ghost function Listed(): set<Range>
      reads this, ranges, sizes
      requires Valid()
    {
      Pairs(ranges[..rangeCount], sizes[..rangeCount])
    }

    method Add(base: u64, size: u64)
      requires Valid() && rangeCount < 20
      modifies this, ranges, sizes
      ensures Valid() && Entries() == old(Entries()) + [Range(base, size)]
    {
      ranges[rangeCount] := base;
      sizes[rangeCount] := size;
      rangeCount := rangeCount + 1;
      assert ranges[..rangeCount] == old(ranges[..rangeCount]) + [base];
      assert sizes[..rangeCount] == old(sizes[..rangeCount]) + [size];
    }

    /** Fills the table; it never holds more than 11 of its 20 entries. */
    method Collect(r: Regions)
      requires Valid() && rangeCount == 0
      modifies this, ranges, sizes
      ensures Valid() && 7 <= rangeCount <= 11 && Entries() == RangeList(r)
      ensures Listed() == AlwaysListed(r) + ListedIfPresent(r)
    {
      hide Zip, PageTables.AlignDown, RangeList, OptionalList, Bases, Sizes, Pairs, AlwaysListed, ListedIfPresent;
      assert Entries() == [];
      Add(0, MIB);
      Add(r.kernelPhys, r.kernelSpan);
      if r.stackPhys != 0 {
        Add(r.stackPhys, STACK_BYTES);
      }
      ghost var first := Entries();
      Add(r.bootInfoPhys, PAGE_SIZE);
      Add(r.memMapPhys, MEMMAP_BYTES);
      AddOptional(r);
      ghost var middle := Entries();
      Add(r.trampolinePhys, r.trampolineBytes);
      Add(HEAP_BASE, HEAP_BYTES);
      Add(MIB, 4 * MIB);
      RangeListParts(r, first, middle, Entries());
      RangeListMembers(r);
      PairsOfList(RangeList(r));
    }

    /** The ramdisk, the ACPI root pointer and the loader's own image, where known. */
    method AddOptional(r: Regions)
      requires Valid() && rangeCount <= 5
      modifies this, ranges, sizes
      ensures Valid() && Entries() == old(Entries()) + OptionalList(r) && |OptionalList(r)| <= 3
    {
      hide Zip, PageTables.AlignDown;
      if r.ramdiskPhys != 0 && r.ramdiskSize != 0 {
        Add(r.ramdiskPhys, r.ramdiskSize);
      }
      if r.rsdp != 0 {
        Add(AlignDown(r.rsdp), PAGE_SIZE * 4);
      }
      if r.loader.Some? {
        var loaderSize := r.loader.value.size;
        if loaderSize < PAGE_SIZE * 16 {
          loaderSize := PAGE_SIZE * 16;
        }
        Add(r.loader.value.base, loaderSize);
      }
    }
  }

  // ---------------------------------------------------------------------
  // The order of the mapping calls
  // ---------------------------------------------------------------------

  /** The arguments of the mapping calls. */
  datatype Plan = Plan(
    ranges: seq<u64>, sizes: seq<u64>,
    kernelVirt: u64, kernelPhys: u64, kernelSpan: u64,
    framebuffer: Range)

  /** The arguments efi_main uses, as a function of what it knows. */
  function BootPlan(r: Regions, kernelMinVaddr: u64, framebuffer: Range): (plan: Plan)
    ensures |plan.ranges| == |plan.sizes|
  {
    Plan(Bases(RangeList(r)), Sizes(RangeList(r)), kernelMinVaddr, r.kernelPhys, r.kernelSpan, framebuffer)
  }

  predicate HasFramebuffer(plan: Plan) { plan.framebuffer.base != 0 && plan.framebuffer.size != 0 }

  function MapIdentity(spec: Translation, base: u64, size: u64, flags: nat): Translation {
    MapPages(spec, AlignDown(base), AlignDown(base), RangePages(base, size), flags)
  }

  function MapKernel(spec: Translation, plan: Plan): Translation {
    MapPages(spec, AlignDown(plan.kernelVirt), AlignDown(plan.kernelPhys),
             RangePages(plan.kernelVirt, plan.kernelSpan), RW)
  }

  function MapDevices(spec: Translation, plan: Plan): Translation {
    var fb := if HasFramebuffer(plan)
              then MapIdentity(spec, plan.framebuffer.base, plan.framebuffer.size, RW + UNCACHED) else spec;
    var lapic := MapIdentity(fb, LOCAL_APIC, PAGE_SIZE, RW + UNCACHED);
    MapIdentity(lapic, IO_APIC, PAGE_SIZE, RW + UNCACHED)
  }

  /** The translation after the whole sequence; t1, t2 and t3 are the tables remembered
      at the three self-maps. */
  function BootTranslation(plan: Plan, t1: seq<u64>, t2: seq<u64>, t3: seq<u64>): Translation
    requires |plan.ranges| == |plan.sizes|
  {
    var identity := MapRanges(map[], plan.ranges, plan.sizes, |plan.ranges|);
    SelfMap(MapDevices(SelfMap(MapKernel(SelfMap(identity, t1), plan), t2), plan), t3)
  }

  ghost function DevicePages(plan: Plan): set<nat> {
    (if HasFramebuffer(plan) then PagesOfRange(plan.framebuffer.base, plan.framebuffer.size) else {})
    + PagesOfRange(LOCAL_APIC, PAGE_SIZE) + PagesOfRange(IO_APIC, PAGE_SIZE)
  }

  /** Every page the sequence maps, when `tables` are the tables remembered. */
  ghost function BootPages(plan: Plan, tables: seq<u64>): set<nat>
    requires |plan.ranges| == |plan.sizes|
  {
    RangesPages(plan.ranges, plan.sizes, |plan.ranges|) + PagesOfRange(plan.kernelVirt, plan.kernelSpan)
    + DevicePages(plan) + TablePages(tables)
  }

  lemma MapIdentityKeys(spec: Translation, base: u64, size: u64, flags: nat)
    ensures MapIdentity(spec, base, size, flags).Keys == spec.Keys + PagesOfRange(base, size)
  {
    hide PageTables.AlignDown, RangePages, MapPages, VisitedPages;
    MapPagesKeys(spec, AlignDown(base), AlignDown(base), RangePages(base, size), flags);
  }

  lemma MapDevicesKeys(spec: Translation, plan: Plan)
    ensures MapDevices(spec, plan).Keys == spec.Keys + DevicePages(plan)
  {
    hide MapIdentity, PagesOfRange;
    var fb := if HasFramebuffer(plan)
              then MapIdentity(spec, plan.framebuffer.base, plan.framebuffer.size, RW + UNCACHED) else spec;
    var lapic := MapIdentity(fb, LOCAL_APIC, PAGE_SIZE, RW + UNCACHED);
    MapIdentityKeys(spec, plan.framebuffer.base, plan.framebuffer.size, RW + UNCACHED);
    MapIdentityKeys(fb, LOCAL_APIC, PAGE_SIZE, RW + UNCACHED);
    MapIdentityKeys(lapic, IO_APIC, PAGE_SIZE, RW + UNCACHED);
  }

  lemma MapKernelKeys(spec: Translation, plan: Plan)
    ensures MapKernel(spec, plan).Keys == spec.Keys + PagesOfRange(plan.kernelVirt, plan.kernelSpan)
  {
    hide PageTables.AlignDown, RangePages, MapPages, VisitedPages;
    MapPagesKeys(spec, AlignDown(plan.kernelVirt), AlignDown(plan.kernelPhys),
                 RangePages(plan.kernelVirt, plan.kernelSpan), RW);
  }

  lemma BootKeys(plan: Plan, t1: seq<u64>, t2: seq<u64>, t3: seq<u64>)
    requires |plan.ranges| == |plan.sizes| && t1 <= t2 <= t3
    ensures BootTranslation(plan, t1, t2, t3).Keys == BootPages(plan, t3)
  {
    hide MapKernel, MapDevices, SelfMap, MapRanges, PagesOfRange, RangesPages, TablePages, DevicePages;
    var identity := MapRanges(map[], plan.ranges, plan.sizes, |plan.ranges|);
    var self1 := SelfMap(identity, t1);
    var kernel := MapKernel(self1, plan);
    var self2 := SelfMap(kernel, t2);
    var devices := MapDevices(self2, plan);
    MapRangesKeys(plan.ranges, plan.sizes, |plan.ranges|);
    SelfMapKeys(identity, t1);
    MapKernelKeys(self1, plan);
    SelfMapKeys(kernel, t2);
    MapDevicesKeys(self2, plan);
    SelfMapKeys(devices, t3);
    TablePagesMore(t1, t3);
    TablePagesMore(t2, t3);
  }

  /** A stage of the sequence that stopped: there were fewer pages than the whole sequence needs. */
  lemma StageShort(builder: PageTableBuilder, before: Translation, pages: set<nat>, plan: Plan)
    requires builder.Valid() && |plan.ranges| == |plan.sizes|
    requires builder.Stuck(NodesOf(before.Keys), pages)
    requires before.Keys + pages <= BootPages(plan, builder.Tracked())
    ensures |builder.offered| < |NodesOf(BootPages(plan, Remembered(builder.offered)))|
  {
    hide PageTables.Tree, FreshPages, Lists, Remembers, Drawn, Keeps, Apart, PageTables.NodesOf, BootPages;
    builder.PagesTaken();
    Shortage(builder.dir.Keys, before.Keys, pages, BootPages(plan, builder.Tracked()));
  }

  /** Device memory, uncached: the framebuffer if there is one, and the two interrupt controllers. */
  method MapAllDevices(builder: PageTableBuilder, pml4: u64, plan: Plan) returns (status: Status)
    requires builder.Valid() && builder.Tight() && pml4 == builder.dir[ROOT]
    modifies builder, builder.ptPages
    ensures builder.Valid() && builder.dir[ROOT] == pml4 && builder.offered == old(builder.offered)
    ensures old(builder.Tracked()) <= builder.Tracked()
    ensures status == Success ==> builder.Tight() && builder.spec == MapDevices(old(builder.spec), plan)
    ensures status != Success ==>
              status == OutOfResources && builder.Stuck(NodesOf(old(builder.spec).Keys), DevicePages(plan))
  {
    hide PageTables.Tree, FreshPages, Lists, Remembers, Drawn, Keeps, Apart, PageTables.NodesOf;
    hide RangePages, PageTables.AlignDown, PagesOfRange;
    ghost var done;
    ghost var spec0 := builder.spec;
    ghost var fbPages: set<nat> := {};
    if HasFramebuffer(plan) {
      fbPages := PagesOfRange(plan.framebuffer.base, plan.framebuffer.size);
      assert spec0.Keys + {} == spec0.Keys;
      status, done := builder.MapIdentityRangeUncached(pml4, plan.framebuffer.base, plan.framebuffer.size);
      if status != Success {
        StuckLater(builder.dir.Keys, spec0.Keys, {}, fbPages, DevicePages(plan));
        return;
      }
      MapIdentityKeys(spec0, plan.framebuffer.base, plan.framebuffer.size, RW + UNCACHED);
    }
    ghost var spec1 := builder.spec;
    assert spec1.Keys == spec0.Keys + fbPages;
    status, done := builder.MapIdentityRangeUncached(pml4, LOCAL_APIC, PAGE_SIZE);
    if status != Success {
      StuckLater(builder.dir.Keys, spec0.Keys, fbPages, PagesOfRange(LOCAL_APIC, PAGE_SIZE), DevicePages(plan));
      return;
    }
    MapIdentityKeys(spec1, LOCAL_APIC, PAGE_SIZE, RW + UNCACHED);
    assert builder.spec.Keys == spec0.Keys + (fbPages + PagesOfRange(LOCAL_APIC, PAGE_SIZE));
    status, done := builder.MapIdentityRangeUncached(pml4, IO_APIC, PAGE_SIZE);
    if status != Success {
      StuckLater(builder.dir.Keys, spec0.Keys, fbPages + PagesOfRange(LOCAL_APIC, PAGE_SIZE),
                 PagesOfRange(IO_APIC, PAGE_SIZE), DevicePages(plan));
      return;
    }
  }

  lemma StuckLater(keys: set<Node>, before: set<nat>, mapped: set<nat>, next: set<nat>, all: set<nat>)
    requires NodesOf(before + mapped) <= keys < NodesOf(before + mapped) + NodesOf(next)
    requires mapped + next <= all
    ensures NodesOf(before) <= keys < NodesOf(before) + NodesOf(all)
  {
    hide NodesOf;
    NodesUnion(before, mapped);
    ShortOfMore(keys, NodesOf(before), mapped, next, all);
  }

  ghost predicate MapsHeap(pages: set<nat>) {
    forall k | HEAP_BASE / PAGE_SIZE <= k < (HEAP_BASE + HEAP_BYTES) / PAGE_SIZE :: k in pages
  }

  lemma HeapStays(some: set<nat>, all: set<nat>)
    requires MapsHeap(some) && some <= all
    ensures MapsHeap(all)
  {
  }

  /** The kernel's heap is among the identity ranges. */
  ghost predicate HeapListed(plan: Plan)
    requires |plan.ranges| == |plan.sizes|
  {
    MapsHeap(RangesPages(plan.ranges, plan.sizes, |plan.ranges|))
  }

  lemma {:induction false} AtLeastInterval(s: set<nat>, lo: nat, hi: nat)
    requires lo <= hi && forall q: nat | lo <= q < hi :: q in s
    ensures |s| >= hi - lo
    decreases hi - lo
  {
    if lo < hi {
      AtLeastInterval(s - {hi - 1}, lo, hi - 1);
    }
  }

  /** The kernel's heap alone fills 512 page tables. */
  lemma HeapTables(pages: set<nat>)
    requires MapsHeap(pages)
    ensures |PtNos(pages)| >= 512 && |PdNos(pages)| >= 2 && |PdptNos(pages)| >= 1
  {
    forall q: nat | 32 <= q < 544 ensures q in PtNos(pages) {
      assert q * ENTRIES in pages && PtNo(q * ENTRIES) == q;
    }
    AtLeastInterval(PtNos(pages), 32, 544);
    assert 0x4000 in pages && 0x43FFF in pages;
    assert PdNo(0x4000) == 0 && PdNo(0x43FFF) == 1 && PdptNo(0x4000) == 0;
    AtLeastInterval(PdNos(pages), 0, 2);
    AtLeastInterval(PdptNos(pages), 0, 1);
  }

  lemma HeapNodes(pages: set<nat>)
    requires MapsHeap(pages)
    ensures |NodesOf(pages)| >= 516
  {
    hide PdptNos, PdNos, PtNos, NodesOf, MapsHeap;
    NodeCount(pages);
    HeapTables(pages);
  }

  /** Once the heap is mapped, more tables exist than are remembered: the first 512 pages. */
  lemma HeapFillsMemory(builder: PageTableBuilder)
    requires builder.Valid() && builder.Tight() && MapsHeap(builder.spec.Keys)
    ensures builder.Tracked() == Remembered(builder.offered)
    ensures |builder.Tracked()| == 512 && 516 <= |builder.order| <= |builder.offered|
  {
    hide PageTables.Tree, FreshPages, Lists, Remembers, Keeps, Apart, PageTables.NodesOf, MapsHeap;
    builder.PagesTaken();
    HeapNodes(builder.spec.Keys);
  }

  lemma RangesNeeded(plan: Plan, tables: seq<u64>)
    requires |plan.ranges| == |plan.sizes|
    ensures |NodesOf(RangesPages(plan.ranges, plan.sizes, |plan.ranges|) + TablePages(tables))|
            <= |NodesOf(BootPages(plan, tables))|
  {
    hide PageTables.NodesOf, RangesPages, TablePages, PagesOfRange, DevicePages;
    var some := RangesPages(plan.ranges, plan.sizes, |plan.ranges|) + TablePages(tables);
    NodesMore(some, BootPages(plan, tables));
    Fewer(NodesOf(some), NodesOf(BootPages(plan, tables)));
  }

  /** The calls after the identity ranges: kernel, tables, devices, tables. */
  method MapKernelAndDevices(builder: PageTableBuilder, pml4: u64, plan: Plan, ghost t1: seq<u64>)
    returns (status: Status, ghost t2: seq<u64>)
    requires builder.Valid() && builder.Tight() && pml4 == builder.dir[ROOT]
    requires |plan.ranges| == |plan.sizes| && t1 == builder.Tracked()
    requires builder.spec == SelfMap(MapRanges(map[], plan.ranges, plan.sizes, |plan.ranges|), t1)
    modifies builder, builder.ptPages
    ensures builder.Valid() && builder.dir[ROOT] == pml4 && builder.offered == old(builder.offered)
    ensures t1 <= t2 <= builder.Tracked()
    ensures status == Success ==>
              builder.Tight() && builder.spec == BootTranslation(plan, t1, t2, builder.Tracked())
    ensures status != Success ==>
              && status == OutOfResources && builder.pool == []
              && |builder.offered| < |NodesOf(BootPages(plan, Remembered(builder.offered)))|
  {
    hide PageTables.Tree, FreshPages, Lists, Remembers, Drawn, Keeps, Apart, PageTables.NodesOf;
    hide RangePages, PageTables.AlignDown, PagesOfRange, RangesPages, TablePages, DevicePages, MapDevices;
    ghost var done;
    ghost var identity := MapRanges(map[], plan.ranges, plan.sizes, |plan.ranges|);
    ghost var spec0 := builder.spec;
    t2 := t1;
    MapRangesKeys(plan.ranges, plan.sizes, |plan.ranges|);
    SelfMapKeys(identity, t1);
    status, done := builder.MapRange(pml4, plan.kernelVirt, plan.kernelPhys, plan.kernelSpan);
    TablePagesMore(t1, builder.Tracked());
    if status != Success {
      StageShort(builder, spec0, PagesOfRange(plan.kernelVirt, plan.kernelSpan), plan);
      return;
    }
    ghost var spec1 := builder.spec;
    MapKernelKeys(spec0, plan);
    status := builder.IdentityMapPageTablePages(pml4);
    t2 := builder.Tracked();
    TablePagesMore(t1, t2);
    if status != Success {
      StageShort(builder, spec1, TablePages(t2), plan);
      return;
    }
    ghost var spec2 := builder.spec;
    SelfMapKeys(spec1, t2);
    status := MapAllDevices(builder, pml4, plan);
    TablePagesMore(t1, builder.Tracked());
    TablePagesMore(t2, builder.Tracked());
    if status != Success {
      StageShort(builder, spec2, DevicePages(plan), plan);
      return;
    }
    ghost var spec3 := builder.spec;
    MapDevicesKeys(spec2, plan);
    status := builder.IdentityMapPageTablePages(pml4);
    TablePagesMore(t1, builder.Tracked());
    TablePagesMore(t2, builder.Tracked());
    if status != Success {
      StageShort(builder, spec3, TablePages(builder.Tracked()), plan);
    }
  }

  /** The mapping calls of efi_main; any failure ends the boot with an error, and means that the
      firmware has fewer pages than the sequence needs tables. When the kernel's heap is among the
      ranges, the tables remembered are the firmware's first 512 pages, so the number needed is
      known beforehand and the sequence succeeds exactly when there are as many pages. */
  method BuildAddressSpace(builder: PageTableBuilder, plan: Plan)
    returns (status: Status, pml4: u64, ghost t1: seq<u64>, ghost t2: seq<u64>)
    requires builder.Ready() && |plan.ranges| == |plan.sizes|
    modifies builder, builder.ptPages
    ensures builder.Ready()
    ensures status == Success ==>
              && builder.Valid() && builder.Tight() && pml4 == builder.dir[ROOT]
              && t1 <= t2 <= builder.Tracked() && builder.offered == old(builder.pool)
              && builder.spec == BootTranslation(plan, t1, t2, builder.Tracked())
              && |old(builder.pool)| - |builder.pool| == |NodesOf(BootPages(plan, builder.Tracked()))|
    ensures status != Success ==>
              && status == OutOfResources && builder.pool == []
              && |old(builder.pool)| < |NodesOf(BootPages(plan, Remembered(old(builder.pool))))|
    ensures HeapListed(plan) ==>
              var first := Remembered(old(builder.pool));
              && (status == Success <==> |NodesOf(BootPages(plan, first))| <= |old(builder.pool)|)
              && (status == Success ==> t1 == t2 == builder.Tracked() == first)
  {
    hide PageTables.Tree, FreshPages, Lists, Remembers, Drawn, Keeps, Apart, PageTables.NodesOf;
    hide RangePages, PageTables.AlignDown, PagesOfRange, RangesPages, TablePages, DevicePages, MapsHeap;
    t1, t2 := [], [];
    RangesNeeded(plan, Remembered(builder.pool));
    status, pml4 := builder.BuildIdentityPageTables(plan.ranges, plan.sizes);
    if status != Success { return; }
    t1 := builder.Tracked();
    MapRangesKeys(plan.ranges, plan.sizes, |plan.ranges|);
    SelfMapKeys(MapRanges(map[], plan.ranges, plan.sizes, |plan.ranges|), t1);
    if HeapListed(plan) {
      HeapStays(RangesPages(plan.ranges, plan.sizes, |plan.ranges|), builder.spec.Keys);
      HeapFillsMemory(builder);
    }
    status, t2 := MapKernelAndDevices(builder, pml4, plan, t1);
    if status != Success { return; }
    BootKeys(plan, t1, t2, builder.Tracked());
    builder.PagesTaken();
  }

  /** The span efi_main falls back on when the loader reports none. */
  const DEFAULT_SPAN := 64 * MIB

  lemma HeapAlways(r: Regions)
    ensures Range(HEAP_BASE, HEAP_BYTES) in AlwaysListed(r)
  {
  }

  lemma HeapInRanges(plan: Plan)
    requires |plan.ranges| == |plan.sizes| && Range(HEAP_BASE, HEAP_BYTES) in Pairs(plan.ranges, plan.sizes)
    ensures HeapListed(plan)
  {
    hide RangesPages, PagesOfRange;
    var i :| 0 <= i < |plan.ranges| && Range(plan.ranges[i], plan.sizes[i]) == Range(HEAP_BASE, HEAP_BYTES);
    RangesMore(plan.ranges, plan.sizes, i);
    HeapPages();
    HeapStays(PagesOfRange(HEAP_BASE, HEAP_BYTES), RangesPages(plan.ranges, plan.sizes, |plan.ranges|));
  }

  lemma HeapPages()
    ensures MapsHeap(PagesOfRange(HEAP_BASE, HEAP_BYTES))
  {
    hide RangePages, PageAt;
    forall k | HEAP_BASE / PAGE_SIZE <= k < (HEAP_BASE + HEAP_BYTES) / PAGE_SIZE
      ensures k in PagesOfRange(HEAP_BASE, HEAP_BYTES)
    {
      IdentityIteration(HEAP_BASE, HEAP_BYTES, k);
    }
  }

  lemma {:induction false} RangesBounded(ranges: seq<u64>, sizes: seq<u64>, n: nat)
    requires n <= |ranges| == |sizes|
    ensures forall k <- RangesPages(ranges, sizes, n) :: k < PAGES
  {
    if n > 0 {
      RangesBounded(ranges, sizes, n - 1);
    }
  }

  lemma RangeBounded(base: u64, size: u64)
    ensures forall k <- PagesOfRange(base, size) :: k < PAGES
  {
  }

  /** No boot needs more tables than four full levels hold. */
  lemma BootPagesBounded(plan: Plan, tables: seq<u64>)
    requires |plan.ranges| == |plan.sizes|
    ensures |NodesOf(BootPages(plan, tables))| <= ALL_TABLES
  {
    hide PageTables.NodesOf, PagesOfRange, RangesPages;
    RangesBounded(plan.ranges, plan.sizes, |plan.ranges|);
    RangeBounded(plan.kernelVirt, plan.kernelSpan);
    RangeBounded(plan.framebuffer.base, plan.framebuffer.size);
    RangeBounded(LOCAL_APIC, PAGE_SIZE);
    RangeBounded(IO_APIC, PAGE_SIZE);
    TablesBounded(BootPages(plan, tables));
  }

  /** What a successful boot leaves behind: the builder's tables are the firmware's first pages,
      the first 512 of them were remembered, and the sequence of calls is complete. */
  ghost predicate Booted(builder: PageTableBuilder, plan: Plan, pool: seq<u64>)
    reads builder, builder.ptPages
  {
    && builder.Valid() && builder.Tight() && builder.offered == pool
    && Addressable(plan) && HeapListed(plan)
    && builder.Tracked() == Remembered(pool)
    && builder.spec == BootTranslation(plan, Remembered(pool), Remembered(pool), Remembered(pool))
  }

  /** The mapping part of efi_main as a whole: the table of ranges is filled, then every
      mapping call is made from it. `plan` tells which arguments were used. */
  method PrepareAddressSpace(builder: PageTableBuilder, known: Regions, kernelTotalSize: u64, kernelMinVaddr: u64,
                             framebuffer: Range)
    returns (status: Status, pml4: u64, ghost plan: Plan, ghost t1: seq<u64>, ghost t2: seq<u64>)
    requires builder.Ready()
    modifies builder, builder.ptPages
    ensures |plan.ranges| == |plan.sizes|
    ensures var r := known.(kernelSpan := if kernelTotalSize != 0 then kernelTotalSize else 0x400_0000);
            && Pairs(plan.ranges, plan.sizes) == AlwaysListed(r) + ListedIfPresent(r)
            && plan.kernelVirt == kernelMinVaddr && plan.kernelPhys == r.kernelPhys && plan.kernelSpan == r.kernelSpan
            && plan.framebuffer == framebuffer && plan == BootPlan(r, kernelMinVaddr, framebuffer)
    ensures Range(HEAP_BASE, HEAP_BYTES) in Pairs(plan.ranges, plan.sizes)
    ensures status == Success ==>
              && builder.Valid() && builder.Tight() && pml4 == builder.dir[ROOT]
              && t1 <= t2 <= builder.Tracked() && builder.offered == old(builder.pool)
              && builder.spec == BootTranslation(plan, t1, t2, builder.Tracked())
              && t1 == t2 == builder.Tracked() == Remembered(old(builder.pool))
    ensures status != Success ==> status == OutOfResources && builder.pool == []
    ensures status == Success <==>
            |NodesOf(BootPages(plan, Remembered(old(builder.pool))))| <= |old(builder.pool)|
    ensures |old(builder.pool)| >= ALL_TABLES ==> status == Success
    ensures status == Success && Addressable(plan) ==> Booted(builder, plan, old(builder.pool))
  {
    hide PageTables.Tree, FreshPages, Lists, Remembers, Drawn, Keeps, Apart, PageTables.NodesOf;
    hide Pairs, AlwaysListed, ListedIfPresent, BootPages, HeapListed, Addressable, BootTranslation;
    hide RangeList, Bases, Sizes, Zip;
    var kernelSpanBytes := kernelTotalSize;
    if kernelSpanBytes == 0 { kernelSpanBytes := DEFAULT_SPAN; }
    var r := known.(kernelSpan := kernelSpanBytes);
    var table := new RangeTable();
    table.Collect(r);
    assert Range(HEAP_BASE, HEAP_BYTES) in AlwaysListed(r) by { HeapAlways(r); }
    var ranges, sizes := table.ranges[..table.rangeCount], table.sizes[..table.rangeCount];
    var calls := Plan(ranges, sizes, kernelMinVaddr, r.kernelPhys, kernelSpanBytes, framebuffer);
    plan := calls;
    HeapInRanges(plan);
    BootPagesBounded(plan, Remembered(builder.pool));
    status, pml4, t1, t2 := BuildAddressSpace(builder, calls);
  }

  // ---------------------------------------------------------------------
  // What each page means at the end
  // ---------------------------------------------------------------------

  predicate IsDevice(plan: Plan, k: nat) {
    || (plan.framebuffer.base != 0 && Touches(plan.framebuffer, k))
    || k == 0xFEE00 || k == 0xFEC00
  }

  ghost predicate IsTable(tables: seq<u64>, k: nat) { exists t <- tables :: PageNo(t) == k }

  ghost predicate IsKernel(plan: Plan, k: nat) {
    k in PagesOfRange(plan.kernelVirt, plan.kernelSpan)
  }

  ghost predicate InRanges(plan: Plan, k: nat)
    requires |plan.ranges| == |plan.sizes|
  {
    exists i | 0 <= i < |plan.ranges| :: Touches(Range(plan.ranges[i], plan.sizes[i]), k)
  }

  /** The page is mapped for another reason than holding a remembered table. */
  ghost predicate MappedAnyway(plan: Plan, k: nat)
    requires |plan.ranges| == |plan.sizes|
  {
    InRanges(plan, k) || IsDevice(plan, k) || IsKernel(plan, k)
  }

  /** The kernel's virtual range leads the page to itself. */
  ghost predicate KernelIdentity(plan: Plan, k: nat) {
    exists i: nat | i < RangePages(plan.kernelVirt, plan.kernelSpan) ::
      PageAt(AlignDown(plan.kernelVirt), i) == k && LeafAt(AlignDown(plan.kernelPhys), i, RW).frame == k * PAGE_SIZE
  }

  /** The page is mapped to itself for another reason than holding a remembered table. */
  ghost predicate IdentityAnyway(plan: Plan, k: nat)
    requires |plan.ranges| == |plan.sizes|
  {
    IsDevice(plan, k) || if IsKernel(plan, k) then KernelIdentity(plan, k) else InRanges(plan, k)
  }

  /** No identity range or device reaches 2^48, and the kernel range does not wrap onto itself. */
  predicate Addressable(plan: Plan) {
    && |plan.ranges| == |plan.sizes|
    && (forall i | 0 <= i < |plan.ranges| :: plan.ranges[i] + plan.sizes[i] <= PHYS_LIMIT)
    && plan.framebuffer.base + plan.framebuffer.size <= PHYS_LIMIT
    && RangePages(plan.kernelVirt, plan.kernelSpan) <= PAGES
  }

  /** What `k` leads to in `m`, or that it is unmapped. */
  function LookUp(m: Translation, k: nat): Option<Leaf> { if k in m then Some(m[k]) else None }

  lemma IdentityStep(spec: Translation, r: Range, flags: nat, k: nat)
    requires r.base + r.size <= PHYS_LIMIT && k < PAGES
    ensures LookUp(MapIdentity(spec, r.base, r.size, flags), k)
            == if Touches(r, k) then Some(IdentityLeaf(k, flags)) else LookUp(spec, k)
  {
    if Touches(r, k) {
      IdentityCall(spec, r.base, r.size, flags, k);
    } else {
      IdentityCallOutside(spec, r.base, r.size, flags, k);
    }
  }

  lemma {:induction false} RangesStep(bases: seq<u64>, sizes: seq<u64>, n: nat, k: nat)
    requires n <= |bases| == |sizes| && k < PAGES
    requires forall i | 0 <= i < n :: bases[i] + sizes[i] <= PHYS_LIMIT
    ensures LookUp(MapRanges(map[], bases, sizes, n), k)
            == if exists i | 0 <= i < n :: Touches(Range(bases[i], sizes[i]), k)
               then Some(IdentityLeaf(k, RW)) else None
  {
    if n > 0 {
      RangesStep(bases, sizes, n - 1, k);
      IdentityStep(MapRanges(map[], bases, sizes, n - 1), Range(bases[n - 1], sizes[n - 1]), RW, k);
      assert (exists i | 0 <= i < n :: Touches(Range(bases[i], sizes[i]), k)) <==>
             (exists i | 0 <= i < n - 1 :: Touches(Range(bases[i], sizes[i]), k))
             || Touches(Range(bases[n - 1], sizes[n - 1]), k);
    }
  }

  lemma SelfMapStep(spec: Translation, tables: seq<u64>, k: nat)
    requires (forall t <- tables :: TablePage(t)) && k < PAGES
    ensures LookUp(SelfMap(spec, tables), k)
            == if IsTable(tables, k) then Some(IdentityLeaf(k, RW)) else LookUp(spec, k)
  {
    SelfMapMeaning(spec, tables, k);
  }

  lemma DevicesStep(spec: Translation, plan: Plan, k: nat)
    requires Addressable(plan) && k < PAGES
    ensures LookUp(MapDevices(spec, plan), k)
            == if IsDevice(plan, k) then Some(IdentityLeaf(k, RW + UNCACHED)) else LookUp(spec, k)
  {
    hide MapIdentity;
    var fb := if HasFramebuffer(plan)
              then MapIdentity(spec, plan.framebuffer.base, plan.framebuffer.size, RW + UNCACHED) else spec;
    var lapic := MapIdentity(fb, LOCAL_APIC, PAGE_SIZE, RW + UNCACHED);
    IdentityStep(spec, plan.framebuffer, RW + UNCACHED, k);
    IdentityStep(fb, Range(LOCAL_APIC, PAGE_SIZE), RW + UNCACHED, k);
    IdentityStep(lapic, Range(IO_APIC, PAGE_SIZE), RW + UNCACHED, k);
  }

  lemma KernelStep(spec: Translation, plan: Plan, k: nat)
    requires Addressable(plan)
    ensures !IsKernel(plan, k) ==> LookUp(MapKernel(spec, plan), k) == LookUp(spec, k)
    ensures forall i: nat | i < RangePages(plan.kernelVirt, plan.kernelSpan) ::
              PageAt(AlignDown(plan.kernelVirt), i) == k ==>
              LookUp(MapKernel(spec, plan), k) == Some(LeafAt(AlignDown(plan.kernelPhys), i, RW))
  {
    var v, p, n := AlignDown(plan.kernelVirt), AlignDown(plan.kernelPhys), RangePages(plan.kernelVirt, plan.kernelSpan);
    if !IsKernel(plan, k) {
      MapPagesOutside(spec, v, p, n, RW, k);
    }
    forall i: nat | i < n && PageAt(v, i) == k
      ensures LookUp(MapKernel(spec, plan), k) == Some(LeafAt(p, i, RW))
    {
      MapPagesInside(spec, v, p, n, RW, i);
    }
  }

  /** Every page at the end of the sequence: remembered tables win, then devices, then the
      kernel's virtual range, then the identity ranges; anything else is unmapped. Device
      pages keep PCD and PWT, the kernel range leads to its physical image page by page,
      and identity ranges outside both are still identity. */
  lemma BootTranslationMeaning(plan: Plan, t1: seq<u64>, t2: seq<u64>, t3: seq<u64>, k: nat)
    requires Addressable(plan) && t1 <= t2 <= t3 && k < PAGES
    requires forall t <- t3 :: TablePage(t)
    ensures var r := LookUp(BootTranslation(plan, t1, t2, t3), k);
            && (IsTable(t3, k) ==> r == Some(IdentityLeaf(k, RW)))
            && (!IsTable(t3, k) && IsDevice(plan, k) ==> r == Some(IdentityLeaf(k, RW + UNCACHED)))
            && (!IsTable(t3, k) && !IsDevice(plan, k) ==>
                && (forall i: nat | i < RangePages(plan.kernelVirt, plan.kernelSpan) ::
                      PageAt(AlignDown(plan.kernelVirt), i) == k ==>
                      r == Some(LeafAt(AlignDown(plan.kernelPhys), i, RW)))
                && (!IsKernel(plan, k) && InRanges(plan, k) ==> r == Some(IdentityLeaf(k, RW)))
                && (!IsKernel(plan, k) && !InRanges(plan, k) ==> r == None))
  {
    hide MapKernel, MapDevices, SelfMap, MapRanges, IsDevice, RangePages, PageTables.AlignDown, PageAt, LeafAt;
    var identity := MapRanges(map[], plan.ranges, plan.sizes, |plan.ranges|);
    var self1 := SelfMap(identity, t1);
    var kernel := MapKernel(self1, plan);
    var self2 := SelfMap(kernel, t2);
    var devices := MapDevices(self2, plan);
    assert (forall t <- t2 :: t in t3) && (forall t <- t1 :: t in t3);
    RangesStep(plan.ranges, plan.sizes, |plan.ranges|, k);
    SelfMapStep(identity, t1, k);
    KernelStep(self1, plan, k);
    SelfMapStep(kernel, t2, k);
    DevicesStep(self2, plan, k);
    SelfMapStep(devices, t3, k);
  }

  // ---------------------------------------------------------------------
  // The tables this boot loader forgets
  // ---------------------------------------------------------------------

  /** Every successful boot allocates at least 516 tables while only 512 are remembered,
      so the self-map never covers them all. */
  lemma BootForgetsTables(order: seq<Node>, dir: Directory, spec: Translation, tracked: seq<u64>)
    requires Lists(order, dir) && Remembers(tracked, order, dir) && Injective(dir)
    requires dir.Keys == NodesOf(spec.Keys) && MapsHeap(spec.Keys)
    ensures |tracked| == 512 && 516 <= |order|
    ensures exists n <- dir :: dir[n] !in tracked
  {
    TableCount(order, dir, spec.Keys);
    HeapTables(spec.Keys);
    AllRememberedIff(order, dir, tracked);
  }

  /** The two arrays of the plan, as filled by Collect, name the same pages as the listed ranges. */
  lemma InRangesOfListed(plan: Plan, k: nat)
    requires |plan.ranges| == |plan.sizes|
    ensures InRanges(plan, k) <==> exists r <- Pairs(plan.ranges, plan.sizes) :: Touches(r, k)
  {
    hide Touches;
    if exists r <- Pairs(plan.ranges, plan.sizes) :: Touches(r, k) {
      var r :| r in Pairs(plan.ranges, plan.sizes) && Touches(r, k);
      var i :| 0 <= i < |plan.ranges| && r == Range(plan.ranges[i], plan.sizes[i]);
      assert Touches(Range(plan.ranges[i], plan.sizes[i]), k);
    }
    if InRanges(plan, k) {
      var i :| 0 <= i < |plan.ranges| && Touches(Range(plan.ranges[i], plan.sizes[i]), k);
      assert Range(plan.ranges[i], plan.sizes[i]) in Pairs(plan.ranges, plan.sizes);
    }
  }

  /** Every byte of a listed range is at its own address after the switch, unless the kernel's
      virtual range took its page. */
  lemma ListedIsIdentity(mem: Memory, dir: Directory, plan: Plan, t1: seq<u64>, t2: seq<u64>, t3: seq<u64>,
                         range: Range, a: u64)
    requires Addressable(plan) && t1 <= t2 <= t3 && forall t <- t3 :: TablePage(t)
    requires Tree(mem, dir, BootTranslation(plan, t1, t2, t3))
    requires range in Pairs(plan.ranges, plan.sizes) && range.base <= a < range.base + range.size
    requires !IsKernel(plan, PageNo(a))
    ensures var x := Walk(mem, dir[ROOT], a);
            && x.Some? && x.value.phys == a
            && (x.value.flags == RW || (IsDevice(plan, PageNo(a)) && x.value.flags == RW + UNCACHED))
  {
    hide BootTranslation, PageTables.Tree, PageTables.Walk, IsDevice, IsTable, IsKernel, InRanges, TablePage, Pairs;
    var k := PageNo(a);
    PageOfListed(plan, range, a);
    PageTables.WalkRefinesTranslation(mem, dir, BootTranslation(plan, t1, t2, t3), a);
    BootTranslationMeaning(plan, t1, t2, t3, k);
  }

  /** The byte ranges efi_main lists, in numbers: the first 5 MiB, 1 GiB of heap from 64 MiB on, the
      kernel's image, its stack of 512 KiB, the BootInfo page, 256 KiB for the memory map, the
      trampoline, the ramdisk, 16 KiB from the page of the ACPI root pointer on, and the loader. */
  predicate Kept(r: Regions, a: nat) {
    || a < 0x50_0000 || 0x400_0000 <= a < 0x4400_0000
    || r.kernelPhys <= a < r.kernelPhys + r.kernelSpan
    || (r.stackPhys != 0 && r.stackPhys <= a < r.stackPhys + 0x8_0000)
    || r.bootInfoPhys <= a < r.bootInfoPhys + 0x1000
    || r.memMapPhys <= a < r.memMapPhys + 0x4_0000
    || r.trampolinePhys <= a < r.trampolinePhys + r.trampolineBytes
    || (r.ramdiskPhys != 0 && r.ramdiskPhys <= a < r.ramdiskPhys + r.ramdiskSize)
    || (r.rsdp != 0 && r.rsdp / 4096 * 4096 <= a < r.rsdp / 4096 * 4096 + 0x4000)
    || (r.loader.Some? && r.loader.value.base <= a < r.loader.value.base + Max(r.loader.value.size, 0x1_0000))
  }

  lemma KeptIsListed(r: Regions, a: nat)
    ensures Kept(r, a) <==> exists x <- RangeList(r) :: x.base <= a < x.base + x.size
  {
    RangeListMembers(r);
    hide RangeList;
    assert Range(0, 0x10_0000) in AlwaysListed(r) && Range(0x10_0000, 0x40_0000) in AlwaysListed(r);
    assert Range(0x400_0000, 0x4000_0000) in AlwaysListed(r) && Range(r.kernelPhys, r.kernelSpan) in AlwaysListed(r);
    assert Range(r.bootInfoPhys, 0x1000) in AlwaysListed(r) && Range(r.memMapPhys, 0x4_0000) in AlwaysListed(r);
    assert Range(r.trampolinePhys, r.trampolineBytes) in AlwaysListed(r);
    assert r.stackPhys != 0 ==> Range(r.stackPhys, 0x8_0000) in ListedIfPresent(r);
    assert r.ramdiskPhys != 0 && r.ramdiskSize != 0 ==> Range(r.ramdiskPhys, r.ramdiskSize) in ListedIfPresent(r);
    assert r.rsdp != 0 ==> Range(AlignDown(r.rsdp), 0x4000) in ListedIfPresent(r);
    assert r.loader.Some? ==>
        Range(r.loader.value.base, Max(r.loader.value.size, 0x1_0000)) in ListedIfPresent(r);
  }

  lemma TouchedByte(x: Range, k: nat)
    ensures Touches(x, k) <==> exists a: nat :: x.base <= a < x.base + x.size && a / PAGE_SIZE == k
  {
    if Touches(x, k) {
      var a := Max(x.base, k * PAGE_SIZE);
      assert x.base <= a < x.base + x.size && a / PAGE_SIZE == k;
    }
  }

  /** The pages of the identity ranges are those that hold a byte to be kept. */
  lemma InRangesKept(r: Regions, kernelMinVaddr: u64, framebuffer: Range, k: nat)
    ensures InRanges(BootPlan(r, kernelMinVaddr, framebuffer), k) <==> exists a: nat :: Kept(r, a) && a / PAGE_SIZE == k
  {
    hide Kept, RangeList, Touches, InRanges, Pairs;
    var plan := BootPlan(r, kernelMinVaddr, framebuffer);
    PairsOfList(RangeList(r));
    InRangesOfListed(plan, k);
    if InRanges(plan, k) {
      var x :| x in RangeList(r) && Touches(x, k);
      TouchedByte(x, k);
      var a: nat :| x.base <= a < x.base + x.size && a / PAGE_SIZE == k;
      KeptIsListed(r, a);
    }
    if a: nat :| Kept(r, a) && a / PAGE_SIZE == k {
      KeptIsListed(r, a);
      var x :| x in RangeList(r) && x.base <= a < x.base + x.size;
      TouchedByte(x, k);
    }
  }

  /** So after the switch every byte of these ranges is at its own address, unless the kernel's
      virtual range took its page. */
  lemma KeptAtItself(mem: Memory, dir: Directory, r: Regions, kernelMinVaddr: u64, framebuffer: Range,
                     t1: seq<u64>, t2: seq<u64>, t3: seq<u64>, a: u64)
    requires var plan := BootPlan(r, kernelMinVaddr, framebuffer);
             Addressable(plan) && Tree(mem, dir, BootTranslation(plan, t1, t2, t3)) && !IsKernel(plan, PageNo(a))
    requires t1 <= t2 <= t3 && (forall t <- t3 :: TablePage(t)) && Kept(r, a)
    ensures Walk(mem, dir[ROOT], a).Some? && Walk(mem, dir[ROOT], a).value.phys == a
  {
    hide BootTranslation, PageTables.Tree, PageTables.Walk, IsKernel, Kept, TablePage, PageNo, Addressable, RangeList;
    hide Pairs;
    var plan := BootPlan(r, kernelMinVaddr, framebuffer);
    KeptIsListed(r, a);
    var range :| range in RangeList(r) && range.base <= a < range.base + range.size;
    PairsOfList(RangeList(r));
    ListedIsIdentity(mem, dir, plan, t1, t2, t3, range, a);
  }

  lemma PageOfListed(plan: Plan, range: Range, a: u64)
    requires Addressable(plan) && range in Pairs(plan.ranges, plan.sizes) && range.base <= a < range.base + range.size
    ensures InRanges(plan, PageNo(a)) && PageNo(a) * PAGE_SIZE + a % PAGE_SIZE == a
  {
    assert range.base + range.size <= PHYS_LIMIT;
    assert PageNo(a) == a / PAGE_SIZE;
    assert Touches(range, PageNo(a));
  }

  /** A forgotten table is reachable after the switch exactly when its page happens to lie in an
      identity range, in device memory or in the kernel's virtual range. */
  lemma ForgottenTableMappedIff(plan: Plan, t1: seq<u64>, t2: seq<u64>, t3: seq<u64>, t: u64)
    requires Addressable(plan) && t1 <= t2 <= t3 && forall u <- t3 :: TablePage(u)
    requires TablePage(t) && t !in t3
    ensures PageNo(t) in BootTranslation(plan, t1, t2, t3) <==>
            MappedAnyway(plan, PageNo(t))
  {
    hide BootTranslation, IsDevice, PageAt, LeafAt, InRanges, RangePages, PageTables.AlignDown;
    TablePageNo(t);
    forall u <- t3 ensures PageNo(u) != PageNo(t) {
      TablePageNo(u);
    }
    BootTranslationMeaning(plan, t1, t2, t3, PageNo(t));
  }

  /** A table page is identity mapped, so that its entries can be reached at their own address. */
  predicate AtItself(spec: Translation, t: u64) { PageNo(t) in spec && spec[PageNo(t)].frame == t }

  /** A forgotten table is identity mapped exactly when its page is device memory, or else the
      kernel's virtual range leads it to itself, or else that range leaves it to an identity range. */
  lemma ForgottenTableIdentityIff(plan: Plan, t1: seq<u64>, t2: seq<u64>, t3: seq<u64>, t: u64)
    requires Addressable(plan) && t1 <= t2 <= t3 && forall u <- t3 :: TablePage(u)
    requires TablePage(t) && t !in t3
    ensures AtItself(BootTranslation(plan, t1, t2, t3), t) <==> IdentityAnyway(plan, PageNo(t))
  {
    hide BootTranslation, IsDevice, PageAt, LeafAt, InRanges, RangePages, PageTables.AlignDown;
    var k := PageNo(t);
    TablePageNo(t);
    forall u <- t3 ensures PageNo(u) != PageNo(t) {
      TablePageNo(u);
    }
    BootTranslationMeaning(plan, t1, t2, t3, k);
    if IsKernel(plan, k) && !IsDevice(plan, k) {
      var i: nat :| i < RangePages(plan.kernelVirt, plan.kernelSpan) && PageAt(AlignDown(plan.kernelVirt), i) == k;
      assert LookUp(BootTranslation(plan, t1, t2, t3), k) == Some(LeafAt(AlignDown(plan.kernelPhys), i, RW));
    }
  }

  lemma RememberedAtItself(plan: Plan, t1: seq<u64>, t2: seq<u64>, t3: seq<u64>, t: u64)
    requires Addressable(plan) && t1 <= t2 <= t3 && (forall u <- t3 :: TablePage(u)) && t in t3
    ensures AtItself(BootTranslation(plan, t1, t2, t3), t)
  {
    hide BootTranslation, IsDevice, IsKernel, InRanges, RangePages, PageTables.AlignDown;
    TablePageNo(t);
    BootTranslationMeaning(plan, t1, t2, t3, PageNo(t));
  }

  /** Table number j of the boot is page j of the firmware's pool. */
  lemma TableOfPool(builder: PageTableBuilder, plan: Plan, pool: seq<u64>, j: nat)
    requires Booted(builder, plan, pool) && j < |builder.order|
    ensures |builder.order| <= |pool| && builder.order[j] in builder.dir
    ensures builder.dir[builder.order[j]] == pool[j] && TablePage(pool[j])
    ensures pool[j] in Remembered(pool) <==> j < 512
  {
    hide BootTranslation, HeapListed, Addressable, PageTables.NodesOf, Keeps, Apart;
    var order, dir := builder.order, builder.dir;
    builder.PagesTaken();
    if j < MAX_PT_PAGES {
      assert Remembered(pool)[j] == pool[j];
    } else {
      forall i | 0 <= i < MAX_PT_PAGES ensures pool[i] != pool[j] {
        assert dir[order[i]] == pool[i] && dir[order[j]] == pool[j] && order[i] != order[j];
      }
    }
  }

  /** The tables from number 512 on are forgotten, and there are some; each is mapped exactly when
      its page lies in one of the regions mapped for another reason. */
  lemma ForgottenTables(builder: PageTableBuilder, plan: Plan, pool: seq<u64>, j: nat)
    requires Booted(builder, plan, pool) && 512 <= j < |builder.order|
    ensures |builder.order| <= |pool|
    ensures PageNo(pool[j]) in builder.spec <==> MappedAnyway(plan, PageNo(pool[j]))
    ensures AtItself(builder.spec, pool[j]) <==> IdentityAnyway(plan, PageNo(pool[j]))
  {
    hide BootTranslation, HeapListed, PageTables.Tree, FreshPages, Drawn, PageTables.NodesOf, Keeps, Apart;
    hide Lists, Remembers, MappedAnyway, IdentityAnyway, TablePage, PageTables.PageNo;
    TableOfPool(builder, plan, pool, j);
    builder.TrackedAreTables();
    ForgottenTableMappedIff(plan, Remembered(pool), Remembered(pool), Remembered(pool), pool[j]);
    ForgottenTableIdentityIff(plan, Remembered(pool), Remembered(pool), Remembered(pool), pool[j]);
  }

  /** The claim that the active tree is identity mapped holds exactly when every page the firmware
      gave after the first 512 is identity mapped for another reason. */
  lemma AllTablesIdentityIff(builder: PageTableBuilder, plan: Plan, pool: seq<u64>)
    requires Booted(builder, plan, pool)
    ensures 516 <= |builder.order| <= |pool|
    ensures (forall n <- builder.dir :: AtItself(builder.spec, builder.dir[n])) <==>
            forall j | 512 <= j < |builder.order| :: IdentityAnyway(plan, PageNo(pool[j]))
  {
    hide BootTranslation, PageTables.Tree, FreshPages, Drawn, PageTables.NodesOf, Keeps, Apart, Remembers;
    hide AtItself, IdentityAnyway, TablePage, PageTables.PageNo, HeapListed;
    BootedHeap(builder, plan, pool);
    forall j | 0 <= j < |builder.order|
      ensures builder.order[j] in builder.dir && builder.dir[builder.order[j]] == pool[j]
      ensures AtItself(builder.spec, pool[j]) <==> (j < 512 || IdentityAnyway(plan, PageNo(pool[j])))
    {
      TableOfPool(builder, plan, pool, j);
      if j < MAX_PT_PAGES {
        builder.TrackedAreTables();
        RememberedAtItself(plan, Remembered(pool), Remembered(pool), Remembered(pool), pool[j]);
      } else {
        ForgottenTables(builder, plan, pool, j);
      }
    }
    forall n <- builder.dir ensures exists j :: 0 <= j < |builder.order| && builder.order[j] == n {}
  }

  /** Weaker: it is mapped at all, if only to something else, exactly when every such page lies in
      some region mapped for another reason. */
  lemma AllTablesMappedIff(builder: PageTableBuilder, plan: Plan, pool: seq<u64>)
    requires Booted(builder, plan, pool)
    ensures 516 <= |builder.order| <= |pool|
    ensures (forall n <- builder.dir :: PageNo(builder.dir[n]) in builder.spec) <==>
            forall j | 512 <= j < |builder.order| ::
              MappedAnyway(plan, PageNo(pool[j]))
  {
    hide BootTranslation, PageTables.Tree, FreshPages, Drawn, PageTables.NodesOf, Keeps, Apart, Remembers;
    hide MappedAnyway, TablePage, PageTables.PageNo, HeapListed;
    BootedHeap(builder, plan, pool);
    forall j | 0 <= j < |builder.order|
      ensures builder.order[j] in builder.dir && builder.dir[builder.order[j]] == pool[j]
      ensures PageNo(pool[j]) in builder.spec <==> (j < 512 || MappedAnyway(plan, PageNo(pool[j])))
    {
      TableOfPool(builder, plan, pool, j);
      if j < MAX_PT_PAGES {
        RememberedMapped(builder, plan, pool, pool[j]);
      } else {
        ForgottenTables(builder, plan, pool, j);
      }
    }
    forall n <- builder.dir ensures exists j :: 0 <= j < |builder.order| && builder.order[j] == n {}
  }

  lemma BootedHeap(builder: PageTableBuilder, plan: Plan, pool: seq<u64>)
    requires Booted(builder, plan, pool)
    ensures 516 <= |builder.order| <= |pool|
  {
    hide BootTranslation, PageTables.Tree, FreshPages, Lists, Remembers, Drawn, PageTables.NodesOf, Keeps, Apart;
    hide RangesPages, PagesOfRange, MapsHeap;
    BootKeys(plan, Remembered(pool), Remembered(pool), Remembered(pool));
    HeapStays(RangesPages(plan.ranges, plan.sizes, |plan.ranges|), builder.spec.Keys);
    HeapFillsMemory(builder);
  }

  lemma RememberedMapped(builder: PageTableBuilder, plan: Plan, pool: seq<u64>, t: u64)
    requires Booted(builder, plan, pool) && t in Remembered(pool)
    ensures PageNo(t) in builder.spec
  {
    hide BootTranslation, PageTables.Tree, FreshPages, Lists, Remembers, Drawn, PageTables.NodesOf, Keeps, Apart;
    hide RangesPages, PagesOfRange, PageTables.PageNo, DevicePages;
    BootKeys(plan, Remembered(pool), Remembered(pool), Remembered(pool));
  }

  /** When the firmware takes table pages from outside those regions, a successful boot leaves
      the table on its page number 512 unmapped. */
  lemma SomeTableUnmapped(builder: PageTableBuilder, plan: Plan, pool: seq<u64>)
    requires Booted(builder, plan, pool)
    requires forall p <- pool :: !MappedAnyway(plan, PageNo(p))
    ensures exists n <- builder.dir :: PageNo(builder.dir[n]) !in builder.spec
    ensures 512 < |pool| && PageNo(pool[512]) !in builder.spec
  {
    hide BootTranslation, PageTables.Tree, FreshPages, Lists, Remembers, Drawn, PageTables.NodesOf, Keeps, Apart;
    hide MappedAnyway, TablePage, PageTables.PageNo, HeapListed;
    BootedHeap(builder, plan, pool);
    TableOfPool(builder, plan, pool, 512);
    ForgottenTables(builder, plan, pool, 512);
  }
}

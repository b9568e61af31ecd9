/** From the PE file to the bytes the kernel sees: conversion, loading and mapping composed. */
module KernelImage {
  import opened Words
  import opened Bytes
  import opened PeFile
  import opened ElfFile
  import opened PeToElf
  import opened ElfLoader
  import PT = PageTables
  import Mappings
  import opened BootMapping
  import opened Paging
  import opened PhysicalMemory

  // ---------------------------------------------------------------------
  // The loader reads the converter's headers
  // ---------------------------------------------------------------------

  /** The loader accepts an emitted file and finds in it exactly the segments built. */
  lemma EmittedIsLoadable(pe: bytes, imageBase: u64, entry: u64, secs: seq<Section>,
                          answer: Option<Pages>)
    requires secs != [] && Fits(imageBase, secs)
    ensures var elf := Emitted(pe, imageBase, entry, secs, |secs|);
            LoadSpec(elf, true, answer)
            == LoadSegments(elf, entry, Segments(pe, imageBase, secs, |secs|), answer)
  {
    hide Emitted, LoadSegments, EhdrAt, PhdrAt, FileOffset, Segment;
    var elf, h := Emitted(pe, imageBase, entry, secs, |secs|), Header(entry, |secs|);
    var phdrs := Segments(pe, imageBase, secs, |secs|);
    EmittedHeaders(pe, imageBase, entry, secs, 0);
    assert TableSize(h) == PHDR_SIZE * |secs|;
    var table := elf[EHDR_SIZE..EHDR_SIZE + PHDR_SIZE * |secs|];
    assert ReadAt(elf, h.phoff, TableSize(h)) == Some(table);
    forall i | 0 <= i < |secs| ensures PhdrTable(table, h)[i] == phdrs[i] {
      EmittedHeaders(pe, imageBase, entry, secs, i);
      StrideInside(i, |secs|, PHDR_SIZE);
      PartOfSlice(elf, EHDR_SIZE, table, PHDR_SIZE * i, PHDR_SIZE * i + PHDR_SIZE);
      PhdrRoundTrip(table, PHDR_SIZE * i, phdrs[i]);
    }
    assert PhdrTable(table, h) == phdrs;
  }

  // ---------------------------------------------------------------------
  // PE sections as memory
  // ---------------------------------------------------------------------

  /** The bytes of memory a section occupies once loaded. */
  function MemorySize(pe: bytes, s: Section): nat { Max(RawSize(pe, s), s.vsize) }

  /** Byte k of a loaded section: the byte of the PE file k places into its raw data, then zeros. */
  function SectionByte(pe: bytes, s: Section, k: nat): byte {
    if k < s.rawSize && s.rawPtr + k < |pe| then pe[s.rawPtr + k] else 0
  }

  /** Section ranges stay below 2^64 and do not overlap. */
  ghost predicate Separate(pe: bytes, imageBase: u64, secs: seq<Section>) {
    && (forall s <- secs :: imageBase + s.vaddr + MemorySize(pe, s) < TWO_64)
    && (forall i, j | 0 <= i < j < |secs| ::
          || secs[i].vaddr + MemorySize(pe, secs[i]) <= secs[j].vaddr
          || secs[j].vaddr + MemorySize(pe, secs[j]) <= secs[i].vaddr)
  }

  lemma SeparateSegments(pe: bytes, imageBase: u64, secs: seq<Section>)
    requires Fits(imageBase, secs) && Separate(pe, imageBase, secs)
    ensures WellSized(Segments(pe, imageBase, secs, |secs|))
    ensures Disjoint(Segments(pe, imageBase, secs, |secs|))
  {
    hide FileOffset, Data, Flags;
    var phdrs := Segments(pe, imageBase, secs, |secs|);
    forall i | 0 <= i < |phdrs|
      ensures phdrs[i].vaddr + phdrs[i].memsz < TWO_64 && phdrs[i].filesz <= phdrs[i].memsz
    {
      assert phdrs[i] == Segment(pe, imageBase, secs, i) && secs[i] in secs;
      DataMeaning(pe, secs[i], 0);
    }
    forall i, j | 0 <= i < j < |phdrs|
      ensures phdrs[i].vaddr + phdrs[i].memsz <= phdrs[j].vaddr || phdrs[j].vaddr + phdrs[j].memsz <= phdrs[i].vaddr
    {
      assert phdrs[i] == Segment(pe, imageBase, secs, i) && phdrs[j] == Segment(pe, imageBase, secs, j);
      DataMeaning(pe, secs[i], 0);
      DataMeaning(pe, secs[j], 0);
    }
  }

  /** After conversion and loading, the image holds every section at its own address:
      raw bytes, then zeros to its virtual size. */
  lemma LoadedSection(pe: bytes, imageBase: u64, entry: u64, secs: seq<Section>,
                      answer: Option<Pages>, i: nat, k: nat)
    requires Fits(imageBase, secs) && Separate(pe, imageBase, secs)
    requires i < |secs| && k < MemorySize(pe, secs[i])
    requires LoadSpec(Emitted(pe, imageBase, entry, secs, |secs|), true, answer).0.Loaded?
    ensures var (r, memory) := LoadSpec(Emitted(pe, imageBase, entry, secs, |secs|), true, answer);
            var v := imageBase + secs[i].vaddr + k;
            && r.minVaddr <= v < r.minVaddr + r.totalSize <= TWO_64 - 1 && r.totalSize <= |memory|
            && answer.Some? && answer.value.physBase == r.physBase
            && memory[v - r.minVaddr] == SectionByte(pe, secs[i], k)
            && (k < secs[i].rawSize && secs[i].rawPtr + k < |pe| ==> memory[v - r.minVaddr] == pe[secs[i].rawPtr + k])
            && (k >= secs[i].rawSize ==> memory[v - r.minVaddr] == 0)
  {
    hide Emitted, LoadSegments, LoadSpec, FileOffset, Flags, MinVaddr, MaxVaddr, Separate, WellSized, Disjoint, Fits;
    hide FileCovers, Segments, Segment, Data, EhdrAt, PhdrAt, MemorySize;
    hide FillSegments, Zeroed, NumPages, TotalSize;
    var elf := Emitted(pe, imageBase, entry, secs, |secs|);
    var phdrs := Segments(pe, imageBase, secs, |secs|);
    EmittedIsLoadable(pe, imageBase, entry, secs, answer);
    SeparateSegments(pe, imageBase, secs);
    LoadedSpan(elf, entry, phdrs, answer);
    var v := SectionAddress(pe, imageBase, secs, i, k);
    LoadedImage(elf, entry, phdrs, answer, v);
    SectionByteInFile(pe, imageBase, entry, secs, i, k);
  }

  /** Byte k of a section is in the emitted file, or it is 0. */
  lemma SectionByteInFile(pe: bytes, imageBase: u64, entry: u64, secs: seq<Section>, i: nat, k: nat)
    requires Fits(imageBase, secs) && i < |secs|
    ensures |Segments(pe, imageBase, secs, |secs|)| == |secs|
    ensures var elf := Emitted(pe, imageBase, entry, secs, |secs|);
            var ph := Segments(pe, imageBase, secs, |secs|)[i];
            && (k < RawSize(pe, secs[i]) ==>
                  ph.offset + k < |elf| && elf[ph.offset + k] == SectionByte(pe, secs[i], k))
            && (k >= RawSize(pe, secs[i]) ==> SectionByte(pe, secs[i], k) == 0)
  {
    hide Emitted, FileOffset, Flags, Data, EhdrAt, PhdrAt, Fits;
    SegmentCount(pe, imageBase, secs);
    DataMeaning(pe, secs[i], k);
    if k < RawSize(pe, secs[i]) {
      EmittedByte(pe, imageBase, entry, secs, i, k);
    }
  }

  /** The address of byte k of section i: inside the span, in the file part of segment i
      when it is raw data, and in the file part of no segment otherwise. */
  lemma SectionAddress(pe: bytes, imageBase: u64, secs: seq<Section>, i: nat, k: nat) returns (v: u64)
    requires Fits(imageBase, secs) && Separate(pe, imageBase, secs)
    requires i < |secs| && k < MemorySize(pe, secs[i])
    ensures var phdrs := Segments(pe, imageBase, secs, |secs|);
            && v == imageBase + secs[i].vaddr + k
            && |phdrs| == |secs| && phdrs[i].vaddr == imageBase + secs[i].vaddr
            && MinVaddr(phdrs) <= v < MaxVaddr(phdrs)
            && (FileCovers(phdrs[i], v) <==> k < RawSize(pe, secs[i]))
            && (k >= RawSize(pe, secs[i]) ==> forall q <- phdrs :: !FileCovers(q, v))
  {
    hide FileOffset, Data, RawSize, Flags, MinVaddr, MaxVaddr, SegmentEnd;
    var phdrs := Segments(pe, imageBase, secs, |secs|);
    assert phdrs[i] == Segment(pe, imageBase, secs, i) && secs[i] in secs && phdrs[i] in phdrs;
    v := imageBase + secs[i].vaddr + k;
    DataMeaning(pe, secs[i], k);
    SpanBounds(phdrs);
    SectionEnd(pe, imageBase, secs, i);
    if k >= RawSize(pe, secs[i]) {
      forall j | 0 <= j < |phdrs| ensures !FileCovers(phdrs[j], v) {
        OtherSegments(pe, imageBase, secs, i, k, j);
      }
    }
  }

  lemma SectionEnd(pe: bytes, imageBase: u64, secs: seq<Section>, i: nat)
    requires Fits(imageBase, secs) && Separate(pe, imageBase, secs) && i < |secs|
    ensures SegmentEnd(Segment(pe, imageBase, secs, i)) == imageBase + secs[i].vaddr + MemorySize(pe, secs[i])
  {
    hide FileOffset, Data, RawSize, Flags;
    DataMeaning(pe, secs[i], 0);
    assert secs[i] in secs;
  }

  lemma OtherSegments(pe: bytes, imageBase: u64, secs: seq<Section>, i: nat, k: nat, j: nat)
    requires Fits(imageBase, secs) && Separate(pe, imageBase, secs)
    requires i < |secs| && j < |secs| && RawSize(pe, secs[i]) <= k < MemorySize(pe, secs[i])
    ensures !FileCovers(Segment(pe, imageBase, secs, j), imageBase + secs[i].vaddr + k)
  {
    hide FileOffset, Data, Flags;
    DataMeaning(pe, secs[j], k);
    assert i < j || j < i || i == j;
  }

  lemma EmittedByte(pe: bytes, imageBase: u64, entry: u64, secs: seq<Section>, i: nat, k: nat)
    requires Fits(imageBase, secs) && i < |secs| && k < RawSize(pe, secs[i])
    ensures var elf := Emitted(pe, imageBase, entry, secs, |secs|);
            var ph := Segments(pe, imageBase, secs, |secs|)[i];
            ph.offset + k < |elf| && elf[ph.offset + k] == SectionByte(pe, secs[i], k)
  {
    hide Emitted, FileOffset, Flags, Data, EhdrAt, PhdrAt;
    EmittedFile(pe, imageBase, entry, secs, i);
    DataMeaning(pe, secs[i], k);
    var elf := Emitted(pe, imageBase, entry, secs, |secs|);
    var ph := Segment(pe, imageBase, secs, i);
    assert elf[ph.offset..ph.offset + ph.filesz][k] == elf[ph.offset + k];
  }

  // ---------------------------------------------------------------------
  // Through the page tables
  // ---------------------------------------------------------------------

  /** The kernel range and its backing end before the last page of their address spaces. */
  predicate NoWrap(plan: Plan) {
    && plan.kernelVirt + plan.kernelSpan + PAGE_SIZE <= TWO_64
    && plan.kernelPhys + plan.kernelSpan + 2 * PAGE_SIZE <= TWO_64
  }

  lemma KernelIteration(plan: Plan, v: u64) returns (i: nat)
    requires NoWrap(plan) && plan.kernelVirt <= v < plan.kernelVirt + plan.kernelSpan
    ensures i < Mappings.RangePages(plan.kernelVirt, plan.kernelSpan)
    ensures Mappings.PageAt(PT.AlignDown(plan.kernelVirt), i) == PT.PageNo(v)
    ensures var leaf := Mappings.LeafAt(PT.AlignDown(plan.kernelPhys), i, Mappings.RW);
            leaf.frame + v % PAGE_SIZE == PT.AlignDown(plan.kernelPhys) + (v - PT.AlignDown(plan.kernelVirt))
  {
    var start := PT.AlignDown(plan.kernelVirt);
    var a, b, e := v / PAGE_SIZE, start / PAGE_SIZE, Mappings.EndOf(plan.kernelVirt, plan.kernelSpan);
    assert start == b * PAGE_SIZE && e % PAGE_SIZE == 0;
    i := a - b;
    assert start + PAGE_SIZE * i == a * PAGE_SIZE;
    assert e >= plan.kernelVirt + plan.kernelSpan > v;
    assert a < e / PAGE_SIZE && Mappings.RangePages(plan.kernelVirt, plan.kernelSpan) == e / PAGE_SIZE - b;
    var p: int := PT.AlignDown(plan.kernelPhys) + PAGE_SIZE * i;
    assert p < TWO_64;
  }

  /** Reading a kernel address through the finished tables reaches the backing of its page. */
  lemma KernelWalk(mem: PT.Memory, dir: PT.Directory, plan: Plan, t1: seq<u64>, t2: seq<u64>, t3: seq<u64>, v: u64)
    requires Addressable(plan) && NoWrap(plan) && t1 <= t2 <= t3
    requires forall t <- t3 :: Mappings.TablePage(t)
    requires PT.Tree(mem, dir, BootTranslation(plan, t1, t2, t3))
    requires plan.kernelVirt <= v < plan.kernelVirt + plan.kernelSpan
    requires !IsTable(t3, PT.PageNo(v)) && !IsDevice(plan, PT.PageNo(v))
    ensures PT.Walk(mem, dir[PT.ROOT], v)
            == Some(PT.Access(PT.AlignDown(plan.kernelPhys) + (v - PT.AlignDown(plan.kernelVirt)), Mappings.RW))
  {
    hide BootTranslation, PT.Tree, PT.Walk, IsDevice, IsTable, Mappings.RangePages, Mappings.PageAt, Mappings.LeafAt;
    hide PT.PageNo, NoWrap, PT.AlignDown;
    var k := PT.PageNo(v);
    PT.WalkRefinesTranslation(mem, dir, BootTranslation(plan, t1, t2, t3), v);
    var i := KernelIteration(plan, v);
    BootTranslationMeaning(plan, t1, t2, t3, k);
    assert LookUp(BootTranslation(plan, t1, t2, t3), k)
        == Some(Mappings.LeafAt(PT.AlignDown(plan.kernelPhys), i, Mappings.RW));
    LeafFlags(PT.AlignDown(plan.kernelPhys), i);
  }

  lemma LeafFlags(p: u64, i: nat)
    ensures Mappings.LeafAt(p, i, Mappings.RW).flags == Mappings.RW
  {
  }

  /** The boot's use of a loaded image: pages of the firmware, mapped at the lowest load address. */
  ghost predicate Backs(plan: Plan, r: Outcome) {
    && r.Loaded? && r.physBase % PAGE_SIZE == 0
    && plan.kernelVirt == r.minVaddr && plan.kernelPhys == r.physBase && plan.kernelSpan == r.totalSize
  }

  /** The image is in physical memory, in the pages it was loaded into. */
  ghost predicate InMemory(mem: PT.Memory, base: u64, image: bytes) {
    WholePages(base, image) && Keeps(mem, PagesHolding(base, image))
  }

  /** Any address of the kernel's range is read from the image, displaced by as much as the lowest
      loaded address lies above its page: the mapping rounds it down, the loader does not. */
  lemma KernelRead(mem: PT.Memory, dir: PT.Directory, plan: Plan, t1: seq<u64>, t2: seq<u64>, t3: seq<u64>,
                   r: Outcome, memory: bytes, v: u64)
    requires Addressable(plan) && NoWrap(plan) && t1 <= t2 <= t3
    requires forall t <- t3 :: Mappings.TablePage(t)
    requires PT.Tree(mem, dir, BootTranslation(plan, t1, t2, t3))
    requires Backs(plan, r) && InMemory(mem, r.physBase, memory)
    requires r.minVaddr <= v < r.minVaddr + r.totalSize
    requires !IsTable(t3, PT.PageNo(v)) && !IsDevice(plan, PT.PageNo(v))
    ensures var at := v - r.minVaddr + r.minVaddr % PAGE_SIZE;
            && PT.Walk(mem, dir[PT.ROOT], v) == Some(PT.Access(r.physBase + at, Mappings.RW))
            && (at < |memory| ==> ReadThrough(mem, dir[PT.ROOT], v) == Some(memory[at]))
  {
    hide BootTranslation, PT.Tree, PT.Walk, IsDevice, IsTable, Addressable, NoWrap, PT.PageNo;
    hide WholePages, Keeps, PagesHolding, ReadByte, Mappings.TablePage;
    KernelWalk(mem, dir, plan, t1, t2, t3, v);
    var at := v - r.minVaddr + r.minVaddr % PAGE_SIZE;
    assert PT.AlignDown(plan.kernelPhys) + (v - PT.AlignDown(plan.kernelVirt)) == r.physBase + at;
    if at < |memory| {
      ImageByte(mem, r.physBase, memory, at);
    }
  }

  lemma ImageByte(mem: PT.Memory, base: u64, image: bytes, k: nat)
    requires InMemory(mem, base, image) && k < |image|
    ensures ReadByte(mem, base + k) == Some(image[k])
  {
    hide ReadByte, PagesHolding;
    HeldByte(mem, base, image, k);
  }

  /** End to end: for every PE file with separate section ranges, after conversion, loading and
      the whole mapping sequence, reading address ImageBase + VA + k through the page tables gives
      the section's raw byte k, or 0 past its raw data, when the lowest loaded address is
      page-aligned; the address reached is the place of that byte exactly then. */
  lemma KernelSeesSections(pe: bytes, customEntry: Option<int>, elf: bytes, img: Image, secs: seq<Section>,
                           pages: Pages, r: Outcome, memory: bytes,
                           mem: PT.Memory, dir: PT.Directory, plan: Plan,
                           t1: seq<u64>, t2: seq<u64>, t3: seq<u64>, i: nat, k: nat, v: u64)
    requires Parsed(pe) == Ok(img) && secs == Loadable(img.sections)
    requires Converted(pe, customEntry) == Ok(elf)
    requires LoadSpec(elf, true, Some(pages)) == (r, memory)
    requires Separate(pe, img.imageBase, secs)
    requires i < |secs| && k < MemorySize(pe, secs[i]) && v == img.imageBase + secs[i].vaddr + k
    requires Backs(plan, r) && InMemory(mem, r.physBase, memory)
    requires Addressable(plan) && NoWrap(plan) && t1 <= t2 <= t3
    requires forall t <- t3 :: Mappings.TablePage(t)
    requires !IsTable(t3, PT.PageNo(v)) && !IsDevice(plan, PT.PageNo(v))
    requires PT.Tree(mem, dir, BootTranslation(plan, t1, t2, t3)) && PT.ROOT in dir
    ensures r.minVaddr <= v && v - r.minVaddr < |memory| && memory[v - r.minVaddr] == SectionByte(pe, secs[i], k)
    ensures var a := PT.Walk(mem, dir[PT.ROOT], v);
            && a.Some? && a.value.flags == Mappings.RW
            && (a.value.phys - pages.physBase == v - r.minVaddr <==> r.minVaddr % PAGE_SIZE == 0)
    ensures r.minVaddr % PAGE_SIZE == 0 ==> ReadThrough(mem, dir[PT.ROOT], v) == Some(SectionByte(pe, secs[i], k))
    ensures r.minVaddr % PAGE_SIZE == 0 && k < secs[i].rawSize && secs[i].rawPtr + k < |pe| ==>
              ReadThrough(mem, dir[PT.ROOT], v) == Some(pe[secs[i].rawPtr + k])
    ensures var at := v - r.minVaddr + r.minVaddr % PAGE_SIZE;
            at < |memory| ==> ReadThrough(mem, dir[PT.ROOT], v) == Some(memory[at])
  {
    hide BootTranslation, PT.Tree, PT.Walk, IsDevice, IsTable, LoadSpec, Emitted, Addressable, NoWrap, Separate, Fits;
    hide Parsed, Data, Loadable, PT.PageNo, MemorySize, InMemory, ReadThrough, Backs;
    hide Mappings.TablePage, Converted;
    BackedSpan(plan, r);
    var w := LoadedByte(pe, customEntry, elf, img, secs, pages, r, memory, i, k);
    KernelRead(mem, dir, plan, t1, t2, t3, r, memory, v);
  }

  /** What a read of byte k of a section finds: the loaded image holds it, and, unless a table
      or a device took the page, reading its address through the page tables gives the byte when
      the lowest loaded address is page-aligned, and otherwise the byte that stands as far above. */
  ghost predicate Seen(pe: bytes, imageBase: u64, s: Section, k: nat, r: Outcome, memory: bytes,
                       mem: PT.Memory, root: u64, plan: Plan, tables: seq<u64>)
  {
    var v := imageBase + s.vaddr + k;
    && r.Loaded? && r.minVaddr <= v < TWO_64
    && v - r.minVaddr < |memory| && memory[v - r.minVaddr] == SectionByte(pe, s, k)
    && (!IsTable(tables, PT.PageNo(v)) && !IsDevice(plan, PT.PageNo(v)) ==>
          var a, at := PT.Walk(mem, root, v), v - r.minVaddr + r.minVaddr % PAGE_SIZE;
          && a.Some? && a.value.flags == Mappings.RW
          && (a.value.phys - r.physBase == v - r.minVaddr <==> r.minVaddr % PAGE_SIZE == 0)
          && (r.minVaddr % PAGE_SIZE == 0 ==> ReadThrough(mem, root, v) == Some(SectionByte(pe, s, k)))
          && (r.minVaddr % PAGE_SIZE == 0 && k < s.rawSize && s.rawPtr + k < |pe| ==>
                ReadThrough(mem, root, v) == Some(pe[s.rawPtr + k]))
          && (at < |memory| ==> ReadThrough(mem, root, v) == Some(memory[at])))
  }

  ghost predicate AllSeen(pe: bytes, imageBase: u64, secs: seq<Section>, r: Outcome, memory: bytes,
                          mem: PT.Memory, root: u64, plan: Plan, tables: seq<u64>)
  {
    forall i, k | 0 <= i < |secs| && 0 <= k < MemorySize(pe, secs[i]) ::
      Seen(pe, imageBase, secs[i], k, r, memory, mem, root, plan, tables)
  }

  lemma EverySectionSeen(pe: bytes, customEntry: Option<int>, elf: bytes, img: Image, secs: seq<Section>,
                         pages: Pages, r: Outcome, memory: bytes,
                         mem: PT.Memory, dir: PT.Directory, plan: Plan, t1: seq<u64>, t2: seq<u64>, t3: seq<u64>)
    requires Parsed(pe) == Ok(img) && secs == Loadable(img.sections)
    requires Converted(pe, customEntry) == Ok(elf)
    requires LoadSpec(elf, true, Some(pages)) == (r, memory)
    requires Separate(pe, img.imageBase, secs)
    requires Backs(plan, r) && InMemory(mem, r.physBase, memory)
    requires Addressable(plan) && NoWrap(plan) && t1 <= t2 <= t3
    requires forall t <- t3 :: Mappings.TablePage(t)
    requires PT.Tree(mem, dir, BootTranslation(plan, t1, t2, t3)) && PT.ROOT in dir
    ensures AllSeen(pe, img.imageBase, secs, r, memory, mem, dir[PT.ROOT], plan, t3)
  {
    hide BootTranslation, PT.Tree, PT.Walk, IsDevice, IsTable, LoadSpec, Addressable, NoWrap, Separate, Backs;
    hide Parsed, Loadable, SectionByte, PT.PageNo, MemorySize, Converted, Mappings.TablePage;
    hide InMemory, ReadThrough;
    BackedSpan(plan, r);
    forall i, k | 0 <= i < |secs| && 0 <= k < MemorySize(pe, secs[i])
      ensures Seen(pe, img.imageBase, secs[i], k, r, memory, mem, dir[PT.ROOT], plan, t3)
    {
      var v := LoadedByte(pe, customEntry, elf, img, secs, pages, r, memory, i, k);
      if !IsTable(t3, PT.PageNo(v)) && !IsDevice(plan, PT.PageNo(v)) {
        KernelSeesSections(pe, customEntry, elf, img, secs, pages, r, memory, mem, dir, plan, t1, t2, t3, i, k, v);
      }
    }
  }

  lemma BackedSpan(plan: Plan, r: Outcome)
    requires Backs(plan, r)
    ensures r.Loaded? && plan.kernelVirt == r.minVaddr && plan.kernelSpan == r.totalSize
    ensures plan.kernelPhys == r.physBase
  {
  }

  lemma LoadedByte(pe: bytes, customEntry: Option<int>, elf: bytes, img: Image, secs: seq<Section>,
                   pages: Pages, r: Outcome, memory: bytes, i: nat, k: nat) returns (v: u64)
    requires Parsed(pe) == Ok(img) && secs == Loadable(img.sections)
    requires Converted(pe, customEntry) == Ok(elf)
    requires LoadSpec(elf, true, Some(pages)) == (r, memory) && r.Loaded?
    requires Separate(pe, img.imageBase, secs) && i < |secs| && k < MemorySize(pe, secs[i])
    ensures v == img.imageBase + secs[i].vaddr + k && r.physBase == pages.physBase
    ensures r.minVaddr <= v < r.minVaddr + r.totalSize <= r.minVaddr + |memory|
    ensures memory[v - r.minVaddr] == SectionByte(pe, secs[i], k)
  {
    hide LoadSpec, Emitted, Separate, Fits, Parsed, Data, Loadable, SectionByte, MemorySize;
    var entry := if customEntry.Some? then customEntry.value else img.imageBase + img.entryRva;
    LoadedSection(pe, img.imageBase, entry, secs, Some(pages), i, k);
    v := img.imageBase + secs[i].vaddr + k;
  }

  // ---------------------------------------------------------------------
  // The whole boot
  // ---------------------------------------------------------------------

  /** The entry offset of a loaded image leads to the entry point of the PE file, or to the caller's. */
  lemma LoadedEntry(pe: bytes, customEntry: Option<int>, elf: bytes, poolOk: bool, answer: Option<Pages>)
    requires Converted(pe, customEntry) == Ok(elf) && LoadSpec(elf, poolOk, answer).0.Loaded?
    ensures var r := LoadSpec(elf, poolOk, answer).0;
            Parsed(pe).Ok? && (r.minVaddr + r.entryOffset) % TWO_64
                              == match customEntry
                                 case Some(e) => e
                                 case None => Parsed(pe).value.imageBase + Parsed(pe).value.entryRva
  {
    hide Parsed, Loadable, Emitted, Fits, EhdrAt, AcceptedHeader, PhdrTable, FillSegments, MinVaddr, MaxVaddr;
    hide TotalSize, Segments;
    var img := Parsed(pe).value;
    var entry: u64 := match customEntry
                      case Some(e) => e
                      case None => img.imageBase + img.entryRva;
    EmittedIsLoadable(pe, img.imageBase, entry, Loadable(img.sections), answer);
    OffsetBack(entry, LoadSpec(elf, poolOk, answer).0.minVaddr);
  }

  lemma OffsetBack(entry: u64, min: u64)
    ensures (min + Wrap64(entry - min)) % TWO_64 == entry
  {
  }

  /** What the firmware promises of its pages: those given for the image are aligned, end inside
      the address space, and are not given again for a table. */
  ghost predicate GivenOnce(base: u64, size: nat, pool: seq<u64>) {
    && base % PAGE_SIZE == 0 && base + size <= TWO_64
    && forall p <- pool :: p + PAGE_SIZE <= base || base + size <= p
  }

  ghost predicate Granted(pe: bytes, customEntry: Option<int>, poolOk: bool, answer: Option<Pages>, pool: seq<u64>) {
    && FreshPages(pool, {})
    && (Converted(pe, customEntry).Ok? ==>
          var (r, memory) := LoadSpec(Converted(pe, customEntry).value, poolOk, answer);
          r.Loaded? ==> GivenOnce(r.physBase, |memory|, pool))
  }

  lemma FreshBesideImage(pool: seq<u64>, base: u64, image: bytes)
    requires FreshPages(pool, {}) && GivenOnce(base, |image|, pool) && |image| % PAGE_SIZE == 0
    ensures WholePages(base, image) && FreshPages(pool, PagesHolding(base, image).Keys)
  {
    hide PageWords;
  }

  /** The kernel's way into memory, as a whole: converted on the build machine, loaded by the boot
      loader into the pages the firmware gives, mapped with every other region by tables in the same
      memory. It succeeds exactly when the image is loaded and the firmware has a page for every
      table; then every byte of every section is read at its address, and so is the entry point. */
  method BootKernel(pe: bytes, customEntry: Option<int>, poolOk: bool, answer: Option<Pages>, pool: seq<u64>,
                    known: Regions, framebuffer: Range)
    returns (ok: bool, builder: PageTableBuilder?, pml4: u64, r: Outcome, image: array<byte>, ghost plan: Plan)
    requires Granted(pe, customEntry, poolOk, answer, pool)
    ensures Converted(pe, customEntry).Ok? ==> r == LoadSpec(Converted(pe, customEntry).value, poolOk, answer).0
    ensures ok ==> Converted(pe, customEntry).Ok? && Parsed(pe).Ok?
    ensures |plan.ranges| == |plan.sizes|
    ensures r.Loaded? ==>
              plan == BootPlan(known.(kernelPhys := r.physBase, kernelSpan := r.totalSize), r.minVaddr, framebuffer)
    ensures ok <==> r.Loaded? && |PT.NodesOf(BootPages(plan, Remembered(pool)))| <= |pool|
    ensures r.Loaded? && |pool| >= ALL_TABLES ==> ok
    ensures ok ==>
              && builder != null && builder.Valid() && pml4 == builder.dir[PT.ROOT] && Backs(plan, r)
              && InMemory(builder.mem, r.physBase, image[..])
    ensures ok && Addressable(plan) ==> Booted(builder, plan, pool)
    ensures ok && Addressable(plan) && NoWrap(plan) ==>
              var img := Parsed(pe).value;
              var secs := Loadable(img.sections);
              Separate(pe, img.imageBase, secs) ==>
                AllSeen(pe, img.imageBase, secs, r, image[..], builder.mem, pml4, plan, builder.Tracked())
    ensures ok ==> (r.minVaddr + r.entryOffset) % TWO_64
                   == match customEntry
                      case Some(e) => e
                      case None => Parsed(pe).value.imageBase + Parsed(pe).value.entryRva
    ensures ok && Addressable(plan) && NoWrap(plan) ==>
              EntryReached(r, image[..], builder.mem, pml4, plan, builder.Tracked())
  {
    hide PT.Tree, FreshPages, Lists, Remembers, Drawn, Keeps, Apart, PT.NodesOf, BootTranslation;
    hide LoadSpec, Parsed, Emitted, Loadable, Fits, Pairs, AlwaysListed, ListedIfPresent, BootPages;
    hide Addressable, NoWrap, Separate, AllSeen, EntryReached, PagesHolding, WholePages, BootPlan, Booted;
    ok, builder, pml4, r, image := false, null, 0, Failed(LoadError), new byte[0];
    plan := Plan([], [], 0, 0, 0, framebuffer);
    var elf := ToElf(pe, customEntry);
    if elf.Err? { return; }
    r, image := LoadElf(elf.value, poolOk, answer);
    if !r.Loaded? { return; }
    LoadedFacts(elf.value, poolOk, answer);
    LoadedEntry(pe, customEntry, elf.value, poolOk, answer);
    ghost var memory := image[..];
    FreshBesideImage(pool, r.physBase, memory);
    builder := new PageTableBuilder(PagesHolding(r.physBase, image[..]), pool);
    var status;
    ghost var t1, t2;
    status, pml4, plan, t1, t2 :=
      PrepareAddressSpace(builder, known.(kernelPhys := r.physBase), r.totalSize, r.minVaddr, framebuffer);
    ok := status == Success;
    if ok && Addressable(plan) && NoWrap(plan) {
      var img := Parsed(pe).value;
      var secs := Loadable(img.sections);
      builder.TrackedAreTables();
      if Separate(pe, img.imageBase, secs) {
        EverySectionSeen(pe, customEntry, elf.value, img, secs, answer.value, r, memory,
                         builder.mem, builder.dir, plan, t1, t2, builder.Tracked());
      }
      EntryRead(builder.mem, builder.dir, plan, t1, t2, builder.Tracked(), r, memory);
    }
  }

  /** The address the trampoline jumps to leads to the entry point in the pages of the image exactly
      when the lowest loaded address is page-aligned, and its byte is then read there. */
  ghost predicate EntryReached(r: Outcome, memory: bytes, mem: PT.Memory, root: u64, plan: Plan, tables: seq<u64>) {
    && r.Loaded? && r.minVaddr + r.entryOffset < TWO_64 && r.entryOffset < |memory|
    && var v: u64 := r.minVaddr + r.entryOffset;
       !IsTable(tables, PT.PageNo(v)) && !IsDevice(plan, PT.PageNo(v)) ==>
         && PT.Walk(mem, root, v).Some?
         && (PT.Walk(mem, root, v).value.phys == r.physBase + r.entryOffset <==> r.minVaddr % PAGE_SIZE == 0)
         && (r.minVaddr % PAGE_SIZE == 0 ==> ReadThrough(mem, root, v) == Some(memory[r.entryOffset]))
  }

  lemma EntryRead(mem: PT.Memory, dir: PT.Directory, plan: Plan, t1: seq<u64>, t2: seq<u64>, t3: seq<u64>,
                  r: Outcome, memory: bytes)
    requires Addressable(plan) && NoWrap(plan) && t1 <= t2 <= t3
    requires forall t <- t3 :: Mappings.TablePage(t)
    requires PT.Tree(mem, dir, BootTranslation(plan, t1, t2, t3))
    requires Backs(plan, r) && InMemory(mem, r.physBase, memory)
    requires r.entryOffset < r.totalSize <= |memory|
    ensures PT.ROOT in dir && EntryReached(r, memory, mem, dir[PT.ROOT], plan, t3)
  {
    hide BootTranslation, PT.Walk, IsDevice, IsTable, Addressable, PT.PageNo, InMemory, ReadThrough, Mappings.TablePage;
    hide PT.Placed, PT.Injective, PT.Linked, PT.LeavesHold, PT.Covered;
    var v: u64 := r.minVaddr + r.entryOffset;
    if !IsTable(t3, PT.PageNo(v)) && !IsDevice(plan, PT.PageNo(v)) {
      KernelRead(mem, dir, plan, t1, t2, t3, r, memory, v);
    }
  }

  /** A loaded image came from a granted request, spans at least a byte and fills whole pages. */
  lemma LoadedFacts(file: bytes, poolOk: bool, answer: Option<Pages>)
    requires LoadSpec(file, poolOk, answer).0.Loaded?
    ensures poolOk && answer.Some? && LoadSpec(file, poolOk, answer).0.physBase == answer.value.physBase
    ensures LoadSpec(file, poolOk, answer).0.totalSize > 0
    ensures var (r, memory) := LoadSpec(file, poolOk, answer);
            r.entryOffset < r.totalSize <= |memory| == NumPages(r.totalSize) * PAGE_SIZE
  {
    hide EhdrAt, AcceptedHeader, PhdrTable, FillSegments, MinVaddr, MaxVaddr, TotalSize;
  }
}

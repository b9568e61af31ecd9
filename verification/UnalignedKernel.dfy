/** A kernel the pipeline accepts and then misreads: its only section starts one byte above a page. */
module UnalignedKernel {
  import opened Words
  import opened Bytes
  import opened PeFile
  import opened ElfFile
  import opened PeToElf
  import opened ElfLoader
  import PT = PageTables
  import Mappings
  import opened BootMapping
  import opened Paging
  import opened PhysicalMemory
  import opened KernelImage

  const IMAGE_BASE := 0x40_0000

  /** Two bytes, 7 and 9, to be loaded at relative address 1; the entry point is the first. */
  const SECTION := Section(1, 2, 160, 2, 0x6000_0020)

  const IMAGE := Image(IMAGE_BASE, 1, [SECTION])

  function FileHeader(): bytes {
    [0x50, 0x45, 0, 0] + Zeros(2) + Le16(1) + Zeros(12) + Le16(32) + Zeros(2)
  }

  function OptionalHeader(): bytes { Le16(0x20B) + Zeros(14) + Le32(1) + Zeros(4) + Le64(IMAGE_BASE) }

  /** The file: DOS header, PE headers at 64, one section header at 120, data at 160. */
  function Pe(): bytes {
    [0x4D, 0x5A] + Zeros(58) + Le32(64) + FileHeader() + OptionalHeader()
    + SectionHeader(Zeros(8), SECTION, Zeros(12)) + [7, 9]
  }

  lemma Headers()
    ensures |FileHeader()| == 24 && FileHeader()[0..4] == [0x50, 0x45, 0, 0]
    ensures FileHeader()[6..8] == Le16(1) && FileHeader()[20..22] == Le16(32)
    ensures |OptionalHeader()| == 32 && OptionalHeader()[0..2] == Le16(0x20B)
    ensures OptionalHeader()[16..20] == Le32(1) && OptionalHeader()[24..32] == Le64(IMAGE_BASE)
  {
    hide Le16, Le32, Le64;
  }

  lemma Parts()
    ensures var pe := Pe();
            && |pe| == 162 && pe[0..2] == [0x4D, 0x5A] && pe[60..64] == Le32(64)
            && pe[64..88] == FileHeader() && pe[88..120] == OptionalHeader()
            && pe[120..160] == SectionHeader(Zeros(8), SECTION, Zeros(12)) && pe[160..162] == [7, 9]
  {
    hide Le32, FileHeader, OptionalHeader, SectionHeader;
    Headers();
    HeaderSize();
  }

  lemma HeaderSize()
    ensures |SectionHeader(Zeros(8), SECTION, Zeros(12))| == 40
  {
  }

  lemma PeLaidOut()
    ensures LaidOut(Pe(), 64, 32, IMAGE)
  {
    hide Le16, Le32, Le64, Pe, FileHeader, OptionalHeader, SectionHeader;
    var pe := Pe();
    Parts();
    Headers();
    HeaderSize();
    PartOfSlice(pe, 64, FileHeader(), 0, 4);
    PartOfSlice(pe, 64, FileHeader(), 6, 8);
    PartOfSlice(pe, 64, FileHeader(), 20, 22);
    PartOfSlice(pe, 88, OptionalHeader(), 0, 2);
    PartOfSlice(pe, 88, OptionalHeader(), 16, 20);
    PartOfSlice(pe, 88, OptionalHeader(), 24, 32);
    assert At(pe, 120, SectionHeader(Zeros(8), IMAGE.sections[0], Zeros(12)));
  }

  lemma PeParsed()
    ensures Parsed(Pe()) == Ok(IMAGE) && Loadable(IMAGE.sections) == [SECTION] && Data(Pe(), SECTION) == [7, 9]
    ensures SectionByte(Pe(), SECTION, 0) == 7 && SectionByte(Pe(), SECTION, 1) == 9
  {
    hide Pe, Parsed;
    DataMeaning(Pe(), SECTION, 0);
    DataMeaning(Pe(), SECTION, 1);
    PeLaidOut();
    ParsedInvertsLayout(Pe(), 64, 32, IMAGE);
    Parts();
    assert Loadable([]) == [] && IMAGE.sections[..0] == [];
  }

  /** The converter accepts the file. */
  lemma Accepted() returns (elf: bytes)
    ensures Converted(Pe(), None) == Ok(elf) && Fits(IMAGE_BASE, [SECTION])
    ensures elf == Emitted(Pe(), IMAGE_BASE, IMAGE_BASE + 1, [SECTION], 1)
  {
    hide Pe, Parsed, Emitted, Data, Loadable;
    PeParsed();
    elf := Emitted(Pe(), IMAGE_BASE, IMAGE_BASE + 1, [SECTION], 1);
  }

  lemma OneSeparate()
    ensures Separate(Pe(), IMAGE_BASE, [SECTION])
  {
    hide Pe, Parsed, Data, Loadable;
    PeParsed();
    DataMeaning(Pe(), SECTION, 2);
  }

  lemma OneSegment() returns (ph: Phdr)
    ensures Fits(IMAGE_BASE, [SECTION]) && Segments(Pe(), IMAGE_BASE, [SECTION], 1) == [ph]
    ensures ph == Segment(Pe(), IMAGE_BASE, [SECTION], 0) && Loads(ph)
    ensures ph.vaddr == IMAGE_BASE + 1 && ph.memsz == 2
    ensures MinVaddr([ph]) == IMAGE_BASE + 1 && MaxVaddr([ph]) == IMAGE_BASE + 3
  {
    hide Pe, Parsed, Data, Loadable, Flags, FileOffset;
    PeParsed();
    ph := Segment(Pe(), IMAGE_BASE, [SECTION], 0);
    assert [ph][..0] == [] && MinVaddr([]) == TWO_64 - 1 && MaxVaddr([]) == 0;
  }

  lemma SegmentInFile(elf: bytes, ph: Phdr)
    requires elf == Emitted(Pe(), IMAGE_BASE, IMAGE_BASE + 1, [SECTION], 1)
    requires Fits(IMAGE_BASE, [SECTION]) && ph == Segment(Pe(), IMAGE_BASE, [SECTION], 0)
    ensures SegmentsInFile(elf, [ph])
  {
    hide Pe, Emitted, Data, Flags, FileOffset, Segment, Header;
    EmittedFile(Pe(), IMAGE_BASE, IMAGE_BASE + 1, [SECTION], 0);
  }

  /** So does the loader, in whatever pages. */
  lemma AlwaysLoaded(elf: bytes, pages: Pages)
    requires Converted(Pe(), None) == Ok(elf)
    ensures var (r, memory) := LoadSpec(elf, true, Some(pages));
            r.Loaded? && r.minVaddr == IMAGE_BASE + 1 && r.totalSize == 2 && r.physBase == pages.physBase
  {
    hide Pe, Parsed, Emitted, LoadSegments, LoadSpec, Data, Loadable, Segment, Separate, Converted, Fits;
    hide MinVaddr, MaxVaddr, WellSized, Disjoint, SegmentsInFile, Segments;
    var f := Accepted();
    var ph := OneSegment();
    OneSeparate();
    SeparateSegments(Pe(), IMAGE_BASE, [SECTION]);
    EmittedIsLoadable(Pe(), IMAGE_BASE, IMAGE_BASE + 1, [SECTION], Some(pages));
    SegmentInFile(f, ph);
    LoadedAt(f, ph, pages);
  }

  lemma LoadedAt(f: bytes, ph: Phdr, pages: Pages)
    requires WellSized([ph]) && Loads(ph) && SegmentsInFile(f, [ph])
    requires MinVaddr([ph]) == IMAGE_BASE + 1 && MaxVaddr([ph]) == IMAGE_BASE + 3
    ensures var r := LoadSegments(f, IMAGE_BASE + 1, [ph], Some(pages)).0;
            r.Loaded? && r.minVaddr == IMAGE_BASE + 1 && r.totalSize == 2 && r.physBase == pages.physBase
  {
    hide LoadSegments, MinVaddr, MaxVaddr, WellSized, SegmentsInFile, FillSegments, Zeroed;
    WellSizedOutcome(f, IMAGE_BASE + 1, [ph], Some(pages));
    assert ph in [ph];
    LoadedSpan(f, IMAGE_BASE + 1, [ph], Some(pages));
  }

  /** In every successful boot of this file, the byte read through the page tables at the section's
      first address is the section's second byte. */
  lemma FirstByteMisread(elf: bytes, pages: Pages, r: Outcome, memory: bytes, mem: PT.Memory, dir: PT.Directory,
                         plan: Plan, t1: seq<u64>, t2: seq<u64>, t3: seq<u64>, v: u64)
    requires Converted(Pe(), None) == Ok(elf) && LoadSpec(elf, true, Some(pages)) == (r, memory)
    requires v == IMAGE_BASE + SECTION.vaddr
    requires Backs(plan, r) && InMemory(mem, r.physBase, memory)
    requires Addressable(plan) && NoWrap(plan) && t1 <= t2 <= t3
    requires forall t <- t3 :: Mappings.TablePage(t)
    requires !IsTable(t3, PT.PageNo(v)) && !IsDevice(plan, PT.PageNo(v))
    requires PT.Tree(mem, dir, BootTranslation(plan, t1, t2, t3)) && PT.ROOT in dir
    ensures SectionByte(Pe(), SECTION, 0) == 7 && ReadThrough(mem, dir[PT.ROOT], v) == Some(9)
  {
    hide BootTranslation, PT.Tree, PT.Walk, IsDevice, IsTable, LoadSpec, Emitted, Addressable, NoWrap, Fits;
    hide Parsed, Pe, Data, Loadable, PT.PageNo, InMemory, ReadThrough, Backs, Mappings.TablePage, Converted;
    PeParsed();
    AlwaysLoaded(elf, pages);
    OneSeparate();
    var second := LoadedByte(Pe(), None, elf, IMAGE, [SECTION], pages, r, memory, 0, 1);
    KernelSeesSections(Pe(), None, elf, IMAGE, [SECTION], pages, r, memory, mem, dir, plan, t1, t2, t3, 0, 0, v);
  }

  // ---------------------------------------------------------------------
  // One such boot
  // ---------------------------------------------------------------------

  const FIRST_TABLE := 0x10_0000

  /** The image is loaded at 128 MiB, the tables come from 4 GiB on. */
  const PAGES := Pages(0x800_0000, [])

  /** A machine with no ramdisk, no ACPI and no framebuffer. */
  const KNOWN := Regions(0, 0, 0, 0x500_0000, 0x510_0000, 0, 0, 0, None, 0x520_0000, PAGE_SIZE)

  const NO_DISPLAY := Range(0, 0)

  lemma PagesGiven()
    ensures Granted(Pe(), None, true, Some(PAGES), PagesFrom(FIRST_TABLE))
  {
    hide Pe, Converted, LoadSpec, PagesFrom, FreshPages, Emitted, Fits, NumPages;
    AmplePool(FIRST_TABLE);
    var elf := Accepted();
    var (r, memory) := LoadSpec(elf, true, Some(PAGES));
    AlwaysLoaded(elf, PAGES);
    LoadedFacts(elf, true, Some(PAGES));
    TwoBytesOnePage();
    AboveImage(|memory|, PagesFrom(FIRST_TABLE));
  }

  lemma TwoBytesOnePage()
    ensures NumPages(2) == 1
  {
  }

  lemma AboveImage(size: nat, pool: seq<u64>)
    requires size == PAGE_SIZE && forall p <- pool :: FIRST_TABLE * PAGE_SIZE <= p
    ensures GivenOnce(PAGES.physBase, size, pool)
  {
  }

  function PlanOfBoot(): Plan {
    BootPlan(KNOWN.(kernelPhys := PAGES.physBase, kernelSpan := 2), IMAGE_BASE + 1, NO_DISPLAY)
  }

  lemma PlanInBounds()
    ensures Addressable(PlanOfBoot()) && NoWrap(PlanOfBoot())
    ensures Mappings.PagesOfRange(IMAGE_BASE + 1, 2) == {0x400}
  {
    hide Mappings.PageAt;
    KernelPages();
  }

  lemma KernelPages()
    ensures Mappings.RangePages(IMAGE_BASE + 1, 2) == 1
    ensures Mappings.PagesOfRange(IMAGE_BASE + 1, 2) == {0x400}
  {
    Mappings.VisitedNext(IMAGE_BASE, 0);
    assert PT.AlignDown(IMAGE_BASE + 1) == IMAGE_BASE && Mappings.PageAt(IMAGE_BASE, 0) == 0x400;
    assert Mappings.RangePages(IMAGE_BASE + 1, 2) == 1;
    assert Mappings.VisitedPages(IMAGE_BASE, 0) == {};
  }

  /** No page from 4 GiB on is mapped but for holding a remembered table. */
  lemma TablesElsewhere(p: u64)
    requires Mappings.TablePage(p) && p >= FIRST_TABLE * PAGE_SIZE
    ensures PT.PageNo(p) >= FIRST_TABLE && !IdentityAnyway(PlanOfBoot(), PT.PageNo(p))
  {
    hide Mappings.PageAt, Mappings.RangePages;
    Mappings.TablePageNo(p);
    PlanInBounds();
  }

  lemma SeenMisread(r: Outcome, memory: bytes, mem: PT.Memory, root: u64, tables: seq<u64>)
    requires AllSeen(Pe(), IMAGE_BASE, [SECTION], r, memory, mem, root, PlanOfBoot(), tables)
    requires r.Loaded? ==> r.minVaddr == IMAGE_BASE + 1
    requires forall t <- tables :: Mappings.TablePage(t) && t >= FIRST_TABLE * PAGE_SIZE
    ensures SectionByte(Pe(), SECTION, 0) == 7 && ReadThrough(mem, root, IMAGE_BASE + 1) == Some(9)
  {
    hide Pe, Data, ReadThrough, PT.Walk, Mappings.TablePage, Parsed, Loadable;
    PeParsed();
    assert [SECTION][0] == SECTION && MemorySize(Pe(), SECTION) == 2 by { DataMeaning(Pe(), SECTION, 2); }
    assert Seen(Pe(), IMAGE_BASE, [SECTION][0], 0, r, memory, mem, root, PlanOfBoot(), tables);
    assert Seen(Pe(), IMAGE_BASE, [SECTION][0], 1, r, memory, mem, root, PlanOfBoot(), tables);
    assert Seen(Pe(), IMAGE_BASE, SECTION, 0, r, memory, mem, root, PlanOfBoot(), tables);
    assert Seen(Pe(), IMAGE_BASE, SECTION, 1, r, memory, mem, root, PlanOfBoot(), tables);
    forall t <- tables ensures PT.PageNo(t) >= FIRST_TABLE {
      TablesElsewhere(t);
    }
    assert PT.PageNo(IMAGE_BASE + 1) == 0x400;
  }

  /** What the boot promises for this file is a misread byte and a table out of reach. */
  lemma Consequences(builder: PageTableBuilder, r: Outcome, memory: bytes)
    requires Booted(builder, PlanOfBoot(), PagesFrom(FIRST_TABLE)) && builder.Valid() && PT.ROOT in builder.dir
    requires Separate(Pe(), IMAGE_BASE, [SECTION]) ==>
               AllSeen(Pe(), IMAGE_BASE, [SECTION], r, memory, builder.mem, builder.dir[PT.ROOT], PlanOfBoot(),
                       builder.Tracked())
    requires r.Loaded? ==> r.minVaddr == IMAGE_BASE + 1
    ensures SectionByte(Pe(), SECTION, 0) == 7
    ensures ReadThrough(builder.mem, builder.dir[PT.ROOT], IMAGE_BASE + 1) == Some(9)
    ensures exists n <- builder.dir :: !AtItself(builder.spec, builder.dir[n])
  {
    hide Pe, PagesFrom, AllSeen, Separate, PlanOfBoot, AtItself, PT.Tree, Lists, Remembers, Drawn, Keeps, Apart;
    hide FreshPages, Booted, ReadThrough, Mappings.TablePage;
    OneSeparate();
    TableWithoutIdentity(builder);
    SeenMisread(r, memory, builder.mem, builder.dir[PT.ROOT], builder.Tracked());
  }

  lemma TableWithoutIdentity(builder: PageTableBuilder)
    requires Booted(builder, PlanOfBoot(), PagesFrom(FIRST_TABLE))
    ensures exists n <- builder.dir :: !AtItself(builder.spec, builder.dir[n])
    ensures forall t <- builder.Tracked() :: Mappings.TablePage(t) && t >= FIRST_TABLE * PAGE_SIZE
  {
    hide PlanOfBoot, AtItself, IdentityAnyway, PT.Tree, Lists, Remembers, Drawn, Keeps, Apart, FreshPages, PT.PageNo;
    hide BootTranslation, HeapListed, Mappings.TablePage, PT.NodesOf, PagesFrom, Addressable;
    var pool := PagesFrom(FIRST_TABLE);
    AmplePool(FIRST_TABLE);
    builder.TrackedAreTables();
    AllTablesIdentityIff(builder, PlanOfBoot(), pool);
    TableOfPool(builder, PlanOfBoot(), pool, MAX_PT_PAGES);
    assert pool[MAX_PT_PAGES] in pool;
    TablesElsewhere(pool[MAX_PT_PAGES]);
  }

  /** This boot succeeds; it reads 9 where the file's section has 7, and leaves a table of the tree
      it runs on without its identity mapping. */
  method BootUnaligned() returns (ok: bool, builder: PageTableBuilder?, pml4: u64)
    ensures ok && builder != null && builder.Valid() && pml4 == builder.dir[PT.ROOT]
    ensures SectionByte(Pe(), SECTION, 0) == 7
    ensures ReadThrough(builder.mem, pml4, IMAGE_BASE + SECTION.vaddr) == Some(9)
    ensures exists n <- builder.dir :: !AtItself(builder.spec, builder.dir[n])
  {
    hide Pe, Converted, LoadSpec, PagesFrom, Granted, BootPages, Addressable, NoWrap, Booted, AllSeen, BootPlan;
    hide Separate, Parsed, Loadable, Data, PlanOfBoot, FreshPages, Lists, Remembers, Drawn, Keeps, Apart, PT.Tree;
    hide EntryReached, InMemory, Backs, SectionByte, ReadThrough, AtItself, PT.NodesOf, Remembered;
    var r, image;
    ghost var plan;
    ghost var elf := Accepted();
    PagesGiven();
    AlwaysLoaded(elf, PAGES);
    PeParsed();
    PlanInBounds();
    ok, builder, pml4, r, image, plan :=
      BootKernel(Pe(), None, true, Some(PAGES), PagesFrom(FIRST_TABLE), KNOWN, NO_DISPLAY);
    assert plan == PlanOfBoot() by { PlanUsed(r); }
    Consequences(builder, r, image[..]);
  }

  lemma PlanUsed(r: Outcome)
    requires r.Loaded? && r.physBase == PAGES.physBase && r.totalSize == 2 && r.minVaddr == IMAGE_BASE + 1
    ensures BootPlan(KNOWN.(kernelPhys := r.physBase, kernelSpan := r.totalSize), r.minVaddr, NO_DISPLAY)
            == PlanOfBoot()
  {
  }
}

/** The boot loader's page-table builder, which writes table entries in physical memory. */
module Paging {
  import opened Words
  import opened PageTables
  import opened Mappings

  /** Table pages remembered for self-mapping; later ones are forgotten. */
  const MAX_PT_PAGES := 512

  datatype Status = Success | OutOfResources | Unsupported

  /** What the firmware may answer to the coming one-page requests, in order: aligned pages
      it has not handed out before. When the list is used up the request fails. */
  ghost predicate FreshPages(pool: seq<u64>, used: set<u64>) {
    && (forall p <- pool :: TablePage(p) && p !in used)
    && (forall i, j | 0 <= i < j < |pool| :: pool[i] != pool[j])
  }

  /** `order` lists the tables of the directory by time of allocation, each once. */
  ghost predicate Lists(order: seq<Node>, dir: Directory) {
    && (forall n :: n in order <==> n in dir)
    && (forall i, j | 0 <= i < j < |order| :: order[i] != order[j])
  }

  /** The first 512 tables allocated are the ones remembered. */
  ghost predicate Remembers(tracked: seq<u64>, order: seq<Node>, dir: Directory) {
    && |tracked| == Min(MAX_PT_PAGES, |order|)
    && forall i | 0 <= i < |tracked| :: order[i] in dir && dir[order[i]] == tracked[i]
  }

  /** Recording a new table keeps the list and what is remembered of it in step. */
  lemma RecordTable(tracked: seq<u64>, order: seq<Node>, dir: Directory, c: Node, page: u64)
    requires Lists(order, dir) && Remembers(tracked, order, dir) && c !in dir
    ensures Lists(order + [c], dir[c := page])
    ensures Remembers(tracked + (if |tracked| < 512 then [page] else []), order + [c], dir[c := page])
  {
  }

  /** The pages the firmware has given since `offered` began are the tables, in order. */
  ghost predicate Drawn(pool: seq<u64>, offered: seq<u64>, order: seq<Node>, dir: Directory) {
    && |order| <= |offered| && pool == offered[|order|..]
    && forall i | 0 <= i < |order| :: order[i] in dir && dir[order[i]] == offered[i]
  }

  lemma DrawTable(pool: seq<u64>, offered: seq<u64>, order: seq<Node>, dir: Directory, c: Node)
    requires Drawn(pool, offered, order, dir) && pool != [] && c !in dir
    ensures Drawn(pool[1..], offered, order + [c], dir[c := pool[0]])
  {
  }

  /** The pages of memory that hold something else than tables. */
  ghost predicate Keeps(mem: Memory, loaded: Memory) {
    forall p <- loaded :: p in mem && mem[p] == loaded[p]
  }

  ghost predicate Apart(dir: Directory, loaded: Memory) { forall n <- dir :: dir[n] !in loaded }

  /** Writing a table entry leaves those pages alone. */
  lemma StoreKeeps(mem: Memory, loaded: Memory, dir: Directory, n: Node, i: nat, e: u64)
    requires Keeps(mem, loaded) && Apart(dir, loaded) && n in dir
    requires dir[n] in mem && i < |mem[dir[n]]|
    ensures Keeps(Store(mem, dir[n], i, e), loaded)
  {
  }

  lemma FreshApart(mem: Memory, loaded: Memory, dir: Directory, c: Node, page: u64)
    requires Keeps(mem, loaded) && Apart(dir, loaded) && page !in mem
    ensures Keeps(mem[page := ZeroPage()], loaded) && Apart(dir[c := page], loaded)
  {
  }

  /** The remembered tables when `pool` is used up, or at least 512 pages of it. */
  function Remembered(pool: seq<u64>): seq<u64> { pool[..Min(MAX_PT_PAGES, |pool|)] }

  class PageTableBuilder {
    var mem: Memory             // physical pages written so far
    var pool: seq<u64>          // the firmware's future answers
    const ptPages: array<u64>   // g_ptPages
    var ptPageCount: nat        // g_ptPageCount

    ghost var dir: Directory
    ghost var spec: Translation
    ghost var order: seq<Node>
    ghost var offered: seq<u64> // the pool when the current tree was begun
    const loaded: Memory        // what memory held before, the kernel image

    constructor (loaded: Memory, pool: seq<u64>)
      requires FreshPages(pool, loaded.Keys)
      ensures Ready() && fresh(ptPages) && this.pool == pool && this.loaded == loaded
    {
      this.loaded, mem, this.pool, offered := loaded, loaded, pool, pool;
      ptPages, ptPageCount := new u64[MAX_PT_PAGES], 0;
      dir, spec, order := map[], map[], [];
    }

    ghost predicate Ready()
      reads this, ptPages
    {
      && ptPages.Length == MAX_PT_PAGES && ptPageCount <= MAX_PT_PAGES
      && FreshPages(pool, mem.Keys) && Keeps(mem, loaded)
    }

    ghost function Tracked(): seq<u64>
      reads this, ptPages
      requires Ready()
    {
      ptPages[..ptPageCount]
    }

    ghost predicate Valid()
      reads this, ptPages
    {
      && Ready()
      && Tree(mem, dir, spec) && ROOT in dir
      && Lists(order, dir)
      && Remembers(Tracked(), order, dir)
      && Drawn(pool, offered, order, dir) && Apart(dir, loaded)
    }

    /** Tables are only ever added, after those already there, from pages of the same offer. */
    ghost predicate Grown(order0: seq<Node>, tracked0: seq<u64>, offered0: seq<u64>)
      reads this, ptPages
      requires Ready()
    {
      order0 <= order && tracked0 <= Tracked() && offered == offered0
    }

    /** The call stopped for want of a page: some table on the way to `pages` is missing. */
    ghost predicate Stuck(before: set<Node>, pages: set<nat>)
      reads this
    {
      pool == [] && before <= dir.Keys < before + NodesOf(pages)
    }

    /** Every page taken became a table. */
    lemma PagesTaken()
      requires Valid()
      ensures |dir.Keys| == |order| == |offered| - |pool|
      ensures Tracked() == offered[..Min(512, |order|)]
    {
      hide PageTables.Tree, FreshPages;
      DistinctSize(order, dir.Keys);
    }

    lemma TrackedAreTables()
      requires Valid()
      ensures forall t <- Tracked() :: TablePage(t)
    {
      forall t <- Tracked() ensures TablePage(t) {
        var i :| 0 <= i < ptPageCount && Tracked()[i] == t;
        assert dir[order[i]] == t;
      }
    }

    /** No table exists without a mapped page below it. */
    ghost predicate Tight()
      reads this
    {
      dir.Keys == NodesOf(spec.Keys)
    }

    /** AllocTable: one zeroed page from the firmware, remembered while there is room. */
    method AllocTable() returns (status: Status, outPhys: u64)
      requires Ready()
      modifies this`mem, this`pool, this`ptPageCount, ptPages
      ensures Ready()
      ensures status == if old(pool) == [] then OutOfResources else Success
      ensures status != Success ==> mem == old(mem) && pool == old(pool) && Tracked() == old(Tracked())
      ensures status == Success ==>
                && TablePage(outPhys) && outPhys !in old(mem)
                && outPhys == old(pool)[0] && pool == old(pool)[1..]
                && mem == old(mem)[outPhys := ZeroPage()]
                && Tracked() == old(Tracked()) + if old(ptPageCount) < 512 then [outPhys] else []
    {
      outPhys := 0;
      if pool == [] {
        return OutOfResources, 0;
      }
      outPhys := pool[0];
      pool := pool[1..];
      mem := mem[outPhys := ZeroPage()];
      assert outPhys !in old(mem);
      if ptPageCount < MAX_PT_PAGES {
        ptPages[ptPageCount] := outPhys;
        ptPageCount := ptPageCount + 1;
      }
      return Success, outPhys;
    }

    /** One level of the walk: follow the entry, or allocate the missing table and link it. */
    method NextTable(table: u64, i: nat, ghost n: Node) returns (status: Status, next: u64)
      requires Valid()
      requires n in dir && n.level >= 2 && dir[n] == table && i < ENTRIES
      modifies this, ptPages
      ensures Valid() && spec == old(spec) && Grown(old(order), old(Tracked()), old(offered))
      ensures status == Success ==>
                dir.Keys == old(dir).Keys + {Child(n, i)} && dir[Child(n, i)] == next
      ensures forall m <- old(dir) :: m in dir && dir[m] == old(dir)[m]
      ensures status != Success ==>
                status == OutOfResources && pool == [] && dir == old(dir) && Child(n, i) !in dir
    {
      hide FreshPages, Lists, Remembers, Keeps, Apart, Drawn, PageTables.Tree, PageTables.ZeroPage;
      StepDown(mem, dir, spec, n, i);
      if Present(ReadEntry(mem, table, i)) {
        next := FrameOf(ReadEntry(mem, table, i));
        status := Success;
      } else {
        ghost var mem0, tracked0, pool0 := mem, Tracked(), pool;
        status, next := AllocTable();
        if status != Success {
          return;
        }
        assert mem.Keys == mem0.Keys + {next};
        ghost var mem', dir' := AddTable(mem0, dir, spec, n, i, next);
        RecordTable(tracked0, order, dir, Child(n, i), next);
        DrawTable(pool0, offered, order, dir, Child(n, i));
        FreshApart(mem0, loaded, dir, Child(n, i), next);
        StoreKeeps(mem, loaded, dir, n, i, Entry(next, PTE_P + PTE_W));
        mem := Store(mem, table, i, Entry(next, PTE_P + PTE_W));
        assert mem == mem' && mem.Keys == mem0.Keys + {next};
        dir, order := dir', order + [Child(n, i)];
      }
    }

    /** EnsurePtForVaddr: walk or grow PML4, PDPT, PD and PT for one address. The answer
        "unsupported" for a large page can never be given. */
    method EnsurePtForVaddr(pml4Phys: u64, vaddr: u64) returns (status: Status, ptPhys: u64)
      requires Valid() && pml4Phys == dir[ROOT]
      modifies this, ptPages
      ensures Valid() && spec == old(spec) && Grown(old(order), old(Tracked()), old(offered))
      ensures forall m <- old(dir) :: m in dir && dir[m] == old(dir)[m]
      ensures status == Success ==>
                var n := PtNode(PageNo(vaddr));
                && n in dir && dir[n] == ptPhys
                && dir.Keys == old(dir).Keys + PathTo(PageNo(vaddr))
      ensures status != Success ==> status == OutOfResources && Stuck(old(dir).Keys, {PageNo(vaddr)})
    {
      hide PageTables.Tree, FreshPages, Lists, Remembers, Drawn, Keeps, Apart, PageTables.NodesOf;
      hide PageTables.Pml4Index, PageTables.PdptIndex, PageTables.PdIndex, PageTables.PageNo;
      hide PageTables.PdptNode, PageTables.PdNode, PageTables.PtNode, PageTables.PathTo;
      var pml4i, pdpti, pdi := Pml4Index(vaddr), PdptIndex(vaddr), PdIndex(vaddr);
      ghost var k := PageNo(vaddr);
      IndicesLeadToPage(vaddr);
      PathFromRoot(dir.Keys, k);
      NodesOfOne(k);
      ptPhys := 0;

      var pdptPhys, pdPhys;
      status, pdptPhys := NextTable(pml4Phys, pml4i, ROOT);
      if status != Success { return; }
      status, pdPhys := NextTable(pdptPhys, pdpti, PdptNode(k));
      if status != Success { return; }
      StepDown(mem, dir, spec, PdNode(k), pdi);
      if Present(ReadEntry(mem, pdPhys, pdi)) && Large(ReadEntry(mem, pdPhys, pdi)) {
        status := Unsupported;
        return;
      }
      status, ptPhys := NextTable(pdPhys, pdi, PdNode(k));
    }

    /** The write that ends each iteration of a mapping loop. */
    method SetLeaf(ptPhys: u64, k: nat, frame: u64, flags: nat)
      requires Valid() && k < PAGES && ValidLeaf(Leaf(frame, flags))
      requires PtNode(k) in dir && dir[PtNode(k)] == ptPhys
      modifies this`mem, this`spec
      ensures Valid() && dir == old(dir) && spec == old(spec)[k := Leaf(frame, flags)]
    {
      hide PageTables.Tree, FreshPages, Lists, Remembers, Drawn, Keeps, Apart, PageTables.PtNode;
      ghost var mem' := WriteLeaf(mem, dir, spec, k, Leaf(frame, flags));
      StoreKeeps(mem, loaded, dir, PtNode(k), k % ENTRIES, Entry(frame, flags));
      mem := Store(mem, ptPhys, k % ENTRIES, Entry(frame, flags));
      spec := spec[k := Leaf(frame, flags)];
      assert mem == mem' && mem.Keys == old(mem).Keys;
    }

    /** One iteration of a mapping loop: reach the page table, then write the leaf. */
    method MapPage(pml4Phys: u64, vaddr: u64, frame: u64, flags: nat) returns (status: Status)
      requires Valid() && pml4Phys == dir[ROOT] && ValidLeaf(Leaf(frame, flags))
      modifies this, ptPages
      ensures Valid() && Grown(old(order), old(Tracked()), old(offered)) && dir[ROOT] == pml4Phys
      ensures status == Success ==>
                && spec == old(spec)[PageNo(vaddr) := Leaf(frame, flags)]
                && dir.Keys == old(dir).Keys + NodesOf({PageNo(vaddr)})
      ensures status != Success ==>
                status == OutOfResources && Stuck(old(dir).Keys, {PageNo(vaddr)}) && spec == old(spec)
      ensures status == Success && old(Tight()) ==> Tight()
    {
      hide PageTables.Tree, FreshPages, Lists, Remembers, Drawn, Keeps, Apart;
      hide PageTables.PageNo, PageTables.NodesOf, PageTables.PathTo;
      NodesOfOne(PageNo(vaddr));
      var ptPhys;
      status, ptPhys := EnsurePtForVaddr(pml4Phys, vaddr);
      if status != Success { return; }
      SetLeaf(ptPhys, PageNo(vaddr), frame, flags);
      StaysTight(old(dir).Keys, old(spec).Keys, dir.Keys, spec.Keys, {PageNo(vaddr)});
    }

    /** A call that ended for want of pages, or did not. */
    lemma Finished(before: set<Node>, pool0: nat, pages: set<nat>, ok: bool)
      requires Valid() && |before| == |offered| - pool0
      requires ok ==> dir.Keys == before + NodesOf(pages)
      requires !ok ==> Stuck(before, pages)
      ensures ok <==> |NodesOf(pages) - before| <= pool0
    {
      hide PageTables.Tree, FreshPages, Lists, Remembers, Drawn, Keeps, Apart, PageTables.NodesOf;
      PagesTaken();
      EnoughPages(before, dir.Keys, NodesOf(pages), pool0, |pool|, ok);
    }

    /** MapIdentityRangeFlags: `done` pages were mapped, all of them on success. It succeeds exactly
        when the firmware has a page for every table that is still missing. */
    method MapIdentityRangeFlags(pml4Phys: u64, physBase: u64, sizeBytes: u64, extraFlags: nat)
      returns (status: Status, ghost done: nat)
      requires Valid() && pml4Phys == dir[ROOT]
      requires RW + extraFlags < PAGE_SIZE && extraFlags % 4 == 0
      modifies this, ptPages
      ensures Valid() && Grown(old(order), old(Tracked()), old(offered)) && dir[ROOT] == pml4Phys
      ensures spec == MapPages(old(spec), AlignDown(physBase), AlignDown(physBase), done, RW + extraFlags)
      ensures status == Success ==>
                && done == RangePages(physBase, sizeBytes)
                && dir.Keys == old(dir).Keys + NodesOf(PagesOfRange(physBase, sizeBytes))
      ensures status != Success ==>
                && status == OutOfResources && done < RangePages(physBase, sizeBytes)
                && Stuck(old(dir).Keys, PagesOfRange(physBase, sizeBytes))
      ensures status == Success <==> |NodesOf(PagesOfRange(physBase, sizeBytes)) - old(dir).Keys| <= |old(pool)|
      ensures status == Success && old(Tight()) ==> Tight()
    {
      hide PageTables.Tree, FreshPages, Lists, Remembers, Drawn, Keeps, Apart, PageTables.NodesOf;
      hide Iterate, PageTables.AlignDown, Wrap64, EndOf, RangePages, PagesOfRange, VisitedPages, PageAt, MapPages;
      done := 0;
      FlagsPresent(extraFlags);
      IterateStart(physBase, sizeBytes, physBase);
      PagesTaken();
      NothingVisited(dir.Keys, spec, physBase, physBase, RW + extraFlags);
      if sizeBytes == 0 {
        EmptyRange(physBase);
        Finished(old(dir).Keys, |old(pool)|, PagesOfRange(physBase, 0), true);
        return Success, 0;
      }
      var start := AlignDown(physBase);
      var end := AlignDown(Wrap64(Wrap64(physBase + sizeBytes) + (PAGE_SIZE - 1)));
      var p: u64 := start;
      while p < end
        invariant Valid() && Grown(old(order), old(Tracked()), old(offered)) && dir[ROOT] == pml4Phys
        invariant Iterate(start, end, AlignDown(physBase), p, p, done)
        invariant spec == MapPages(old(spec), start, AlignDown(physBase), done, RW + extraFlags)
        invariant dir.Keys == old(dir).Keys + NodesOf(VisitedPages(start, done))
        decreases end - p
      {
        IterateWithin(physBase, sizeBytes, AlignDown(physBase), p, p, done);
        IterateNext(start, end, AlignDown(physBase), p, p, done, RW + extraFlags);
        ReachNext(old(dir).Keys, start, done);
        MapPagesNext(old(spec), start, AlignDown(physBase), done, RW + extraFlags);
        status := MapPage(pml4Phys, p, p, RW + extraFlags);
        if status != Success {
          ShortOfMore(dir.Keys, old(dir).Keys, VisitedPages(start, done), {PageAt(start, done)},
                      PagesOfRange(physBase, sizeBytes));
          Finished(old(dir).Keys, |old(pool)|, PagesOfRange(physBase, sizeBytes), false);
          return;
        }
        p := p + PAGE_SIZE;
        done := done + 1;
      }
      IterateEnd(physBase, sizeBytes, AlignDown(physBase), p, p, done);
      Finished(old(dir).Keys, |old(pool)|, PagesOfRange(physBase, sizeBytes), true);
      RangeTight(old(dir).Keys, old(spec), dir.Keys, physBase, sizeBytes, AlignDown(physBase), RW + extraFlags);
      return Success, done;
    }

    method MapIdentityRange(pml4Phys: u64, physBase: u64, sizeBytes: u64) returns (status: Status, ghost done: nat)
      requires Valid() && pml4Phys == dir[ROOT]
      modifies this, ptPages
      ensures Valid() && Grown(old(order), old(Tracked()), old(offered)) && dir[ROOT] == pml4Phys
      ensures spec == MapPages(old(spec), AlignDown(physBase), AlignDown(physBase), done, RW)
      ensures status == Success ==>
                && done == RangePages(physBase, sizeBytes)
                && dir.Keys == old(dir).Keys + NodesOf(PagesOfRange(physBase, sizeBytes))
      ensures status != Success ==>
                && status == OutOfResources && done < RangePages(physBase, sizeBytes)
                && Stuck(old(dir).Keys, PagesOfRange(physBase, sizeBytes))
      ensures status == Success <==> |NodesOf(PagesOfRange(physBase, sizeBytes)) - old(dir).Keys| <= |old(pool)|
      ensures status == Success && old(Tight()) ==> Tight()
    {
      hide PageTables.Tree, FreshPages, Lists, Remembers, Drawn, Keeps, Apart, PageTables.NodesOf;
      hide PageTables.AlignDown, RangePages, PagesOfRange;
      status, done := MapIdentityRangeFlags(pml4Phys, physBase, sizeBytes, 0);
    }

    /** Device memory: mapped with caching disabled. */
    method MapIdentityRangeUncached(pml4Phys: u64, physBase: u64, sizeBytes: u64)
      returns (status: Status, ghost done: nat)
      requires Valid() && pml4Phys == dir[ROOT]
      modifies this, ptPages
      ensures Valid() && Grown(old(order), old(Tracked()), old(offered)) && dir[ROOT] == pml4Phys
      ensures spec == MapPages(old(spec), AlignDown(physBase), AlignDown(physBase), done, RW + UNCACHED)
      ensures status == Success ==>
                && done == RangePages(physBase, sizeBytes)
                && dir.Keys == old(dir).Keys + NodesOf(PagesOfRange(physBase, sizeBytes))
      ensures status != Success ==>
                && status == OutOfResources && done < RangePages(physBase, sizeBytes)
                && Stuck(old(dir).Keys, PagesOfRange(physBase, sizeBytes))
      ensures status == Success <==> |NodesOf(PagesOfRange(physBase, sizeBytes)) - old(dir).Keys| <= |old(pool)|
      ensures status == Success && old(Tight()) ==> Tight()
    {
      hide PageTables.Tree, FreshPages, Lists, Remembers, Drawn, Keeps, Apart, PageTables.NodesOf;
      hide PageTables.AlignDown, RangePages, PagesOfRange;
      status, done := MapIdentityRangeFlags(pml4Phys, physBase, sizeBytes, PTE_PCD + PTE_PWT);
    }

    /** MapRange: page AlignDown(virt) + 4096i leads to AlignDown(phys) + 4096i. */
    method MapRange(pml4Phys: u64, virtBase: u64, physBase: u64, sizeBytes: u64)
      returns (status: Status, ghost done: nat)
      requires Valid() && pml4Phys == dir[ROOT]
      modifies this, ptPages
      ensures Valid() && Grown(old(order), old(Tracked()), old(offered)) && dir[ROOT] == pml4Phys
      ensures spec == MapPages(old(spec), AlignDown(virtBase), AlignDown(physBase), done, RW)
      ensures status == Success ==>
                && done == RangePages(virtBase, sizeBytes)
                && dir.Keys == old(dir).Keys + NodesOf(PagesOfRange(virtBase, sizeBytes))
      ensures status != Success ==>
                && status == OutOfResources && done < RangePages(virtBase, sizeBytes)
                && Stuck(old(dir).Keys, PagesOfRange(virtBase, sizeBytes))
      ensures status == Success <==> |NodesOf(PagesOfRange(virtBase, sizeBytes)) - old(dir).Keys| <= |old(pool)|
      ensures status == Success && old(Tight()) ==> Tight()
    {
      hide PageTables.Tree, FreshPages, Lists, Remembers, Drawn, Keeps, Apart, PageTables.NodesOf;
      hide Iterate, PageTables.AlignDown, Wrap64, EndOf, RangePages, PagesOfRange, VisitedPages, PageAt, MapPages;
      done := 0;
      IterateStart(virtBase, sizeBytes, physBase);
      PagesTaken();
      NothingVisited(dir.Keys, spec, virtBase, physBase, RW);
      if sizeBytes == 0 {
        EmptyRange(virtBase);
        Finished(old(dir).Keys, |old(pool)|, PagesOfRange(virtBase, 0), true);
        return Success, 0;
      }
      var vStart, vEnd := AlignDown(virtBase), EndOf(virtBase, sizeBytes);
      var v: u64 := vStart;
      var phys: u64 := AlignDown(physBase);
      while v < vEnd
        invariant Valid() && Grown(old(order), old(Tracked()), old(offered)) && dir[ROOT] == pml4Phys
        invariant Iterate(vStart, vEnd, AlignDown(physBase), v, phys, done)
        invariant spec == MapPages(old(spec), vStart, AlignDown(physBase), done, RW)
        invariant dir.Keys == old(dir).Keys + NodesOf(VisitedPages(vStart, done))
        decreases vEnd - v
      {
        IterateWithin(virtBase, sizeBytes, AlignDown(physBase), v, phys, done);
        IterateNext(vStart, vEnd, AlignDown(physBase), v, phys, done, RW);
        ReachNext(old(dir).Keys, vStart, done);
        MapPagesNext(old(spec), vStart, AlignDown(physBase), done, RW);
        status := MapPage(pml4Phys, v, phys, RW);
        if status != Success {
          ShortOfMore(dir.Keys, old(dir).Keys, VisitedPages(vStart, done), {PageAt(vStart, done)},
                      PagesOfRange(virtBase, sizeBytes));
          Finished(old(dir).Keys, |old(pool)|, PagesOfRange(virtBase, sizeBytes), false);
          return;
        }
        v := v + PAGE_SIZE;
        phys := Wrap64(phys + PAGE_SIZE);
        done := done + 1;
      }
      IterateEnd(virtBase, sizeBytes, AlignDown(physBase), v, phys, done);
      Finished(old(dir).Keys, |old(pool)|, PagesOfRange(virtBase, sizeBytes), true);
      RangeTight(old(dir).Keys, old(spec), dir.Keys, virtBase, sizeBytes, AlignDown(physBase), RW);
      return Success, done;
    }

    /** One step of the self-map: remembered table number i. */
    method MapTablePage(pml4Phys: u64, i: nat, ghost before: Translation) returns (status: Status)
      requires Valid() && pml4Phys == dir[ROOT] && i < ptPageCount
      requires spec == SelfMap(before, Tracked()[..i])
      modifies this, ptPages
      ensures Valid() && Grown(old(order), old(Tracked()), old(offered)) && dir[ROOT] == pml4Phys
      ensures i < ptPageCount && Tracked()[..i + 1] == Tracked()[..i] + [Tracked()[i]]
      ensures status == Success ==>
                && spec == SelfMap(before, Tracked()[..i + 1])
                && dir.Keys == old(dir).Keys + NodesOf({PageNo(Tracked()[i])})
      ensures status != Success ==> status == OutOfResources && Stuck(old(dir).Keys, {PageNo(Tracked()[i])})
      ensures status == Success && old(Tight()) ==> Tight()
    {
      hide PageTables.Tree, FreshPages, Lists, Remembers, Drawn, Keeps, Apart, PageTables.NodesOf;
      hide RangePages, PageTables.AlignDown, TablePage, Tight, PagesOfRange, PageTables.PageNo;
      ghost var done, tables := 0, Tracked();
      TrackedAreTables();
      assert ptPages[i] == tables[i] && tables[..i + 1] == tables[..i] + [tables[i]];
      OneTablePage(before, tables[..i], ptPages[i]);
      status, done := MapIdentityRange(pml4Phys, ptPages[i], PAGE_SIZE);
      assert Tracked()[..i + 1] == tables[..i + 1] && Tracked()[i] == tables[i];
    }

    /** IdentityMapPageTablePages: mapping the remembered tables may allocate and remember more,
        so it goes on until none is left; room for 512 bounds the rounds. On success every
        remembered table, old or new, is mapped; otherwise the way to one of them lacks a table. */
    method IdentityMapPageTablePages(pml4Phys: u64) returns (status: Status)
      requires Valid() && pml4Phys == dir[ROOT]
      modifies this, ptPages
      ensures Valid() && Grown(old(order), old(Tracked()), old(offered)) && dir[ROOT] == pml4Phys
      ensures status == Success ==>
                && spec == SelfMap(old(spec), Tracked())
                && dir.Keys == old(dir).Keys + NodesOf(TablePages(Tracked()))
      ensures status != Success ==> status == OutOfResources && Stuck(old(dir).Keys, TablePages(Tracked()))
      ensures status == Success && old(Tight()) ==> Tight()
    {
      hide PageTables.Tree, FreshPages, Lists, Remembers, Drawn, Keeps, Apart, PageTables.NodesOf;
      hide RangePages, PageTables.AlignDown, TablePage, PageTables.PageNo, TablePages, SelfMap;
      var mappedCount := 0;
      NoTables(old(dir).Keys, old(spec), Tracked());
      while mappedCount < ptPageCount
        invariant Valid() && Grown(old(order), old(Tracked()), old(offered)) && dir[ROOT] == pml4Phys
        invariant mappedCount <= ptPageCount
        invariant spec == SelfMap(old(spec), Tracked()[..mappedCount])
        invariant dir.Keys == old(dir).Keys + NodesOf(TablePages(Tracked()[..mappedCount]))
        decreases MAX_PT_PAGES - mappedCount
      {
        var currentCount := ptPageCount;
        var i := mappedCount;
        while i < currentCount
          invariant Valid() && Grown(old(order), old(Tracked()), old(offered)) && dir[ROOT] == pml4Phys
          invariant mappedCount <= i <= currentCount <= ptPageCount
          invariant spec == SelfMap(old(spec), Tracked()[..i])
          invariant dir.Keys == old(dir).Keys + NodesOf(TablePages(Tracked()[..i]))
        {
          ghost var before := Tracked()[..i];
          status := MapTablePage(pml4Phys, i, old(spec));
          assert Tracked()[..i] == before;
          TableReached(old(dir).Keys, Tracked(), i);
          if status != Success {
            ShortOfMore(dir.Keys, old(dir).Keys, TablePages(before), {PageNo(Tracked()[i])}, TablePages(Tracked()));
            return;
          }
          i := i + 1;
        }
        mappedCount := currentCount;
      }
      assert Tracked()[..mappedCount] == Tracked();
      SelfMapTight(old(dir).Keys, old(spec), dir.Keys, Tracked());
      return Success;
    }

    /** The start of a build: tables remembered before are forgotten, and a root maps nothing. */
    method NewRoot() returns (status: Status, pml4Phys: u64)
      requires Ready()
      modifies this, ptPages
      ensures Ready() && status == if old(pool) == [] then OutOfResources else Success
      ensures status != Success ==> pool == []
      ensures status == Success ==>
                Valid() && Tight() && pml4Phys == dir[ROOT] && offered == old(pool) && spec == map[]
    {
      hide PageTables.Tree, FreshPages, PageTables.NodesOf, Apart, Keeps;
      ptPageCount := 0;
      status, pml4Phys := AllocTable();
      if status != Success { return; }
      offered := old(pool);
      dir, spec, order := map[ROOT := pml4Phys], map[], [ROOT];
      EmptyTree(mem, pml4Phys);
      FirstTable(old(mem), loaded, pml4Phys);
      NoPages();
      assert spec.Keys == {} && dir.Keys == {ROOT};
    }

    /** Each requested range in order. */
    method MapEachRange(pml4Phys: u64, ranges: seq<u64>, sizes: seq<u64>) returns (status: Status)
      requires Valid() && Tight() && spec == map[] && pml4Phys == dir[ROOT] && |ranges| == |sizes|
      modifies this, ptPages
      ensures Valid() && dir[ROOT] == pml4Phys && offered == old(offered)
      ensures status == Success ==> Tight() && spec == MapRanges(map[], ranges, sizes, |ranges|)
      ensures status != Success ==>
                && status == OutOfResources && pool == []
                && |offered| < |NodesOf(RangesPages(ranges, sizes, |ranges|))|
    {
      hide PageTables.Tree, FreshPages, Lists, Remembers, Drawn, Keeps, Apart, PageTables.NodesOf;
      hide PageTables.AlignDown, RangePages, PagesOfRange, RangesPages;
      for idx := 0 to |ranges|
        invariant Valid() && Tight() && dir[ROOT] == pml4Phys && offered == old(offered)
        invariant spec == MapRanges(map[], ranges, sizes, idx)
      {
        ghost var done;
        MapRangesKeys(ranges, sizes, idx);
        RangesMore(ranges, sizes, idx);
        status, done := MapIdentityRange(pml4Phys, ranges[idx], sizes[idx]);
        if status != Success {
          PagesTaken();
          Shortage(dir.Keys, RangesPages(ranges, sizes, idx), PagesOfRange(ranges[idx], sizes[idx]),
                   RangesPages(ranges, sizes, |ranges|));
          return;
        }
      }
      return Success;
    }

    /** BuildIdentityPageTables: a new root, every range in order, then the tables themselves.
        It fails only when there are fewer pages than tables needed for the ranges and for
        the pages the self-map then remembers. */
    method BuildIdentityPageTables(ranges: seq<u64>, sizes: seq<u64>) returns (status: Status, pml4Phys: u64)
      requires Ready() && |ranges| == |sizes|
      modifies this, ptPages
      ensures Ready()
      ensures status == Success ==>
                && Valid() && Tight() && pml4Phys == dir[ROOT] && offered == old(pool)
                && spec == SelfMap(MapRanges(map[], ranges, sizes, |ranges|), Tracked())
      ensures status != Success ==>
                && status == OutOfResources && pool == []
                && |old(pool)| < |NodesOf(RangesPages(ranges, sizes, |ranges|) + TablePages(Remembered(old(pool))))|
    {
      hide PageTables.Tree, FreshPages, Lists, Remembers, Drawn, Keeps, Apart, PageTables.NodesOf;
      hide RangesPages, TablePages;
      ghost var ofRanges, ofTables := RangesPages(ranges, sizes, |ranges|), TablePages(Remembered(old(pool)));
      RootNeeded(ofRanges + ofTables);
      NodesMore(ofRanges, ofRanges + ofTables);
      Fewer(NodesOf(ofRanges), NodesOf(ofRanges + ofTables));
      status, pml4Phys := NewRoot();
      if status != Success { return; }
      status := MapEachRange(pml4Phys, ranges, sizes);
      if status != Success { return; }
      MapRangesKeys(ranges, sizes, |ranges|);
      status := IdentityMapPageTablePages(pml4Phys);
      if status != Success {
        PagesTaken();
        Shortage(dir.Keys, ofRanges, TablePages(Tracked()), ofRanges + ofTables);
      }
    }
  }

  /** The pages of the first n ranges. */
  ghost function RangesPages(ranges: seq<u64>, sizes: seq<u64>, n: nat): set<nat>
    requires n <= |ranges| == |sizes|
  {
    if n == 0 then {} else RangesPages(ranges, sizes, n - 1) + PagesOfRange(ranges[n - 1], sizes[n - 1])
  }

  lemma {:induction false} MapRangesKeys(ranges: seq<u64>, sizes: seq<u64>, n: nat)
    requires n <= |ranges| == |sizes|
    ensures MapRanges(map[], ranges, sizes, n).Keys == RangesPages(ranges, sizes, n)
  {
    hide PageTables.AlignDown, RangePages, VisitedPages;
    if n > 0 {
      MapRangesKeys(ranges, sizes, n - 1);
      MapPagesKeys(MapRanges(map[], ranges, sizes, n - 1), AlignDown(ranges[n - 1]), AlignDown(ranges[n - 1]),
                   RangePages(ranges[n - 1], sizes[n - 1]), RW);
    }
  }

  lemma {:induction false} RangesMore(ranges: seq<u64>, sizes: seq<u64>, n: nat)
    requires n < |ranges| == |sizes|
    ensures RangesPages(ranges, sizes, n) + PagesOfRange(ranges[n], sizes[n]) <= RangesPages(ranges, sizes, |ranges|)
    decreases |ranges| - n
  {
    hide PagesOfRange;
    if n + 1 < |ranges| {
      RangesMore(ranges, sizes, n + 1);
    }
  }

  /** A lone root in memory that was not in use. */
  lemma FirstTable(mem: Memory, loaded: Memory, root: u64)
    requires Keeps(mem, loaded) && root !in mem
    ensures Apart(map[ROOT := root], loaded)
  {
  }

  lemma RootNeeded(pages: set<nat>)
    ensures |NodesOf(pages)| > 0
  {
    assert ROOT in NodesOf(pages);
  }

  /** Short of the tables for some of the pages is fewer than the tables for all of them. */
  lemma Shortage(keys: set<Node>, part: set<nat>, next: set<nat>, all: set<nat>)
    requires keys < NodesOf(part) + NodesOf(next) && part + next <= all
    ensures |keys| < |NodesOf(all)|
  {
    hide NodesOf;
    NodesUnion(part, next);
    NodesMore(part + next, all);
    StrictlyFewer(keys, NodesOf(all));
  }

  lemma OneTablePage(before: Translation, tables: seq<u64>, t: u64)
    requires TablePage(t)
    ensures PagesOfRange(t, PAGE_SIZE) == {PageNo(t)} && RangePages(t, PAGE_SIZE) == 1 && AlignDown(t) == t
    ensures MapPages(SelfMap(before, tables), t, t, 1, RW) == SelfMap(before, tables + [t])
  {
    TablePageNo(t);
    VisitedNext(t, 0);
    assert (tables + [t])[..|tables|] == tables;
    assert MapPages(SelfMap(before, tables), t, t, 0, RW) == SelfMap(before, tables);
  }

  lemma NoTables(keys: set<Node>, spec: Translation, tables: seq<u64>)
    requires ROOT in keys
    ensures keys == keys + NodesOf(TablePages(tables[..0])) && SelfMap(spec, tables[..0]) == spec
  {
    NoPages();
    assert TablePages(tables[..0]) == {};
  }

  /** One table further in the self-map. */
  lemma TableReached(before: set<Node>, tables: seq<u64>, i: nat)
    requires i < |tables|
    ensures before + NodesOf(TablePages(tables[..i])) + NodesOf({PageNo(tables[i])})
            == before + NodesOf(TablePages(tables[..i + 1]))
    ensures TablePages(tables[..i]) + {PageNo(tables[i])} <= TablePages(tables)
  {
    hide NodesOf, PageTables.PageNo, TablePages;
    assert tables[..i + 1] == tables[..i] + [tables[i]];
    TablePagesNext(tables[..i], tables[i]);
    NodesUnion(TablePages(tables[..i]), {PageNo(tables[i])});
    TablePagesMore(tables[..i + 1], tables);
  }

  lemma TablePagesMore(some: seq<u64>, all: seq<u64>)
    requires some <= all
    ensures TablePages(some) <= TablePages(all)
  {
    forall t | t in some ensures t in all {}
  }

  lemma SelfMapTight(keys0: set<Node>, spec: Translation, keys1: set<Node>, tables: seq<u64>)
    requires keys1 == keys0 + NodesOf(TablePages(tables))
    ensures keys0 == NodesOf(spec.Keys) ==> keys1 == NodesOf(SelfMap(spec, tables).Keys)
  {
    hide NodesOf, SelfMap, TablePages;
    SelfMapKeys(spec, tables);
    StaysTight(keys0, spec.Keys, keys1, spec.Keys + TablePages(tables), TablePages(tables));
  }

  lemma NoPages()
    ensures NodesOf({}) == {ROOT}
  {
  }

  /** Where a mapping loop from `vStart` to `vEnd` stands after `done` iterations. */
  ghost predicate Iterate(vStart: u64, vEnd: u64, pStart: u64, v: u64, p: u64, done: nat) {
    && PageAligned(vStart) && PageAligned(vEnd) && PageAligned(pStart)
    && PageAligned(v) && PageAligned(p)
    && v == vStart + PAGE_SIZE * done && p == Wrap64(pStart + PAGE_SIZE * done)
    && (done == 0 || v <= vEnd)
  }

  lemma IterateStart(vBase: u64, size: u64, pBase: u64)
    ensures Iterate(AlignDown(vBase), EndOf(vBase, size), AlignDown(pBase), AlignDown(vBase), AlignDown(pBase), 0)
    ensures EndOf(vBase, size) == AlignDown(Wrap64(Wrap64(vBase + size) + (PAGE_SIZE - 1)))
    ensures size == 0 ==> RangePages(vBase, size) == 0
  {
    AlignUpOfWrapped(vBase, size);
  }

  lemma IterateEnd(vBase: u64, size: u64, pStart: u64, v: u64, p: u64, done: nat)
    requires Iterate(AlignDown(vBase), EndOf(vBase, size), pStart, v, p, done) && v >= EndOf(vBase, size)
    requires size > 0
    ensures done == RangePages(vBase, size) && VisitedPages(AlignDown(vBase), done) == PagesOfRange(vBase, size)
  {
  }

  /** Whatever is added, the entry stays present. */
  lemma FlagsPresent(extraFlags: nat)
    requires extraFlags % 4 == 0
    ensures (RW + extraFlags) % 2 == 1
  {
  }

  lemma EmptyRange(base: u64)
    ensures PagesOfRange(base, 0) == {} && NodesOf({}) == {ROOT}
  {
    NoPages();
  }

  lemma NothingVisited(keys: set<Node>, spec: Translation, vBase: u64, pBase: u64, flags: nat)
    requires ROOT in keys
    ensures keys == keys + NodesOf(VisitedPages(AlignDown(vBase), 0)) == keys + NodesOf({})
    ensures MapPages(spec, AlignDown(vBase), AlignDown(pBase), 0, flags) == spec
  {
    NoPages();
    assert VisitedPages(AlignDown(vBase), 0) == {};
  }

  lemma MapPagesNext(spec: Translation, v: u64, p: u64, n: nat, flags: nat)
    ensures MapPages(spec, v, p, n + 1, flags) == MapPages(spec, v, p, n, flags)[PageAt(v, n) := LeafAt(p, n, flags)]
  {
  }

  lemma RangeTight(keys0: set<Node>, spec: Translation, keys1: set<Node>, vBase: u64, size: u64, p: u64, flags: nat)
    requires keys1 == keys0 + NodesOf(PagesOfRange(vBase, size))
    ensures var spec' := MapPages(spec, AlignDown(vBase), p, RangePages(vBase, size), flags);
            keys0 == NodesOf(spec.Keys) ==> keys1 == NodesOf(spec'.Keys)
  {
    hide NodesOf, RangePages, PageTables.AlignDown, MapPages;
    MapPagesKeys(spec, AlignDown(vBase), p, RangePages(vBase, size), flags);
    StaysTight(keys0, spec.Keys, keys1, spec.Keys + PagesOfRange(vBase, size), PagesOfRange(vBase, size));
  }

  lemma IterateWithin(vBase: u64, size: u64, pStart: u64, v: u64, p: u64, done: nat)
    requires Iterate(AlignDown(vBase), EndOf(vBase, size), pStart, v, p, done) && v < EndOf(vBase, size)
    requires size > 0
    ensures done < RangePages(vBase, size)
    ensures VisitedPages(AlignDown(vBase), done) + {PageAt(AlignDown(vBase), done)} <= PagesOfRange(vBase, size)
  {
    StepsLeft(AlignDown(vBase), EndOf(vBase, size), done);
    hide EndOf, PageTables.AlignDown, PageAt;
    VisitedNext(AlignDown(vBase), done);
    VisitedMore(AlignDown(vBase), done + 1, RangePages(vBase, size));
  }

  lemma StepsLeft(start: nat, end: nat, done: nat)
    requires start % PAGE_SIZE == 0 && end % PAGE_SIZE == 0 && start + PAGE_SIZE * done < end
    ensures done < (end - start) / PAGE_SIZE
  {
    var a, b := start / PAGE_SIZE, end / PAGE_SIZE;
    assert start == PAGE_SIZE * a && end == PAGE_SIZE * b;
    assert (end - start) / PAGE_SIZE == b - a;
  }

  lemma IterateNext(vStart: u64, vEnd: u64, pStart: u64, v: u64, p: u64, done: nat, flags: nat)
    requires Iterate(vStart, vEnd, pStart, v, p, done) && v < vEnd
    requires flags < PAGE_SIZE && flags % 2 == 1
    ensures v + PAGE_SIZE < TWO_64 && Iterate(vStart, vEnd, pStart, v + PAGE_SIZE, Wrap64(p + PAGE_SIZE), done + 1)
    ensures p + PAGE_SIZE < TWO_64 ==> Wrap64(p + PAGE_SIZE) == p + PAGE_SIZE
    ensures PageAt(vStart, done) == PageNo(v) && LeafAt(pStart, done, flags) == Leaf(p, flags)
    ensures ValidLeaf(Leaf(p, flags))
  {
  }

  lemma NodesOfOne(k: nat)
    ensures NodesOf({k}) == PathTo(k)
  {
    assert PdptNos({k}) == {PdptNo(k)} && PdNos({k}) == {PdNo(k)} && PtNos({k}) == {PtNo(k)};
  }

  lemma PathFromRoot(nodes: set<Node>, k: nat)
    requires ROOT in nodes
    ensures nodes + {PdptNode(k)} + {PdNode(k)} + {PtNode(k)} == nodes + PathTo(k)
    ensures PdptNode(k).level == 3 && PdNode(k).level == 2
  {
  }

  lemma LevelUnion(level: nat, p: set<nat>, q: set<nat>)
    ensures Level(level, p + q) == Level(level, p) + Level(level, q)
  {
  }

  /** The tables for two sets of pages are the tables for either. */
  lemma NodesUnion(a: set<nat>, b: set<nat>)
    ensures NodesOf(a + b) == NodesOf(a) + NodesOf(b)
  {
    hide PdptNo, PdNo, PtNo, Level;
    assert PdptNos(a + b) == PdptNos(a) + PdptNos(b);
    assert PdNos(a + b) == PdNos(a) + PdNos(b);
    assert PtNos(a + b) == PtNos(a) + PtNos(b);
    LevelUnion(3, PdptNos(a), PdptNos(b));
    LevelUnion(2, PdNos(a), PdNos(b));
    LevelUnion(1, PtNos(a), PtNos(b));
  }

  lemma NodesMore(a: set<nat>, b: set<nat>)
    requires a <= b
    ensures NodesOf(a) <= NodesOf(b)
  {
    hide NodesOf;
    NodesUnion(a, b);
    assert a + b == b;
  }

  /** One page further in a mapping loop. */
  lemma ReachNext(before: set<Node>, v: u64, n: nat)
    ensures before + NodesOf(VisitedPages(v, n)) + NodesOf({PageAt(v, n)}) == before + NodesOf(VisitedPages(v, n + 1))
  {
    hide NodesOf, PageAt, VisitedPages;
    VisitedNext(v, n);
    NodesUnion(VisitedPages(v, n), {PageAt(v, n)});
  }

  /** Short of the tables for some pages is short of those for more pages. */
  lemma ShortOfMore(keys: set<Node>, before: set<Node>, part: set<nat>, next: set<nat>, all: set<nat>)
    requires before + NodesOf(part) <= keys < before + NodesOf(part) + NodesOf(next) && part + next <= all
    ensures before <= keys < before + NodesOf(all)
  {
    hide NodesOf;
    NodesUnion(part, next);
    NodesMore(part + next, all);
  }

  /** A call that takes pages only for missing tables succeeds exactly when there are
      as many pages as tables are missing. */
  lemma EnoughPages(before: set<Node>, after: set<Node>, need: set<Node>, pool0: nat, pool1: nat, ok: bool)
    requires before <= after && |after| - |before| == pool0 - pool1
    requires ok ==> after == before + need
    requires !ok ==> pool1 == 0 && after < before + need
    ensures ok <==> |need - before| <= pool0
  {
    assert before + need == before + (need - before);
    if !ok {
      StrictlyFewer(after, before + need);
    }
  }

  lemma StrictlyFewer<T>(a: set<T>, b: set<T>)
    requires a < b
    ensures |a| < |b|
  {
    assert exists x :: x in b && x !in a;
    var x :| x in b && x !in a;
    Fewer(a, b - {x});
  }

  lemma Fewer<T>(a: set<T>, b: set<T>)
    requires a <= b
    ensures |a| <= |b|
  {
    assert b == a + (b - a);
  }

  /** Mapping pages and the tables on the way to them leaves no superfluous table. */
  lemma StaysTight(keys0: set<Node>, pages0: set<nat>, keys1: set<Node>, pages1: set<nat>, more: set<nat>)
    requires keys1 == keys0 + NodesOf(more) && pages1 == pages0 + more
    ensures keys0 == NodesOf(pages0) ==> keys1 == NodesOf(pages1)
  {
    hide NodesOf;
    NodesUnion(pages0, more);
  }

  // ---------------------------------------------------------------------
  // How many tables there are, and which of them are remembered
  // ---------------------------------------------------------------------

  lemma {:induction false} LevelSize(level: nat, prefixes: set<nat>)
    ensures |Level(level, prefixes)| == |prefixes|
  {
    if prefixes != {} {
      var q :| q in prefixes;
      LevelSize(level, prefixes - {q});
      assert Level(level, prefixes) == Level(level, prefixes - {q}) + {Node(level, q)};
    }
  }

  lemma {:induction false} DistinctSize<T>(s: seq<T>, t: set<T>)
    requires forall i, j | 0 <= i < j < |s| :: s[i] != s[j]
    requires forall x :: x in s <==> x in t
    ensures |s| == |t|
  {
    if s != [] {
      var init, x := s[..|s| - 1], s[|s| - 1];
      assert s == init + [x];
      DistinctSize(init, t - {x});
    }
  }

  lemma NodeCount(pages: set<nat>)
    ensures |NodesOf(pages)| == 1 + |PdptNos(pages)| + |PdNos(pages)| + |PtNos(pages)|
  {
    hide PdptNos, PdNos, PtNos;
    var a, b, c := Level(3, PdptNos(pages)), Level(2, PdNos(pages)), Level(1, PtNos(pages));
    LevelSize(3, PdptNos(pages));
    LevelSize(2, PdNos(pages));
    LevelSize(1, PtNos(pages));
    LevelsApart(PdptNos(pages), PdNos(pages), PtNos(pages));
    hide Level;
    assert |{ROOT} + a| == 1 + |a|;
    assert |{ROOT} + a + b| == |{ROOT} + a| + |b|;
  }

  lemma LevelsApart(p: set<nat>, q: set<nat>, r: set<nat>)
    ensures {ROOT} !! Level(3, p) && ({ROOT} + Level(3, p)) !! Level(2, q)
    ensures ({ROOT} + Level(3, p) + Level(2, q)) !! Level(1, r)
  {
  }

  /** The number of tables allocated is one root plus the distinct 512 GiB, 1 GiB
      and 2 MiB regions holding a mapped page. */
  lemma TableCount(order: seq<Node>, dir: Directory, pages: set<nat>)
    requires Lists(order, dir) && dir.Keys == NodesOf(pages)
    ensures |order| == 1 + |PdptNos(pages)| + |PdNos(pages)| + |PtNos(pages)|
  {
    hide NodesOf, PdptNos, PdNos, PtNos;
    NodeCount(pages);
    DistinctSize(order, dir.Keys);
  }

  lemma {:induction false} AtMost(s: set<nat>, n: nat)
    requires forall q <- s :: q < n
    ensures |s| <= n
  {
    if n > 0 {
      AtMost(s - {n - 1}, n - 1);
    }
  }

  /** As many tables as four full levels could hold. */
  const ALL_TABLES := 1 + 512 + 512 * 512 + 512 * 512 * 512

  lemma TablesBounded(pages: set<nat>)
    requires forall k <- pages :: k < PAGES
    ensures |NodesOf(pages)| <= ALL_TABLES == 134_480_385
  {
    NodeCount(pages);
    AtMost(PdptNos(pages), 512);
    AtMost(PdNos(pages), 512 * 512);
    AtMost(PtNos(pages), 512 * 512 * 512);
  }

  /** As many pages as four full levels could take, from page number `first` on. */
  function PagesFrom(first: nat): (pool: seq<u64>)
    requires first <= 0x8_0000_0000
    ensures |pool| == ALL_TABLES
  {
    seq(ALL_TABLES, i requires 0 <= i < ALL_TABLES => ((first + i) * PAGE_SIZE) as u64)
  }

  /** The firmware can offer that many. */
  lemma AmplePool(first: nat)
    requires first <= 0x8_0000_0000
    ensures FreshPages(PagesFrom(first), {}) && forall p <- PagesFrom(first) :: first * PAGE_SIZE <= p
  {
  }

  /** Every table is remembered for self-mapping exactly when at most 512 were ever allocated. */
  lemma AllRememberedIff(order: seq<Node>, dir: Directory, tracked: seq<u64>)
    requires Lists(order, dir) && Remembers(tracked, order, dir) && Injective(dir)
    ensures (forall n <- dir :: dir[n] in tracked) <==> |order| <= 512
  {
    if |order| <= MAX_PT_PAGES {
      forall n <- dir ensures dir[n] in tracked {
        var i :| 0 <= i < |order| && order[i] == n;
        assert tracked[i] == dir[n];
      }
    } else {
      var n := order[MAX_PT_PAGES];
      assert n in dir;
      forall i | 0 <= i < |tracked| ensures tracked[i] != dir[n] {
        assert order[i] != n;
      }
    }
  }
}

/** The last steps of efi_main: BootInfo's header, the exit from boot services, and the seal. */
module Handover {
  import opened Words
  import opened BootInfo
  import opened ExitBootServices
  import opened PhysicalMemory
  import PT = PageTables
  import opened Mappings
  import opened BootMapping

  /** Once boot services are gone the kernel is handed a block its validator accepts, and the
      array it describes is exactly the memory map that was current at the exit. That happens
      whatever the firmware does in between, unless one of its calls fails or a map is too
      large. Address 0 is the null pointer. */
  method ExitAndSeal(fw: Firmware, preMemMap: array?<byte>, preMemMapPhys: u64, bi: array<u32>,
                     display: Display, rsdp: u64)
    returns (status: Status)
    requires fw.Valid() && !fw.exited
    requires preMemMap == null <==> preMemMapPhys == 0
    requires bi.Length == PAGE_WORDS && bi[FLAGS] % 4 == 0 && bi[FLAGS] < 32
    modifies fw, bi
    modifies if preMemMap == null then {} else {preMemMap}
    ensures fw.Valid() && (fw.exited <==> status == Success)
    ensures status == Success ==>
              && Acceptable(bi[..]) && Long(bi[..], MEMORY_MAP) == preMemMapPhys
              && preMemMap != null && |fw.memoryMap| <= preMemMap.Length
              && preMemMap[..|fw.memoryMap|] == fw.memoryMap
              && Long(bi[..], MEMORY_MAP_DESCRIPTOR) == fw.descriptorSize
              && Long(bi[..], MEMORY_MAP_ENTRIES) * fw.descriptorSize == |fw.memoryMap|
              && Tells(bi[..], display, rsdp)
    ensures old(fw.events) == [] && preMemMap != null && preMemMap.Length > 0 ==>
              status == if |old(fw.memoryMap)| <= preMemMap.Length then Success else BufferTooSmall
    ensures status == InvalidParameter <==> preMemMap == null || preMemMap.Length == 0
    ensures preMemMap != null && preMemMap.Length > 0 ==>
              Justified(status, old(fw.memoryMap), old(fw.events), preMemMap.Length)
    ensures (preMemMap != null && 0 < |old(fw.memoryMap)| <= preMemMap.Length
             && forall e <- old(fw.events) ::
                  e.fault == None && (e.change.Some? ==> |e.change.value| <= preMemMap.Length))
            ==> status == Success
  {
    hide Justified, Firmware.Valid, Acceptable, HeaderDone, Long, Tells;
    FillHeader(bi, display, rsdp);
    var entries, descriptorSize;
    status, entries, descriptorSize := ExitWithMapInBuffer(fw, preMemMap);
    if status != Success {
      return;
    }
    MapFits(fw, entries);
    FinishAndSeal(bi, preMemMapPhys, entries, descriptorSize);
  }

  lemma MapFits(fw: Firmware, entries: nat)
    requires fw.Valid() && entries * fw.descriptorSize == |fw.memoryMap|
    ensures 0 < fw.descriptorSize < TWO_64 && entries < TWO_64
  {
    Bounds(entries, fw.descriptorSize, |fw.memoryMap|);
  }

  lemma Bounds(a: nat, d: nat, size: nat)
    requires d > 0 && a * d == size && size + 2 * d < TWO_64
    ensures a < TWO_64 && d < TWO_64
  {
    assert a * d >= a * 1;
  }

  /** The block and the memory map are where the kernel will look: after the switch each of their
      addresses leads to itself, and reading it gives what memory holds there, unless the kernel's
      virtual range took the page. */
  lemma HandoverReadable(mem: PT.Memory, dir: PT.Directory, plan: Plan, t1: seq<u64>, t2: seq<u64>, t3: seq<u64>,
                         r: Regions, a: u64)
    requires Addressable(plan) && t1 <= t2 <= t3 && forall t <- t3 :: TablePage(t)
    requires PT.Tree(mem, dir, BootTranslation(plan, t1, t2, t3))
    requires AlwaysListed(r) <= Pairs(plan.ranges, plan.sizes)
    requires r.bootInfoPhys <= a < r.bootInfoPhys + PAGE_SIZE || r.memMapPhys <= a < r.memMapPhys + MEMMAP_BYTES
    requires !IsKernel(plan, PT.PageNo(a))
    ensures PT.Walk(mem, dir[PT.ROOT], a).Some? && PT.Walk(mem, dir[PT.ROOT], a).value.phys == a
    ensures ReadThrough(mem, dir[PT.ROOT], a) == ReadByte(mem, a)
  {
    hide BootTranslation, PT.Tree, PT.Walk, IsDevice, IsKernel, Pairs, TablePage, ReadByte;
    var block, buffer := Range(r.bootInfoPhys, PAGE_SIZE), Range(r.memMapPhys, MEMMAP_BYTES);
    assert block in AlwaysListed(r) && buffer in AlwaysListed(r);
    var range := if r.bootInfoPhys <= a < r.bootInfoPhys + PAGE_SIZE then block else buffer;
    ListedIsIdentity(mem, dir, plan, t1, t2, t3, range, a);
  }
}

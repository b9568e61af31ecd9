/** The boot loader's ELF64 loader: one block of pages spanning every PT_LOAD segment,
    zeroed, with each segment's file bytes copied to its place. */
module ElfLoader {
  import opened Words
  import opened Bytes
  import opened ElfFile

  /** `Wild` is not an answer of the loader: it marks the point where the loader would
      read or write outside its buffers. */
  datatype LoadStatus = LoadError | OutOfResources | Wild

  datatype Outcome =
    | Loaded(physBase: u64, entryOffset: u64, totalSize: u64, minVaddr: u64)
    | Failed(status: LoadStatus)

  predicate Loads(ph: Phdr) { ph.ptype == PT_LOAD && ph.memsz != 0 }

  function SegmentEnd(ph: Phdr): u64 { Wrap64(ph.vaddr + ph.memsz) }

  // ---------------------------------------------------------------------
  // The span of the image
  // ---------------------------------------------------------------------

  function MinVaddr(phdrs: seq<Phdr>): u64 {
    if phdrs == [] then TWO_64 - 1 else
    var m, ph := MinVaddr(phdrs[..|phdrs| - 1]), phdrs[|phdrs| - 1];
    if Loads(ph) && ph.vaddr < m then ph.vaddr else m
  }

  function MaxVaddr(phdrs: seq<Phdr>): u64 {
    if phdrs == [] then 0 else
    var m, ph := MaxVaddr(phdrs[..|phdrs| - 1]), phdrs[|phdrs| - 1];
    if Loads(ph) && SegmentEnd(ph) > m then SegmentEnd(ph) else m
  }

  /** The span is the tightest one around every loaded segment. */
  lemma {:induction false} SpanBounds(phdrs: seq<Phdr>)
    ensures forall ph <- phdrs :: ph.ptype == 1 && ph.memsz != 0 ==>
              && MinVaddr(phdrs) <= ph.vaddr && SegmentEnd(ph) == (ph.vaddr + ph.memsz) % TWO_64 <= MaxVaddr(phdrs)
    ensures MinVaddr(phdrs) < TWO_64 - 1 ==>
              exists ph <- phdrs :: ph.ptype == 1 && ph.memsz != 0 && ph.vaddr == MinVaddr(phdrs)
    ensures MaxVaddr(phdrs) > 0 ==>
              exists ph <- phdrs :: ph.ptype == 1 && ph.memsz != 0 && SegmentEnd(ph) == MaxVaddr(phdrs)
  {
    if phdrs != [] {
      var init := phdrs[..|phdrs| - 1];
      SpanBounds(init);
      assert phdrs == init + [phdrs[|phdrs| - 1]];
    }
  }

  method FindSpan(phdrs: seq<Phdr>) returns (minLoadVaddr: u64, maxLoadVaddr: u64)
    ensures minLoadVaddr == MinVaddr(phdrs) && maxLoadVaddr == MaxVaddr(phdrs)
  {
    minLoadVaddr, maxLoadVaddr := TWO_64 - 1, 0;
    for i := 0 to |phdrs|
      invariant minLoadVaddr == MinVaddr(phdrs[..i]) && maxLoadVaddr == MaxVaddr(phdrs[..i])
    {
      assert phdrs[..i + 1][..i] == phdrs[..i];
      if Loads(phdrs[i]) {
        if phdrs[i].vaddr < minLoadVaddr {
          minLoadVaddr := phdrs[i].vaddr;
        }
        var segEnd := Wrap64(phdrs[i].vaddr + phdrs[i].memsz);
        if segEnd > maxLoadVaddr {
          maxLoadVaddr := segEnd;
        }
      }
    }
    assert phdrs[..|phdrs|] == phdrs;
  }

  // ---------------------------------------------------------------------
  // Copying the segments
  // ---------------------------------------------------------------------

  datatype Fill = Filled(memory: bytes) | Broken(status: LoadStatus)

  /** The bytes a read of the segment finds in the file. */
  function Available(file: bytes, ph: Phdr): nat {
    if ph.offset <= |file| then Min(ph.filesz, |file| - ph.offset) else 0
  }

  /** Those bytes. */
  function Found(file: bytes, ph: Phdr): (r: bytes)
    ensures |r| == Available(file, ph)
  {
    if ph.offset <= |file| then file[ph.offset..ph.offset + Available(file, ph)] else []
  }

  function RelativeOffset(ph: Phdr, minVaddr: u64): u64 { Wrap64(ph.vaddr - minVaddr) }

  /** Memory after the segments of `phdrs` have been read over it, in order. */
  function FillSegments(file: bytes, phdrs: seq<Phdr>, minVaddr: u64, memory: bytes): (r: Fill)
    ensures r.Filled? ==> |r.memory| == |memory|
  {
    if phdrs == [] then Filled(memory) else
    var before, ph := FillSegments(file, phdrs[..|phdrs| - 1], minVaddr, memory), phdrs[|phdrs| - 1];
    if before.Broken? || !Loads(ph) || ph.filesz == 0 then before else
    var rel, n := RelativeOffset(ph, minVaddr), Available(file, ph);
    if rel + n > |memory| then Broken(Wild) else
    if n != ph.filesz then Broken(LoadError) else
    Filled(Overlay(before.memory, rel, Found(file, ph)))
  }

  /** Reading bytes from the file into the pages. */
  method CopyAt(image: array<byte>, off: nat, data: bytes)
    requires off + |data| <= image.Length
    modifies image
    ensures image[..] == Overlay(old(image[..]), off, data)
  {
    forall k | 0 <= k < |data| {
      image[off + k] := data[k];
    }
    forall k | 0 <= k < image.Length ensures image[k] == Overlay(old(image[..]), off, data)[k] {
      OverlayAt(old(image[..]), off, data, k);
    }
  }

  method CopySegments(file: bytes, phdrs: seq<Phdr>, minVaddr: u64, image: array<byte>)
    returns (failure: Option<LoadStatus>)
    modifies image
    ensures failure == None ==> FillSegments(file, phdrs, minVaddr, old(image[..])) == Filled(image[..])
    ensures failure.Some? ==> FillSegments(file, phdrs, minVaddr, old(image[..])) == Broken(failure.value)
  {
    for i := 0 to |phdrs|
      invariant FillSegments(file, phdrs[..i], minVaddr, old(image[..])) == Filled(image[..])
    {
      hide Overlay, Available, Found, RelativeOffset;
      assert phdrs[..i + 1][..i] == phdrs[..i];
      var ph := phdrs[i];
      if Loads(ph) && ph.filesz > 0 {
        var rel, n := RelativeOffset(ph, minVaddr), Available(file, ph);
        if rel + n > image.Length {
          BrokenStays(file, phdrs, i + 1, minVaddr, old(image[..]));
          return Some(Wild);
        }
        CopyAt(image, rel, Found(file, ph));
        if n != ph.filesz {
          BrokenStays(file, phdrs, i + 1, minVaddr, old(image[..]));
          return Some(LoadError);
        }
      }
    }
    assert phdrs[..|phdrs|] == phdrs;
    return None;
  }

  lemma {:induction false} BrokenStays(file: bytes, phdrs: seq<Phdr>, n: nat, minVaddr: u64, memory: bytes)
    requires n <= |phdrs| && FillSegments(file, phdrs[..n], minVaddr, memory).Broken?
    ensures FillSegments(file, phdrs, minVaddr, memory) == FillSegments(file, phdrs[..n], minVaddr, memory)
    decreases |phdrs| - n
  {
    if n < |phdrs| {
      assert phdrs[..n + 1][..n] == phdrs[..n];
      BrokenStays(file, phdrs, n + 1, minVaddr, memory);
    } else {
      assert phdrs[..n] == phdrs;
    }
  }

  // ---------------------------------------------------------------------
  // The loader
  // ---------------------------------------------------------------------

  /** Bytes [off, off + n) of the file, when it has them all. */
  function ReadAt(file: bytes, off: nat, n: nat): (r: Option<bytes>)
    ensures r.Some? ==> |r.value| == n
  {
    if off + n <= |file| then Some(file[off..off + n]) else None
  }

  predicate AcceptedHeader(h: Ehdr) {
    |h.ident| == 16 && h.ident[..4] == ELF_MAGIC && h.ident[4] == 2 && h.phoff != 0 && h.phnum != 0
  }

  /** The entries are as large as the loader reads, and their offsets fit an int. */
  predicate PointersInside(h: Ehdr) {
    h.phentsize >= PHDR_SIZE && (h.phnum - 1) * h.phentsize < TWO_31
  }

  function TableSize(h: Ehdr): nat { h.phnum * h.phentsize }

  /** The table entries the loader's pointer arithmetic reaches. */
  function PhdrTable(table: bytes, h: Ehdr): (r: seq<Phdr>)
    requires h.phentsize >= PHDR_SIZE && |table| == TableSize(h)
    ensures |r| == h.phnum
  {
    seq(h.phnum, i requires 0 <= i < h.phnum =>
      StrideInside(i, h.phnum, h.phentsize);
      PhdrAt(table, i * h.phentsize))
  }

  lemma StrideInside(i: nat, n: nat, stride: nat)
    requires i < n && stride >= PHDR_SIZE
    ensures i * stride + PHDR_SIZE <= n * stride
  {
    assert (i + 1) * stride <= n * stride;
  }

  function TotalSize(phdrs: seq<Phdr>): u64 { Wrap64(MaxVaddr(phdrs) - MinVaddr(phdrs)) }

  function NumPages(totalSize: u64): nat { Wrap64(totalSize + (PAGE_SIZE - 1)) / PAGE_SIZE }

  /** The pages AllocatePages gives: where they are, and what happens to be in them
      (zeros after the bytes listed). */
  datatype Pages = Pages(physBase: u64, before: bytes)

  function Stale(pages: Pages, k: nat): byte { if k < |pages.before| then pages.before[k] else 0 }

  /** The pages when the span has been zeroed; the rest of the last page is as it was. */
  function Zeroed(pages: Pages, total: u64): (r: bytes)
    requires total <= NumPages(total) * PAGE_SIZE
    ensures |r| == NumPages(total) * PAGE_SIZE
  {
    seq(NumPages(total) * PAGE_SIZE, k requires 0 <= k => if k < total then 0 else Stale(pages, k))
  }

  /** Outcome and final contents of the pages, given whether the pool has room for the
      header table and which pages the firmware gives (None: refused). */
  function LoadSpec(file: bytes, poolOk: bool, answer: Option<Pages>): (Outcome, bytes) {
    if |file| < EHDR_SIZE then (Failed(LoadError), []) else
    var h := EhdrAt(file);
    if !AcceptedHeader(h) then (Failed(LoadError), []) else
    if !poolOk then (Failed(OutOfResources), []) else
    var table := ReadAt(file, h.phoff, TableSize(h));
    if table == None then (Failed(LoadError), []) else
    if !PointersInside(h) then (Failed(Wild), []) else
    LoadSegments(file, h.entry, PhdrTable(table.value, h), answer)
  }

  /** The files whose header the loader accepts, in their bytes: the ELF magic, a 64-bit class, and a
      program header table that is somewhere and has entries. */
  lemma AcceptedBytes(file: bytes)
    requires |file| >= 64
    ensures AcceptedHeader(EhdrAt(file)) <==>
            && file[0] == 0x7F && file[1] == 'E' as byte && file[2] == 'L' as byte && file[3] == 'F' as byte
            && file[4] == 2 && U64(file, 32) != Some(0) && U16(file, 56) != Some(0)
  {
    hide U16, U32, U64;
    assert file[..16][..4] == [file[0], file[1], file[2], file[3]];
  }

  /** How the headers decide the outcome, in the fields of the file; past them it is up to the program
      headers, read one after the other in steps of e_phentsize from e_phoff on. */
  lemma HeaderOutcome(file: bytes, poolOk: bool, answer: Option<Pages>)
    ensures |file| < 64 || !AcceptedHeader(EhdrAt(file)) ==> LoadSpec(file, poolOk, answer).0 == Failed(LoadError)
    ensures |file| >= 64 && AcceptedHeader(EhdrAt(file)) ==>
              var phoff, entrySize, n := U64(file, 32).value, U16(file, 54).value, U16(file, 56).value;
              var r := LoadSpec(file, poolOk, answer);
              if !poolOk then r.0 == Failed(OutOfResources)
              else if phoff + n * entrySize > |file| then r.0 == Failed(LoadError)
              else if entrySize < 56 || (n - 1) * entrySize > 0x7FFF_FFFF then r.0 == Failed(Wild)
              else exists phdrs: seq<Phdr> ::
                && |phdrs| == n && r == LoadSegments(file, U64(file, 24).value, phdrs, answer)
                && forall i | 0 <= i < n ::
                     && 0 <= phoff + i * entrySize <= |file| - 56
                     && phdrs[i] == PhdrAt(file, phoff + i * entrySize)
  {
    hide U16, U32, U64, AcceptedHeader, LoadSegments, PhdrAt;
    if |file| >= 64 && AcceptedHeader(EhdrAt(file)) && poolOk {
      var h := EhdrAt(file);
      var read := ReadAt(file, h.phoff, TableSize(h));
      if read.Some? && PointersInside(h) {
        var phdrs := PhdrTable(read.value, h);
        forall i | 0 <= i < h.phnum
          ensures 0 <= h.phoff + i * h.phentsize <= |file| - 56
          ensures phdrs[i] == PhdrAt(file, h.phoff + i * h.phentsize)
        {
          StrideInside(i, h.phnum, h.phentsize);
          TableEntryInFile(file, h.phoff, read.value, i * h.phentsize);
        }
      }
    }
  }

  lemma TableEntryInFile(file: bytes, off: nat, table: bytes, at: nat)
    requires off + |table| <= |file| && table == file[off..off + |table|] && at + PHDR_SIZE <= |table|
    ensures PhdrAt(table, at) == PhdrAt(file, off + at)
  {
    hide U32, U64;
    SameField32(file, off, table, at);
    SameField32(file, off, table, at + 4);
    SameField64(file, off, table, at + 8);
    SameField64(file, off, table, at + 16);
    SameField64(file, off, table, at + 24);
    SameField64(file, off, table, at + 32);
    SameField64(file, off, table, at + 40);
    SameField64(file, off, table, at + 48);
  }

  lemma SameField32(file: bytes, off: nat, table: bytes, at: nat)
    requires off + |table| <= |file| && table == file[off..off + |table|] && at + 4 <= |table|
    ensures U32(table, at) == U32(file, off + at)
  {
    PartOfSlice(file, off, table, at, at + 4);
  }

  lemma SameField64(file: bytes, off: nat, table: bytes, at: nat)
    requires off + |table| <= |file| && table == file[off..off + |table|] && at + 8 <= |table|
    ensures U64(table, at) == U64(file, off + at)
  {
    hide U32;
    SameField32(file, off, table, at);
    SameField32(file, off, table, at + 4);
  }

  function LoadSegments(file: bytes, entry: u64, phdrs: seq<Phdr>, answer: Option<Pages>): (Outcome, bytes) {
    var minVaddr, total := MinVaddr(phdrs), TotalSize(phdrs);
    if minVaddr == TWO_64 - 1 || MaxVaddr(phdrs) == 0 then (Failed(LoadError), []) else
    if answer.None? then (Failed(OutOfResources), []) else
    if total > NumPages(total) * PAGE_SIZE then (Failed(Wild), []) else
    var fill := FillSegments(file, phdrs, minVaddr, Zeroed(answer.value, total));
    if fill.Broken? then (Failed(fill.status), []) else
    if Wrap64(entry - minVaddr) >= total then (Failed(LoadError), []) else
    (Loaded(answer.value.physBase, Wrap64(entry - minVaddr), total, minVaddr), fill.memory)
  }

  /** LoadElf; `image` is the contents of the pages. */
  method LoadElf(file: bytes, poolOk: bool, answer: Option<Pages>) returns (r: Outcome, image: array<byte>)
    ensures r == LoadSpec(file, poolOk, answer).0
    ensures r.Loaded? ==> image[..] == LoadSpec(file, poolOk, answer).1
  {
    hide EhdrAt, PhdrAt, LoadSegments, AcceptedHeader, PhdrTable;
    image := new byte[0];
    if |file| < EHDR_SIZE {
      return Failed(LoadError), image;
    }
    var ehdr := EhdrAt(file);
    if !AcceptedHeader(ehdr) {
      return Failed(LoadError), image;
    }
    if !poolOk {
      return Failed(OutOfResources), image;
    }
    var table := ReadAt(file, ehdr.phoff, TableSize(ehdr));
    if table == None {
      return Failed(LoadError), image;
    }
    if !PointersInside(ehdr) {
      return Failed(Wild), image;
    }
    r, image := PlaceSegments(file, ehdr.entry, PhdrTable(table.value, ehdr), answer);
  }

  /** Sections 3 to 6 of LoadElf. */
  method PlaceSegments(file: bytes, entry: u64, phdrs: seq<Phdr>, answer: Option<Pages>)
    returns (r: Outcome, image: array<byte>)
    ensures r == LoadSegments(file, entry, phdrs, answer).0
    ensures r.Loaded? ==> image[..] == LoadSegments(file, entry, phdrs, answer).1
  {
    image := new byte[0];
    var minVaddr, maxVaddr := FindSpan(phdrs);
    if minVaddr == TWO_64 - 1 || maxVaddr == 0 {
      return Failed(LoadError), image;
    }
    var span: int := maxVaddr;
    var totalSize := Wrap64(span - minVaddr);
    if answer.None? {
      return Failed(OutOfResources), image;
    }
    var pages := answer.value;
    image := new byte[NumPages(totalSize) * PAGE_SIZE];
    forall k | 0 <= k < image.Length {
      image[k] := Stale(pages, k);
    }
    if totalSize > image.Length {
      return Failed(Wild), image;
    }
    forall k | 0 <= k < totalSize {
      image[k] := 0;
    }
    assert image[..] == Zeroed(pages, totalSize);
    var failure := CopySegments(file, phdrs, minVaddr, image);
    if failure.Some? {
      return Failed(failure.value), image;
    }
    var entryOffset := Wrap64(entry - minVaddr);
    if entryOffset >= totalSize {
      return Failed(LoadError), image;
    }
    return Loaded(answer.value.physBase, entryOffset, totalSize, minVaddr), image;
  }

  // ---------------------------------------------------------------------
  // What a loaded image contains
  // ---------------------------------------------------------------------

  /** The PT_LOAD rule: file size at most memory size, and no wrap-around. */
  ghost predicate WellSized(phdrs: seq<Phdr>) {
    forall ph <- phdrs :: Loads(ph) ==> ph.vaddr + ph.memsz < TWO_64 && ph.filesz <= ph.memsz
  }

  ghost predicate Disjoint(phdrs: seq<Phdr>) {
    forall i, j | 0 <= i < j < |phdrs| && Loads(phdrs[i]) && Loads(phdrs[j]) ::
      || phdrs[i].vaddr + phdrs[i].memsz <= phdrs[j].vaddr
      || phdrs[j].vaddr + phdrs[j].memsz <= phdrs[i].vaddr
  }

  ghost predicate AllAbove(phdrs: seq<Phdr>, minVaddr: u64) {
    forall ph <- phdrs :: Loads(ph) ==> minVaddr <= ph.vaddr
  }

  /** Address a is inside the file part of the segment. */
  predicate FileCovers(ph: Phdr, a: int) { Loads(ph) && ph.vaddr <= a < ph.vaddr + ph.filesz }

  /** One segment over memory that is already filled. */
  lemma FillLast(file: bytes, phdrs: seq<Phdr>, minVaddr: u64, memory: bytes, k: nat)
    requires phdrs != [] && FillSegments(file, phdrs, minVaddr, memory).Filled? && k < |memory|
    requires AllAbove(phdrs, minVaddr)
    ensures var before := FillSegments(file, phdrs[..|phdrs| - 1], minVaddr, memory);
            var ph := phdrs[|phdrs| - 1];
            && before.Filled?
            && (FileCovers(ph, minVaddr + k) ==>
                ph.offset + ph.filesz <= |file|
                && FillSegments(file, phdrs, minVaddr, memory).memory[k] == file[ph.offset + (minVaddr + k - ph.vaddr)])
            && (!FileCovers(ph, minVaddr + k) ==>
                FillSegments(file, phdrs, minVaddr, memory).memory[k] == before.memory[k])
  {
    hide Overlay, RelativeOffset, Found, Available;
    var before, ph := FillSegments(file, phdrs[..|phdrs| - 1], minVaddr, memory), phdrs[|phdrs| - 1];
    assert ph in phdrs;
    if Loads(ph) && ph.filesz > 0 {
      ReadPlace(file, ph, minVaddr, k);
      OverlayAt(before.memory, RelativeOffset(ph, minVaddr), Found(file, ph), k);
    }
  }

  /** Where a complete read of a segment puts its bytes. */
  lemma ReadPlace(file: bytes, ph: Phdr, minVaddr: u64, k: nat)
    requires minVaddr <= ph.vaddr && Loads(ph) && Available(file, ph) == ph.filesz && ph.filesz > 0
    ensures ph.offset + ph.filesz <= |file| && RelativeOffset(ph, minVaddr) == ph.vaddr - minVaddr
    ensures var rel := RelativeOffset(ph, minVaddr);
            && (FileCovers(ph, minVaddr + k) <==> rel <= k < rel + |Found(file, ph)|)
            && (FileCovers(ph, minVaddr + k) ==>
                Found(file, ph)[k - rel] == file[ph.offset + (minVaddr + k - ph.vaddr)])
  {
  }

  lemma {:induction false} FillOutside(file: bytes, phdrs: seq<Phdr>, minVaddr: u64, memory: bytes, k: nat)
    requires FillSegments(file, phdrs, minVaddr, memory).Filled? && k < |memory|
    requires AllAbove(phdrs, minVaddr)
    requires forall ph <- phdrs :: !FileCovers(ph, minVaddr + k)
    ensures FillSegments(file, phdrs, minVaddr, memory).memory[k] == memory[k]
  {
    if phdrs != [] {
      FillLast(file, phdrs, minVaddr, memory, k);
      var init := phdrs[..|phdrs| - 1];
      assert phdrs[|phdrs| - 1] in phdrs;
      forall ph <- init ensures !FileCovers(ph, minVaddr + k) {
        assert ph in phdrs;
      }
      FillOutside(file, init, minVaddr, memory, k);
    }
  }

  lemma AboveInit(phdrs: seq<Phdr>, minVaddr: u64)
    requires phdrs != [] && AllAbove(phdrs, minVaddr)
    ensures AllAbove(phdrs[..|phdrs| - 1], minVaddr)
  {
  }

  lemma {:induction false} FillInside(file: bytes, phdrs: seq<Phdr>, minVaddr: u64, memory: bytes, i: nat, k: nat)
    requires FillSegments(file, phdrs, minVaddr, memory).Filled? && k < |memory|
    requires AllAbove(phdrs, minVaddr) && WellSized(phdrs) && Disjoint(phdrs)
    requires i < |phdrs| && FileCovers(phdrs[i], minVaddr + k)
    ensures var ph := phdrs[i];
            && ph.offset + ph.filesz <= |file|
            && FillSegments(file, phdrs, minVaddr, memory).memory[k] == file[ph.offset + (minVaddr + k - ph.vaddr)]
  {
    hide FillSegments, SegmentEnd, AllAbove;
    assert AllAbove(phdrs[..|phdrs| - 1], minVaddr) by { AboveInit(phdrs, minVaddr); }
    var last := |phdrs| - 1;
    FillLast(file, phdrs, minVaddr, memory, k);
    if i < last {
      assert phdrs[i] in phdrs && phdrs[last] in phdrs;
      assert !FileCovers(phdrs[last], minVaddr + k);
      FillInside(file, phdrs[..last], minVaddr, memory, i, k);
    }
  }

  /** On success the span is exact and the entry point is inside it, although its
      offset is an unsigned difference. */
  lemma LoadedSpan(file: bytes, entry: u64, phdrs: seq<Phdr>, answer: Option<Pages>)
    requires WellSized(phdrs)
    requires LoadSegments(file, entry, phdrs, answer).0.Loaded?
    ensures var (r, memory) := LoadSegments(file, entry, phdrs, answer);
            && answer.Some? && answer.value.physBase == r.physBase && r.minVaddr == MinVaddr(phdrs)
            && r.minVaddr + r.totalSize == MaxVaddr(phdrs) && r.totalSize <= |memory|
            && r.minVaddr <= entry < MaxVaddr(phdrs) && r.entryOffset == entry - r.minVaddr
            && FillSegments(file, phdrs, r.minVaddr, Zeroed(answer.value, r.totalSize)) == Filled(memory)
  {
    hide FillSegments, MinVaddr, MaxVaddr, TotalSize, WellSized, Zeros;
    var (r, memory) := LoadSegments(file, entry, phdrs, answer);
    SpanOrdered(phdrs);
    EntryInside(entry, r.minVaddr, MaxVaddr(phdrs));
  }

  /** The image is zeros overlaid by each segment: inside a segment its file bytes, then
      zeros up to its memory size; between segments zeros. */
  lemma LoadedImage(file: bytes, entry: u64, phdrs: seq<Phdr>, answer: Option<Pages>, a: u64)
    requires WellSized(phdrs) && Disjoint(phdrs)
    requires LoadSegments(file, entry, phdrs, answer).0.Loaded?
    ensures var (r, memory) := LoadSegments(file, entry, phdrs, answer);
            && r.minVaddr == MinVaddr(phdrs) && MaxVaddr(phdrs) - r.minVaddr <= |memory|
            && (forall i | 0 <= i < |phdrs| && FileCovers(phdrs[i], a) ::
                  && r.minVaddr <= a < MaxVaddr(phdrs) && phdrs[i].offset + phdrs[i].filesz <= |file|
                  && memory[a - r.minVaddr] == file[phdrs[i].offset + (a - phdrs[i].vaddr)])
            && ((forall ph <- phdrs :: !FileCovers(ph, a)) && r.minVaddr <= a < MaxVaddr(phdrs) ==>
                memory[a - r.minVaddr] == 0)
  {
    hide FillSegments, MinVaddr, MaxVaddr, TotalSize, WellSized, Disjoint, LoadSegments, AllAbove;
    var (r, memory) := LoadSegments(file, entry, phdrs, answer);
    LoadedSpan(file, entry, phdrs, answer);
    AboveMin(phdrs);
    var zeroed := Zeroed(answer.value, r.totalSize);
    forall i | 0 <= i < |phdrs| && FileCovers(phdrs[i], a)
      ensures r.minVaddr <= a < MaxVaddr(phdrs) && phdrs[i].offset + phdrs[i].filesz <= |file|
      ensures memory[a - r.minVaddr] == file[phdrs[i].offset + (a - phdrs[i].vaddr)]
    {
      CoveredInSpan(phdrs, i, a);
      FillInside(file, phdrs, r.minVaddr, zeroed, i, a - r.minVaddr);
    }
    if (forall ph <- phdrs :: !FileCovers(ph, a)) && r.minVaddr <= a < MaxVaddr(phdrs) {
      FillOutside(file, phdrs, r.minVaddr, zeroed, a - r.minVaddr);
    }
  }

  lemma SpanOrdered(phdrs: seq<Phdr>)
    requires WellSized(phdrs) && MinVaddr(phdrs) != TWO_64 - 1
    ensures MinVaddr(phdrs) < MaxVaddr(phdrs)
    ensures TotalSize(phdrs) == MaxVaddr(phdrs) - MinVaddr(phdrs)
  {
    SpanBounds(phdrs);
  }

  lemma AboveMin(phdrs: seq<Phdr>)
    ensures AllAbove(phdrs, MinVaddr(phdrs))
  {
    SpanBounds(phdrs);
  }

  lemma CoveredInSpan(phdrs: seq<Phdr>, i: nat, a: u64)
    requires WellSized(phdrs) && i < |phdrs| && FileCovers(phdrs[i], a)
    ensures MinVaddr(phdrs) <= a < MaxVaddr(phdrs)
  {
    SpanBounds(phdrs);
    assert phdrs[i] in phdrs;
  }

  /** An unsigned offset below the span puts the entry point inside it. */
  lemma EntryInside(entry: u64, min: u64, max: u64)
    requires min < max
    ensures Wrap64(entry - min) < max - min <==> min <= entry < max
    ensures min <= entry ==> Wrap64(entry - min) == entry - min
  {
  }

  // ---------------------------------------------------------------------
  // When the loader succeeds, fails, and leaves its pages
  // ---------------------------------------------------------------------

  predicate SegmentCopied(ph: Phdr) { Loads(ph) && ph.filesz > 0 }

  /** Reading the segment puts bytes past the end of a block of `size` bytes. */
  predicate Overruns(file: bytes, ph: Phdr, minVaddr: u64, size: nat) {
    SegmentCopied(ph) && RelativeOffset(ph, minVaddr) + Available(file, ph) > size
  }

  /** The file holds all of the segment's bytes. */
  predicate InFile(file: bytes, ph: Phdr) { SegmentCopied(ph) ==> ph.offset + ph.filesz <= |file| }

  /** The segment is copied completely and inside the block. */
  predicate CopiesWell(file: bytes, ph: Phdr, minVaddr: u64, size: nat) {
    !Overruns(file, ph, minVaddr, size) && InFile(file, ph)
  }

  /** The first segment that is not copied well, if it is one of the first n. */
  ghost predicate StopsAt(file: bytes, phdrs: seq<Phdr>, minVaddr: u64, size: nat, i: nat)
    ensures StopsAt(file, phdrs, minVaddr, size, i) ==> i < |phdrs|
  {
    && i < |phdrs| && !CopiesWell(file, phdrs[i], minVaddr, size)
    && forall j | 0 <= j < i :: CopiesWell(file, phdrs[j], minVaddr, size)
  }

  ghost predicate AllCopied(file: bytes, phdrs: seq<Phdr>, minVaddr: u64, size: nat) {
    forall ph <- phdrs :: CopiesWell(file, ph, minVaddr, size)
  }

  /** One segment more: what was decided stays, and a good copy goes on to the next. */
  lemma FillNext(file: bytes, phdrs: seq<Phdr>, minVaddr: u64, memory: bytes)
    requires phdrs != []
    ensures var before, ph := FillSegments(file, phdrs[..|phdrs| - 1], minVaddr, memory), phdrs[|phdrs| - 1];
            var after := FillSegments(file, phdrs, minVaddr, memory);
            && (before.Broken? ==> after == before)
            && (before.Filled? ==>
                  && (after.Filled? <==> CopiesWell(file, ph, minVaddr, |memory|))
                  && (!after.Filled? ==>
                        after == Broken(if Overruns(file, ph, minVaddr, |memory|) then Wild else LoadError)))
  {
    hide Overlay, Found, RelativeOffset;
  }

  /** For any program headers, well-formed or not: the copy succeeds exactly when every segment is
      copied well, and otherwise it is the first that is not which decides how it ends. */
  lemma {:induction false} FillOutcome(file: bytes, phdrs: seq<Phdr>, minVaddr: u64, memory: bytes)
    ensures FillSegments(file, phdrs, minVaddr, memory).Filled? <==> AllCopied(file, phdrs, minVaddr, |memory|)
    ensures forall i: nat | StopsAt(file, phdrs, minVaddr, |memory|, i) ::
              FillSegments(file, phdrs, minVaddr, memory)
              == Broken(if Overruns(file, phdrs[i], minVaddr, |memory|) then Wild else LoadError)
  {
    if phdrs != [] {
      hide FillSegments, CopiesWell, Overruns, AllCopied, StopsAt;
      FillOutcome(file, phdrs[..|phdrs| - 1], minVaddr, memory);
      FillNext(file, phdrs, minVaddr, memory);
      StopNext(file, phdrs, minVaddr, |memory|);
    }
  }

  lemma StopNext(file: bytes, phdrs: seq<Phdr>, minVaddr: u64, size: nat)
    requires phdrs != []
    ensures var init, ph := phdrs[..|phdrs| - 1], phdrs[|phdrs| - 1];
            && (AllCopied(file, phdrs, minVaddr, size) <==>
                AllCopied(file, init, minVaddr, size) && CopiesWell(file, ph, minVaddr, size))
            && (forall i: nat | StopsAt(file, phdrs, minVaddr, size, i) ::
                  if i < |init| then StopsAt(file, init, minVaddr, size, i) && phdrs[i] == init[i]
                  else phdrs[i] == ph && AllCopied(file, init, minVaddr, size) && !CopiesWell(file, ph, minVaddr, size))
  {
    hide CopiesWell;
    var init, ph := phdrs[..|phdrs| - 1], phdrs[|phdrs| - 1];
    forall q <- init ensures q in phdrs {}
    assert phdrs == init + [ph];
  }

  /** The pages requested hold the span exactly when rounding the span up does not overflow. */
  lemma PagesHold(total: u64)
    ensures total <= NumPages(total) * PAGE_SIZE <==> total <= TWO_64 - PAGE_SIZE
  {
    if total > TWO_64 - PAGE_SIZE {
      RoundingOverflows(total);
    }
  }

  lemma RoundingOverflows(total: u64)
    requires total > TWO_64 - PAGE_SIZE
    ensures NumPages(total) == 0
  {
    assert Wrap64(total + (PAGE_SIZE - 1)) < PAGE_SIZE;
  }

  /** There is something to load, and the firmware gives the pages for it. */
  ghost predicate Starts(phdrs: seq<Phdr>, answer: Option<Pages>) {
    MinVaddr(phdrs) != TWO_64 - 1 && MaxVaddr(phdrs) != 0 && answer.Some?
  }

  /** How loading ends, for any program headers, also those with a file size above the memory size
      or an end that wraps round: it succeeds exactly when it starts, every segment is copied well
      into the pages of the span, and the entry point is inside the span, counted from its start in
      64 bits. It leaves its pages exactly when rounding the span up overflows, or the first
      segment that is not copied well overruns them. */
  lemma LoadSucceedsIff(file: bytes, entry: u64, phdrs: seq<Phdr>, answer: Option<Pages>)
    ensures var size := NumPages(TotalSize(phdrs)) * PAGE_SIZE;
            && (LoadSegments(file, entry, phdrs, answer).0.Loaded? <==>
                  && Starts(phdrs, answer) && TotalSize(phdrs) <= TWO_64 - PAGE_SIZE
                  && AllCopied(file, phdrs, MinVaddr(phdrs), size)
                  && Wrap64(entry - MinVaddr(phdrs)) < TotalSize(phdrs))
            && (LoadSegments(file, entry, phdrs, answer).0 == Failed(OutOfResources) <==>
                  MinVaddr(phdrs) != TWO_64 - 1 && MaxVaddr(phdrs) != 0 && answer.None?)
            && (LoadSegments(file, entry, phdrs, answer).0 == Failed(Wild) <==>
                  && Starts(phdrs, answer)
                  && (TotalSize(phdrs) > TWO_64 - PAGE_SIZE
                      || exists i: nat :: StopsAt(file, phdrs, MinVaddr(phdrs), size, i)
                                     && Overruns(file, phdrs[i], MinVaddr(phdrs), size)))
  {
    hide FillSegments, MinVaddr, MaxVaddr, TotalSize, NumPages, AllCopied, Overruns, CopiesWell, Wrap64;
    PagesHold(TotalSize(phdrs));
    if Starts(phdrs, answer) && TotalSize(phdrs) <= TWO_64 - PAGE_SIZE {
      FillOutcome(file, phdrs, MinVaddr(phdrs), Zeroed(answer.value, TotalSize(phdrs)));
      SomeStop(file, phdrs, MinVaddr(phdrs), NumPages(TotalSize(phdrs)) * PAGE_SIZE);
    }
  }

  lemma {:induction false} SomeStop(file: bytes, phdrs: seq<Phdr>, minVaddr: u64, size: nat)
    ensures AllCopied(file, phdrs, minVaddr, size) || exists i: nat :: StopsAt(file, phdrs, minVaddr, size, i)
  {
    hide CopiesWell;
    if phdrs != [] {
      var init, ph := phdrs[..|phdrs| - 1], phdrs[|phdrs| - 1];
      SomeStop(file, init, minVaddr, size);
      assert phdrs == init + [ph];
      if exists i: nat :: StopsAt(file, init, minVaddr, size, i) {
        var i: nat :| StopsAt(file, init, minVaddr, size, i);
        assert StopsAt(file, phdrs, minVaddr, size, i);
      } else if !CopiesWell(file, ph, minVaddr, size) {
        assert StopsAt(file, phdrs, minVaddr, size, |init|);
      }
    }
  }

  ghost predicate SegmentsInFile(file: bytes, phdrs: seq<Phdr>) { forall ph <- phdrs :: InFile(file, ph) }

  /** For program headers that obey the PT_LOAD rule no write leaves the pages, unless the rounding
      overflows, and the loader succeeds exactly when there is a segment to load, the firmware gives
      the pages, the file holds every segment, and the entry point lies in the span. */
  lemma WellSizedOutcome(file: bytes, entry: u64, phdrs: seq<Phdr>, answer: Option<Pages>)
    requires WellSized(phdrs)
    ensures LoadSegments(file, entry, phdrs, answer).0 == Failed(Wild) <==>
            (exists ph <- phdrs :: Loads(ph)) && answer.Some? && TotalSize(phdrs) > TWO_64 - PAGE_SIZE
    ensures LoadSegments(file, entry, phdrs, answer).0.Loaded? <==>
            && (exists ph <- phdrs :: Loads(ph)) && answer.Some? && TotalSize(phdrs) <= TWO_64 - PAGE_SIZE
            && SegmentsInFile(file, phdrs) && MinVaddr(phdrs) <= entry < MaxVaddr(phdrs)
  {
    hide FillSegments, MinVaddr, MaxVaddr, TotalSize, WellSized, SegmentsInFile, Loads, NumPages, SegmentEnd;
    hide LoadSegments, AllCopied, Overruns, StopsAt, Wrap64;
    SpanExists(phdrs);
    LoadSucceedsIff(file, entry, phdrs, answer);
    if exists ph <- phdrs :: Loads(ph) {
      SpanOrdered(phdrs);
      EntryInside(entry, MinVaddr(phdrs), MaxVaddr(phdrs));
      PagesHold(TotalSize(phdrs));
      if TotalSize(phdrs) <= TWO_64 - PAGE_SIZE {
        NoOverrun(file, phdrs, NumPages(TotalSize(phdrs)) * PAGE_SIZE);
      }
    }
  }

  lemma NoOverrun(file: bytes, phdrs: seq<Phdr>, size: nat)
    requires WellSized(phdrs) && MaxVaddr(phdrs) - MinVaddr(phdrs) <= size
    ensures forall i | 0 <= i < |phdrs| :: !Overruns(file, phdrs[i], MinVaddr(phdrs), size)
    ensures forall i: nat | StopsAt(file, phdrs, MinVaddr(phdrs), size, i) ::
              !Overruns(file, phdrs[i], MinVaddr(phdrs), size)
    ensures AllCopied(file, phdrs, MinVaddr(phdrs), size) <==> SegmentsInFile(file, phdrs)
  {
    hide MinVaddr, MaxVaddr, InFile;
    SpanBounds(phdrs);
    forall i | 0 <= i < |phdrs| ensures !Overruns(file, phdrs[i], MinVaddr(phdrs), size) {
      var ph := phdrs[i];
      assert ph in phdrs;
      if Loads(ph) {
        assert RelativeOffset(ph, MinVaddr(phdrs)) == ph.vaddr - MinVaddr(phdrs);
        assert SegmentEnd(ph) == ph.vaddr + ph.memsz;
      }
    }
    forall ph <- phdrs ensures CopiesWell(file, ph, MinVaddr(phdrs), size) <==> InFile(file, ph) {
      var i :| 0 <= i < |phdrs| && phdrs[i] == ph;
    }
  }

  lemma SpanExists(phdrs: seq<Phdr>)
    requires WellSized(phdrs)
    ensures MinVaddr(phdrs) != TWO_64 - 1 <==> exists ph <- phdrs :: Loads(ph)
    ensures MinVaddr(phdrs) != TWO_64 - 1 ==> MaxVaddr(phdrs) != 0
  {
    SpanBounds(phdrs);
  }
}

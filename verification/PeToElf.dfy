/** Conversion of a PE32+ image into an ELF64 executable with one PT_LOAD segment per section. */
module PeToElf {
  import opened Words
  import opened Bytes
  import opened PeFile
  import opened ElfFile

  const SEGMENT_ALIGN := 0x1000

  datatype ConvertError = NotPe(error: PeError) | NothingToLoad | FieldOverflow

  /** align_up for the segment alignment. */
  function AlignUp(x: nat): nat { (x + (SEGMENT_ALIGN - 1)) / SEGMENT_ALIGN * SEGMENT_ALIGN }

  /** The raw bytes of a section, cut short where the file ends. */
  function Data(pe: bytes, s: Section): bytes {
    var lo: int, n: int := s.rawPtr, s.rawSize;
    Slice(pe, lo, lo + n)
  }

  /** How many bytes of raw data a section has in the file. */
  function RawSize(pe: bytes, s: Section): u32 {
    if s.rawPtr <= |pe| then Min(s.rawSize, |pe| - s.rawPtr) else 0
  }

  /** The raw data are the bytes of the file from rawPtr on, rawSize of them or as many as there are. */
  lemma DataMeaning(pe: bytes, s: Section, k: nat)
    ensures |Data(pe, s)| == RawSize(pe, s)
    ensures k < RawSize(pe, s) <==> k < s.rawSize && s.rawPtr + k < |pe|
    ensures k < RawSize(pe, s) ==> Data(pe, s)[k] == pe[s.rawPtr + k]
    ensures RawSize(pe, s) > 0 ==>
              s.rawPtr + RawSize(pe, s) <= |pe| && Data(pe, s) == pe[s.rawPtr..s.rawPtr + RawSize(pe, s)]
  {
  }

  function Loadable(sections: seq<Section>): seq<Section> {
    if sections == [] then []
    else Loadable(sections[..|sections| - 1])
         + if sections[|sections| - 1].rawSize > 0 then [sections[|sections| - 1]] else []
  }

  /** Where the data of section i goes: after the headers and the sections before it. */
  function FileOffset(pe: bytes, secs: seq<Section>, i: nat): nat
    requires i <= |secs|
  {
    if i == 0 then AlignUp(EHDR_SIZE + PHDR_SIZE * |secs|)
    else AlignUp(FileOffset(pe, secs, i - 1) + |Data(pe, secs[i - 1])|)
  }

  lemma {:induction false} FileOffsetBound(pe: bytes, secs: seq<Section>, i: nat)
    requires i <= |secs| < TWO_16
    ensures FileOffset(pe, secs, i) <= 0x40_0000 + i * 0x1_0000_2000 < TWO_63
  {
    if i > 0 {
      FileOffsetBound(pe, secs, i - 1);
    }
  }

  /** struct.pack accepts the addresses of every segment. */
  predicate Fits(imageBase: u64, secs: seq<Section>) {
    |secs| < TWO_16 && forall s <- secs :: imageBase + s.vaddr < TWO_64
  }

  function Flags(s: Section): u32 {
    var x := s.characteristics / 0x2000_0000 % 2;
    var w := s.characteristics / 0x8000_0000 % 2;
    x * 1 + w * 2 + 4
  }

  /** Every segment is readable; it is executable and writable exactly as its section is
      (characteristics bits 29 and 31). */
  lemma FlagsMeaning(s: Section)
    ensures 4 <= Flags(s) < 8
    ensures Flags(s) % 2 == 1 <==> s.characteristics / 0x2000_0000 % 2 == 1
    ensures Flags(s) / 2 % 2 == 1 <==> s.characteristics >= 0x8000_0000
  {
    var x, w := s.characteristics / 0x2000_0000 % 2, s.characteristics / 0x8000_0000 % 2;
    assert Flags(s) == 4 + 2 * w + x;
  }

  /** The program header of section i. */
  function Segment(pe: bytes, imageBase: u64, secs: seq<Section>, i: nat): Phdr
    requires i < |secs| && Fits(imageBase, secs)
  {
    FileOffsetBound(pe, secs, i);
    var s := secs[i];
    var vaddr: u64 := imageBase + s.vaddr;
    var filesz := |Data(pe, s)|;
    Phdr(PT_LOAD, Flags(s), FileOffset(pe, secs, i), vaddr, vaddr, filesz, Max(filesz, s.vsize), SEGMENT_ALIGN)
  }

  function Header(entry: u64, phnum: u16): Ehdr {
    Ehdr(ELF_MAGIC + [2, 1, 1] + Zeros(9), 2, 0x3E, 1, entry, EHDR_SIZE, 0, 0, EHDR_SIZE, PHDR_SIZE, phnum, 0, 0, 0)
  }

  function EncodePhdrs(phdrs: seq<Phdr>): (r: bytes)
    ensures |r| == PHDR_SIZE * |phdrs|
  {
    if phdrs == [] then [] else EncodePhdrs(phdrs[..|phdrs| - 1]) + EncodePhdr(phdrs[|phdrs| - 1])
  }

  function Segments(pe: bytes, imageBase: u64, secs: seq<Section>, n: nat): seq<Phdr>
    requires n <= |secs| && Fits(imageBase, secs)
  {
    seq(n, i requires 0 <= i < n => Segment(pe, imageBase, secs, i))
  }

  lemma {:induction false} OffsetsAscend(pe: bytes, secs: seq<Section>, i: nat, j: nat)
    requires i < j <= |secs|
    ensures FileOffset(pe, secs, i) + |Data(pe, secs[i])| <= FileOffset(pe, secs, j)
    decreases j
  {
    if i < j - 1 {
      OffsetsAscend(pe, secs, i, j - 1);
    }
  }

  lemma OffsetsAligned(pe: bytes, secs: seq<Section>, i: nat)
    requires i <= |secs|
    ensures FileOffset(pe, secs, i) % SEGMENT_ALIGN == 0
    ensures EHDR_SIZE + PHDR_SIZE * |secs| <= FileOffset(pe, secs, i)
  {
    if i > 0 {
      OffsetsAscend(pe, secs, 0, i);
    }
  }

  /** No page of the file is left empty between the headers and the sections' data. */
  lemma OffsetsTight(pe: bytes, secs: seq<Section>, i: nat)
    requires i <= |secs|
    ensures FileOffset(pe, secs, 0) < 64 + 56 * |secs| + 0x1000
    ensures i > 0 ==> FileOffset(pe, secs, i) < FileOffset(pe, secs, i - 1) + RawSize(pe, secs[i - 1]) + 0x1000
  {
  }

  /** The file with its headers and the data of the first n sections. */
  function Emitted(pe: bytes, imageBase: u64, entry: u64, secs: seq<Section>, n: nat): (r: bytes)
    requires n <= |secs| && Fits(imageBase, secs)
    ensures |r| == FileOffset(pe, secs, |secs|)
  {
    OffsetsAligned(pe, secs, |secs|);
    if n == 0 then
      EncodedLengths(Header(entry, |secs|));
      Overlay(Overlay(Zeros(FileOffset(pe, secs, |secs|)), 0, EncodeEhdr(Header(entry, |secs|))),
              EHDR_SIZE, EncodePhdrs(Segments(pe, imageBase, secs, |secs|)))
    else
      OffsetsAscend(pe, secs, n - 1, |secs|);
      Overlay(Emitted(pe, imageBase, entry, secs, n - 1), FileOffset(pe, secs, n - 1), Data(pe, secs[n - 1]))
  }

  /** The whole conversion, errors included. */
  function Converted(pe: bytes, customEntry: Option<int>): Result<bytes, ConvertError> {
    match Parsed(pe)
    case Err(e) => Err(NotPe(e))
    case Ok(image) =>
      var entry := if customEntry.Some? then customEntry.value else image.imageBase + image.entryRva;
      var secs := Loadable(image.sections);
      if secs == [] then Err(NothingToLoad) else
      if !(0 <= entry < TWO_64) || !Fits(image.imageBase, secs) then Err(FieldOverflow) else
      Ok(Emitted(pe, image.imageBase, entry, secs, |secs|))
  }

  lemma {:induction false} LoadableCount(sections: seq<Section>)
    ensures |Loadable(sections)| <= |sections|
  {
    if sections != [] {
      LoadableCount(sections[..|sections| - 1]);
    }
  }

  /** The selection keeps the order: a section with raw data stands after as many of them as there
      are before it. */
  lemma {:induction false} LoadableAt(sections: seq<Section>, i: nat)
    requires i < |sections| && sections[i].rawSize != 0
    ensures |Loadable(sections[..i])| < |Loadable(sections)|
    ensures Loadable(sections)[|Loadable(sections[..i])|] == sections[i]
  {
    var init := sections[..|sections| - 1];
    if i < |init| {
      LoadableAt(init, i);
      assert init[..i] == sections[..i];
    } else {
      assert init == sections[..i];
    }
  }

  /** And it takes nothing else. */
  lemma {:induction false} LoadableOnly(sections: seq<Section>, j: nat) returns (i: nat)
    requires j < |Loadable(sections)|
    ensures i < |sections| && sections[i].rawSize != 0 && j == |Loadable(sections[..i])|
    ensures Loadable(sections)[j] == sections[i]
  {
    var init := sections[..|sections| - 1];
    if j < |Loadable(init)| {
      i := LoadableOnly(init, j);
      assert init[..i] == sections[..i];
    } else {
      i := |init|;
    }
  }

  /** Exactly when there is a file to emit, and otherwise why not. */
  lemma ConvertsIff(pe: bytes, customEntry: Option<int>)
    ensures forall e :: Converted(pe, customEntry) == Err(NotPe(e)) <==> Parsed(pe) == Err(e)
    ensures Converted(pe, customEntry) == Err(NothingToLoad) <==>
            Parsed(pe).Ok? && forall s <- Parsed(pe).value.sections :: s.rawSize == 0
    ensures Converted(pe, customEntry).Ok? <==>
            && Parsed(pe).Ok?
            && var img := Parsed(pe).value;
               && (exists i :: 0 <= i < |img.sections| && img.sections[i].rawSize > 0)
               && |Loadable(img.sections)| < 65536
               && (forall i | 0 <= i < |img.sections| ::
                     img.sections[i].rawSize > 0 ==> img.imageBase + img.sections[i].vaddr < TWO_64)
               && (match customEntry
                   case Some(e) => 0 <= e < TWO_64
                   case None => img.imageBase + img.entryRva < TWO_64)
  {
    hide Parsed, Emitted, Loadable;
    if Parsed(pe).Ok? {
      var img := Parsed(pe).value;
      var secs := Loadable(img.sections);
      forall i | 0 <= i < |img.sections| && img.sections[i].rawSize > 0 ensures img.sections[i] in secs {
        LoadableAt(img.sections, i);
      }
      forall j | 0 <= j < |secs|
        ensures exists i :: 0 <= i < |img.sections| && img.sections[i].rawSize > 0 && img.sections[i] == secs[j]
      {
        var i := LoadableOnly(img.sections, j);
      }
      if secs != [] {
        var i := LoadableOnly(img.sections, 0);
      }
    }
  }

  // ---------------------------------------------------------------------
  // What the emitted file says
  // ---------------------------------------------------------------------

  lemma {:induction false} EncodedPhdrAt(phdrs: seq<Phdr>, i: nat)
    requires i < |phdrs|
    ensures EncodePhdrs(phdrs)[PHDR_SIZE * i..PHDR_SIZE * i + PHDR_SIZE] == EncodePhdr(phdrs[i])
  {
    var init := phdrs[..|phdrs| - 1];
    if i < |init| {
      EncodedPhdrAt(init, i);
      assert EncodePhdrs(phdrs)[PHDR_SIZE * i..PHDR_SIZE * i + PHDR_SIZE]
          == EncodePhdrs(init)[PHDR_SIZE * i..PHDR_SIZE * i + PHDR_SIZE];
    }
  }

  /** Writing section data leaves everything before it as it was. */
  lemma {:induction false} EmittedBefore(pe: bytes, imageBase: u64, entry: u64, secs: seq<Section>,
                                         m: nat, n: nat, lo: nat, hi: nat)
    requires m <= n <= |secs| && Fits(imageBase, secs)
    requires lo <= hi <= FileOffset(pe, secs, m)
    ensures hi <= |Emitted(pe, imageBase, entry, secs, n)|
    ensures Emitted(pe, imageBase, entry, secs, n)[lo..hi] == Emitted(pe, imageBase, entry, secs, m)[lo..hi]
    decreases n
  {
    hide FileOffset, Data, Overlay, Header, Segments, EncodePhdrs, EncodeEhdr;
    if m < |secs| { OffsetsAscend(pe, secs, m, |secs|); }
    if m < n {
      OffsetsAscend(pe, secs, n - 1, |secs|);
      if m < n - 1 { OffsetsAscend(pe, secs, m, n - 1); }
      EmittedBefore(pe, imageBase, entry, secs, m, n - 1, lo, hi);
      OverlaySlices(Emitted(pe, imageBase, entry, secs, n - 1), FileOffset(pe, secs, n - 1),
                    Data(pe, secs[n - 1]), lo, hi);
    }
  }

  /** Parsing the emitted file gives back the headers that were built, and every
      segment's file range holds its section's data; the ranges are aligned, in order,
      after the headers and inside the file. */
  lemma EmittedFile(pe: bytes, imageBase: u64, entry: u64, secs: seq<Section>, i: nat)
    requires i < |secs| && Fits(imageBase, secs)
    ensures var elf := Emitted(pe, imageBase, entry, secs, |secs|);
            var ph := Segment(pe, imageBase, secs, i);
            && EHDR_SIZE + PHDR_SIZE * |secs| <= |elf|
            && EhdrAt(elf) == Header(entry, |secs|)
            && PhdrAt(elf, EHDR_SIZE + PHDR_SIZE * i) == ph
            && EHDR_SIZE + PHDR_SIZE * |secs| <= ph.offset && ph.offset % SEGMENT_ALIGN == 0
            && ph.offset + ph.filesz <= |elf| && ph.filesz <= ph.memsz
            && ph.filesz == RawSize(pe, secs[i]) && elf[ph.offset..ph.offset + ph.filesz] == Data(pe, secs[i])
            && (ph.filesz > 0 ==>
                  && secs[i].rawPtr + ph.filesz <= |pe|
                  && elf[ph.offset..ph.offset + ph.filesz] == pe[secs[i].rawPtr..secs[i].rawPtr + ph.filesz])
            && (forall j | i < j < |secs| :: ph.offset + ph.filesz <= Segment(pe, imageBase, secs, j).offset)
  {
    hide Emitted, FileOffset, Header, Data, EhdrAt, PhdrAt;
    EmittedHeaders(pe, imageBase, entry, secs, i);
    EmittedData(pe, imageBase, entry, secs, i);
    DataMeaning(pe, secs[i], 0);
    OffsetsAligned(pe, secs, i);
    forall j | i < j < |secs|
      ensures FileOffset(pe, secs, i) + |Data(pe, secs[i])| <= FileOffset(pe, secs, j)
    {
      OffsetsAscend(pe, secs, i, j);
    }
  }

  /** Between the headers and the sections' data, and after them, the file holds zeros. */
  lemma {:induction false} EmittedGaps(pe: bytes, imageBase: u64, entry: u64, secs: seq<Section>, n: nat, a: nat)
    requires n <= |secs| && Fits(imageBase, secs) && 64 + 56 * |secs| <= a < |Emitted(pe, imageBase, entry, secs, n)|
    requires forall i | 0 <= i < n ::
               !(FileOffset(pe, secs, i) <= a < FileOffset(pe, secs, i) + RawSize(pe, secs[i]))
    ensures Emitted(pe, imageBase, entry, secs, n)[a] == 0
  {
    hide FileOffset, Data, RawSize, Overlay;
    if n == 0 {
      StartGaps(pe, imageBase, entry, secs, a);
    } else {
      OffsetsAscend(pe, secs, n - 1, |secs|);
      DataMeaning(pe, secs[n - 1], 0);
      var before := Emitted(pe, imageBase, entry, secs, n - 1);
      OverlayAt(before, FileOffset(pe, secs, n - 1), Data(pe, secs[n - 1]), a);
      EmittedGaps(pe, imageBase, entry, secs, n - 1, a);
    }
  }

  lemma StartGaps(pe: bytes, imageBase: u64, entry: u64, secs: seq<Section>, a: nat)
    requires Fits(imageBase, secs) && 64 + 56 * |secs| <= a < |Emitted(pe, imageBase, entry, secs, 0)|
    ensures Emitted(pe, imageBase, entry, secs, 0)[a] == 0
  {
    hide FileOffset, EncodeEhdr, Header, Segment, EncodePhdr, Overlay;
    var size, header := FileOffset(pe, secs, |secs|), Header(entry, |secs|);
    var ps := EncodePhdrs(Segments(pe, imageBase, secs, |secs|));
    OffsetsAligned(pe, secs, |secs|);
    IdentSize(entry, |secs|);
    EncodedLengths(header);
    OverlayAt(Zeros(size), 0, EncodeEhdr(header), a);
    OverlayAt(Overlay(Zeros(size), 0, EncodeEhdr(header)), EHDR_SIZE, ps, a);
  }

  /** The emitted file in its bytes: the file header's fields at their places in ELF64, for a
      little-endian x86-64 executable, and one loadable segment per section whose addresses and
      sizes in memory are the section's. */
  lemma EmittedBytes(pe: bytes, imageBase: u64, entry: u64, secs: seq<Section>, i: nat)
    requires i < |secs| && Fits(imageBase, secs)
    ensures var elf := Emitted(pe, imageBase, entry, secs, |secs|);
            && 64 + 56 * |secs| <= |elf|
            && elf[..7] == [0x7F, 'E' as byte, 'L' as byte, 'F' as byte, 2, 1, 1]
            && U16(elf, 16) == Some(2) && U16(elf, 18) == Some(0x3E) && U32(elf, 20) == Some(1)
            && U64(elf, 24) == Some(entry) && U64(elf, 32) == Some(64)
            && elf[7..16] == [0, 0, 0, 0, 0, 0, 0, 0, 0] && U64(elf, 40) == Some(0) && U32(elf, 48) == Some(0)
            && U16(elf, 58) == U16(elf, 60) == U16(elf, 62) == Some(0)
            && U16(elf, 52) == Some(64) && U16(elf, 54) == Some(56) && U16(elf, 56) == Some(|secs|)
    ensures var elf, p := Emitted(pe, imageBase, entry, secs, |secs|), 64 + 56 * i;
            && U32(elf, p) == Some(1) && U32(elf, p + 4) == Some(Flags(secs[i]))
            && U64(elf, p + 8) == Some(FileOffset(pe, secs, i))
            && U64(elf, p + 16) == U64(elf, p + 24) == Some(imageBase + secs[i].vaddr)
            && U64(elf, p + 32) == Some(RawSize(pe, secs[i]))
            && U64(elf, p + 40) == Some(Max(RawSize(pe, secs[i]), secs[i].vsize))
            && U64(elf, p + 48) == Some(4096)
  {
    hide Emitted, FileOffset, Data, U16, U32, U64, Flags;
    EmittedHeaders(pe, imageBase, entry, secs, i);
    DataMeaning(pe, secs[i], 0);
    var elf := Emitted(pe, imageBase, entry, secs, |secs|);
    assert elf[..7] == elf[..16][..7] && elf[7..16] == elf[..16][7..];
  }

  /** The entry point asked for: the caller's, or ImageBase + AddressOfEntryPoint. */
  lemma ConvertedEntry(pe: bytes, customEntry: Option<int>, elf: bytes)
    requires Converted(pe, customEntry) == Ok(elf)
    ensures Parsed(pe).Ok? && |elf| >= 64
    ensures U64(elf, 24).value == match customEntry
                                  case Some(e) => e
                                  case None => Parsed(pe).value.imageBase + Parsed(pe).value.entryRva
    ensures U16(elf, 56) == Some(|Loadable(Parsed(pe).value.sections)|)
  {
    hide Emitted, Parsed, Loadable, U16, U32, U64, RawSize, FileOffset, Flags;
    var img := Parsed(pe).value;
    var entry := match customEntry
                 case Some(e) => e
                 case None => img.imageBase + img.entryRva;
    EmittedBytes(pe, img.imageBase, entry, Loadable(img.sections), 0);
  }

  lemma EmittedData(pe: bytes, imageBase: u64, entry: u64, secs: seq<Section>, i: nat)
    requires i < |secs| && Fits(imageBase, secs)
    ensures var elf := Emitted(pe, imageBase, entry, secs, |secs|);
            var off, data := FileOffset(pe, secs, i), Data(pe, secs[i]);
            && off + |data| <= |elf| && elf[off..off + |data|] == data
            && |data| == RawSize(pe, secs[i])
            && (|data| > 0 ==>
                  && secs[i].rawPtr + |data| <= |pe|
                  && elf[off..off + |data|] == pe[secs[i].rawPtr..secs[i].rawPtr + |data|])
  {
    hide Emitted, FileOffset, Data, RawSize;
    DataWritten(pe, imageBase, entry, secs, i);
    DataMeaning(pe, secs[i], 0);
  }

  lemma DataWritten(pe: bytes, imageBase: u64, entry: u64, secs: seq<Section>, i: nat)
    requires i < |secs| && Fits(imageBase, secs)
    ensures var elf := Emitted(pe, imageBase, entry, secs, |secs|);
            var off, data := FileOffset(pe, secs, i), Data(pe, secs[i]);
            off + |data| <= |elf| && elf[off..off + |data|] == data
  {
    hide Data, AlignUp, Segments, EncodeEhdr, Header, Overlay;
    var off, data := FileOffset(pe, secs, i), Data(pe, secs[i]);
    OffsetsAscend(pe, secs, i, |secs|);
    OffsetsAscend(pe, secs, i, i + 1);
    OverlaySlices(Emitted(pe, imageBase, entry, secs, i), off, data, off, off);
    EmittedBefore(pe, imageBase, entry, secs, i + 1, |secs|, off, off + |data|);
  }

  lemma EmittedHeaders(pe: bytes, imageBase: u64, entry: u64, secs: seq<Section>, i: nat)
    requires i < |secs| && Fits(imageBase, secs)
    ensures var elf := Emitted(pe, imageBase, entry, secs, |secs|);
            && EHDR_SIZE + PHDR_SIZE * |secs| <= |elf|
            && EhdrAt(elf) == Header(entry, |secs|)
            && PhdrAt(elf, EHDR_SIZE + PHDR_SIZE * i) == Segment(pe, imageBase, secs, i)
            && elf[EHDR_SIZE + PHDR_SIZE * i..EHDR_SIZE + PHDR_SIZE * i + PHDR_SIZE]
               == EncodePhdr(Segment(pe, imageBase, secs, i))
  {
    hide EhdrAt, PhdrAt, EncodeEhdr, EncodePhdr, Header, Segment, FileOffset, Overlay, Emitted;
    var elf := Emitted(pe, imageBase, entry, secs, |secs|);
    var h, ps := Header(entry, |secs|), Segments(pe, imageBase, secs, |secs|);
    var p := EHDR_SIZE + PHDR_SIZE * i;
    OffsetsAligned(pe, secs, 0);
    OffsetsAligned(pe, secs, |secs|);
    EmittedStart(pe, imageBase, entry, secs);
    EmittedBefore(pe, imageBase, entry, secs, 0, |secs|, 0, EHDR_SIZE);
    assert elf[0..EHDR_SIZE] == elf[..EHDR_SIZE];
    assert |h.ident| == 16 by { IdentSize(entry, |secs|); }
    EhdrRoundTrip(elf, h);
    EncodedPhdrAt(ps, i);
    PartOfSlice(Emitted(pe, imageBase, entry, secs, 0), EHDR_SIZE, EncodePhdrs(ps),
                PHDR_SIZE * i, PHDR_SIZE * i + PHDR_SIZE);
    EmittedBefore(pe, imageBase, entry, secs, 0, |secs|, p, p + PHDR_SIZE);
    PhdrRoundTrip(elf, p, ps[i]);
  }

  lemma IdentSize(entry: u64, phnum: u16)
    ensures |Header(entry, phnum).ident| == 16
  {
  }

  /** Before any section data: the two header tables. */
  lemma EmittedStart(pe: bytes, imageBase: u64, entry: u64, secs: seq<Section>)
    requires Fits(imageBase, secs)
    ensures var first := Emitted(pe, imageBase, entry, secs, 0);
            var ps := EncodePhdrs(Segments(pe, imageBase, secs, |secs|));
            && EHDR_SIZE + |ps| <= |first|
            && first[0..EHDR_SIZE] == EncodeEhdr(Header(entry, |secs|))
            && first[EHDR_SIZE..EHDR_SIZE + |ps|] == ps
  {
    hide EncodeEhdr, EncodePhdr, Header, Segment, FileOffset, Overlay;
    var h, ps := Header(entry, |secs|), Segments(pe, imageBase, secs, |secs|);
    var size := FileOffset(pe, secs, |secs|);
    OffsetsAligned(pe, secs, |secs|);
    IdentSize(entry, |secs|);
    EncodedLengths(h);
    OverlaySlices(Zeros(size), 0, EncodeEhdr(h), 0, 0);
    OverlaySlices(Overlay(Zeros(size), 0, EncodeEhdr(h)), EHDR_SIZE, EncodePhdrs(ps), 0, EHDR_SIZE);
  }

  // ---------------------------------------------------------------------
  // The conversion as it runs
  // ---------------------------------------------------------------------

  /** The sections with raw data. */
  method SelectLoadable(sections: seq<Section>) returns (secs: seq<Section>)
    ensures secs == Loadable(sections)
  {
    secs := [];
    for i := 0 to |sections|
      invariant secs == Loadable(sections[..i])
    {
      assert sections[..i + 1][..i] == sections[..i];
      if sections[i].rawSize > 0 {
        secs := secs + [sections[i]];
      }
    }
    assert sections[..|sections|] == sections;
  }

  /** to_elf: lays out the segments while advancing the file offset, then writes
      headers and data into a zeroed buffer. */
  method ToElf(pe: bytes, customEntry: Option<int>) returns (r: Result<bytes, ConvertError>)
    ensures r == Converted(pe, customEntry)
  {
    hide Emitted, Segment, FileOffset, EncodePhdrs, EncodeEhdr, Header, PeFile.Parsed, Loadable;
    var parsed := ParsePeSections(pe);
    if parsed.Err? {
      return Err(NotPe(parsed.error));
    }
    var image := parsed.value;
    var imageBase, ep: int := image.imageBase, image.entryRva;
    var entry := imageBase + ep;
    if customEntry.Some? {
      entry := customEntry.value;
    }
    var loadSecs := SelectLoadable(image.sections);
    if loadSecs == [] {
      return Err(NothingToLoad);
    }
    LoadableCount(image.sections);
    if !(0 <= entry < TWO_64) || |loadSecs| >= TWO_16 || exists s <- loadSecs :: imageBase + s.vaddr >= TWO_64 {
      return Err(FieldOverflow);
    }
    var out := Emit(pe, image.imageBase, entry, loadSecs);
    return Ok(out);
  }

  /** The layout loop: program headers, data with its place, and the final offset. */
  method LayOut(pe: bytes, imageBase: u64, loadSecs: seq<Section>)
    returns (phdrs: seq<Phdr>, blobs: seq<(nat, bytes)>, curOff: nat)
    requires Fits(imageBase, loadSecs)
    ensures curOff == FileOffset(pe, loadSecs, |loadSecs|)
    ensures phdrs == Segments(pe, imageBase, loadSecs, |loadSecs|)
    ensures |blobs| == |loadSecs|
    ensures forall j | 0 <= j < |blobs| :: blobs[j] == (FileOffset(pe, loadSecs, j), Data(pe, loadSecs[j]))
  {
    hide Fits, Flags, Data, AlignUp, Segments;
    curOff := AlignUp(EHDR_SIZE + PHDR_SIZE * |loadSecs|);
    phdrs, blobs := [], [];
    CountFits(imageBase, loadSecs);
    NoSegments(pe, imageBase, loadSecs);
    for i := 0 to |loadSecs|
      invariant curOff == FileOffset(pe, loadSecs, i)
      invariant phdrs == Segments(pe, imageBase, loadSecs, i)
      invariant |blobs| == i
      invariant forall j | 0 <= j < i :: blobs[j] == (FileOffset(pe, loadSecs, j), Data(pe, loadSecs[j]))
    {
      var s := loadSecs[i];
      var data := Data(pe, s);
      FileOffsetBound(pe, loadSecs, i);
      AddressFits(imageBase, loadSecs, i);
      DataSize(pe, s);
      var fileOff: u64, vaddr: u64, filesz: u64 := curOff, imageBase + s.vaddr, |data|;
      curOff := AlignUp(curOff + |data|);
      NextSegment(pe, imageBase, loadSecs, i);
      phdrs := phdrs + [Phdr(PT_LOAD, Flags(s), fileOff, vaddr, vaddr, filesz, Max(filesz, s.vsize), SEGMENT_ALIGN)];
      blobs := blobs + [(fileOff, data)];
    }
  }

  /** The writes of to_elf. */
  method Emit(pe: bytes, imageBase: u64, entry: u64, loadSecs: seq<Section>) returns (out: bytes)
    requires Fits(imageBase, loadSecs)
    ensures out == Emitted(pe, imageBase, entry, loadSecs, |loadSecs|)
  {
    hide EncodeEhdr, EncodePhdr, Header, Overlay, Fits, FileOffset, Data, Segments;
    var phdrs, blobs, curOff := LayOut(pe, imageBase, loadSecs);
    OffsetsAligned(pe, loadSecs, |loadSecs|);
    CountFits(imageBase, loadSecs);
    var header := Header(entry, |loadSecs|);
    IdentSize(entry, |loadSecs|);
    EncodedLengths(header);
    OverlaySlices(Zeros(curOff), 0, EncodeEhdr(header), 0, 0);
    SegmentCount(pe, imageBase, loadSecs);
    out := Overlay(Zeros(curOff), 0, EncodeEhdr(header));
    out := Overlay(out, EHDR_SIZE, EncodePhdrs(phdrs));
    for i := 0 to |blobs|
      invariant out == Emitted(pe, imageBase, entry, loadSecs, i)
    {
      OffsetsAscend(pe, loadSecs, i, |loadSecs|);
      out := Overlay(out, blobs[i].0, blobs[i].1);
    }
  }

  lemma NoSegments(pe: bytes, imageBase: u64, secs: seq<Section>)
    requires Fits(imageBase, secs)
    ensures Segments(pe, imageBase, secs, 0) == []
  {
  }

  lemma NextSegment(pe: bytes, imageBase: u64, secs: seq<Section>, i: nat)
    requires Fits(imageBase, secs) && i < |secs|
    ensures Segments(pe, imageBase, secs, i + 1) == Segments(pe, imageBase, secs, i) + [Segment(pe, imageBase, secs, i)]
  {
    hide Segment;
  }

  lemma SegmentCount(pe: bytes, imageBase: u64, secs: seq<Section>)
    requires Fits(imageBase, secs)
    ensures |Segments(pe, imageBase, secs, |secs|)| == |secs|
  {
  }

  lemma DataSize(pe: bytes, s: Section)
    ensures |Data(pe, s)| < TWO_32
  {
  }

  lemma AddressFits(imageBase: u64, secs: seq<Section>, i: nat)
    requires Fits(imageBase, secs) && i < |secs|
    ensures imageBase + secs[i].vaddr < TWO_64
  {
    assert secs[i] in secs;
  }

  lemma CountFits(imageBase: u64, secs: seq<Section>)
    requires Fits(imageBase, secs)
    ensures |secs| < TWO_16
  {
  }
}

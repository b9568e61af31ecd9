/** Reading the headers of a PE32+ image. */
module PeFile {
  import opened Words
  import opened Bytes

  datatype PeError = MissingMz | MissingPe | UnsupportedMagic | Truncated

  datatype Section = Section(vaddr: u32, vsize: u32, rawPtr: u32, rawSize: u32, characteristics: u32)

  datatype Image = Image(imageBase: u64, entryRva: u32, sections: seq<Section>)

  const SECTION_HEADER := 40

  /** The section header at `off`, when it lies inside the file. */
  function SectionAt(pe: bytes, off: nat): Section
    requires off + SECTION_HEADER <= |pe|
  {
    Section(U32(pe, off + 12).value, U32(pe, off + 8).value, U32(pe, off + 20).value,
            U32(pe, off + 16).value, U32(pe, off + 36).value)
  }

  /** What the file says, in closed form: the fixed headers first, then a table of
      40-byte section headers that must lie wholly inside the file. */
  function Parsed(pe: bytes): Result<Image, PeError> {
    if Slice(pe, 0, 2) != [0x4D, 0x5A] then Err(MissingMz) else
    var peOff := U32(pe, 0x3C);
    if peOff == None then Err(Truncated) else
    if Slice(pe, peOff.value, peOff.value + 4) != [0x50, 0x45, 0, 0] then Err(MissingPe) else
    var coff := peOff.value + 4;
    var opt := coff + 20;
    if opt + 2 > |pe| then Err(Truncated) else
    if U16(pe, opt).value != 0x20B then Err(UnsupportedMagic) else
    if opt + 32 > |pe| then Err(Truncated) else
    var n, table := U16(pe, coff + 2).value, opt + U16(pe, coff + 16).value;
    if n > 0 && table + SECTION_HEADER * n > |pe| then Err(Truncated) else
    Ok(Image(U64(pe, opt + 24).value, U32(pe, opt + 16).value,
             seq(n, i requires 0 <= i < n => SectionAt(pe, table + SECTION_HEADER * i))))
  }

  /** parse_pe_sections: reads field by field and stops at the first one outside the file. */
  method ParsePeSections(pe: bytes) returns (r: Result<Image, PeError>)
    ensures r == Parsed(pe)
  {
    hide U16, U32, U64, Slice, SectionAt;
    if Slice(pe, 0, 2) != [0x4D, 0x5A] {
      return Err(MissingMz);
    }
    var peOff := U32(pe, 0x3C);
    if peOff == None {
      return Err(Truncated);
    }
    var ntHeaders: int := peOff.value;
    if Slice(pe, ntHeaders, ntHeaders + 4) != [0x50, 0x45, 0, 0] {
      return Err(MissingPe);
    }
    var coffOff := ntHeaders + 4;
    var numberOfSections, sizeOfOptionalHeader := U16(pe, coffOff + 2), U16(pe, coffOff + 16);
    var optOff := coffOff + 20;
    var magic := U16(pe, optOff);
    if numberOfSections == None || sizeOfOptionalHeader == None || magic == None {
      return Err(Truncated);
    }
    if magic.value != 0x20B {
      return Err(UnsupportedMagic);
    }
    var entry, imageBase := U32(pe, optOff + 16), U64(pe, optOff + 24);
    if entry == None || imageBase == None {
      return Err(Truncated);
    }
    var table := optOff + sizeOfOptionalHeader.value;
    var sections := ReadSections(pe, table, numberOfSections.value);
    if sections == None {
      return Err(Truncated);
    }
    return Ok(Image(imageBase.value, entry.value, sections.value));
  }

  /** The loop over the section table. */
  method ReadSections(pe: bytes, table: nat, n: nat) returns (r: Option<seq<Section>>)
    ensures r == if n > 0 && table + SECTION_HEADER * n > |pe| then None
                 else Some(seq(n, i requires 0 <= i < n => SectionAt(pe, table + SECTION_HEADER * i)))
  {
    hide U32;
    var sections: seq<Section> := [];
    for i := 0 to n
      invariant |sections| == i && (i > 0 ==> table + SECTION_HEADER * i <= |pe|)
      invariant forall j | 0 <= j < i :: sections[j] == SectionAt(pe, table + SECTION_HEADER * j)
    {
      var off := table + i * SECTION_HEADER;
      var vsize, vaddr, rawSize, rawPtr, characteristics :=
        U32(pe, off + 8), U32(pe, off + 12), U32(pe, off + 16), U32(pe, off + 20), U32(pe, off + 36);
      if vsize == None || vaddr == None || rawSize == None || rawPtr == None || characteristics == None {
        return None;
      }
      sections := sections + [Section(vaddr.value, vsize.value, rawPtr.value, rawSize.value, characteristics.value)];
    }
    assert sections == seq(n, i requires 0 <= i < n => SectionAt(pe, table + SECTION_HEADER * i));
    return Some(sections);
  }

  // ---------------------------------------------------------------------
  // Every well-formed file is read as what it was laid out from
  // ---------------------------------------------------------------------

  /** A section header as the PE/COFF format lays it out. */
  function SectionHeader(name: bytes, s: Section, relocations: bytes): bytes {
    name + Le32(s.vsize) + Le32(s.vaddr) + Le32(s.rawSize) + Le32(s.rawPtr) + relocations + Le32(s.characteristics)
  }

  ghost predicate At(pe: bytes, off: nat, data: bytes) {
    off + |data| <= |pe| && pe[off..off + |data|] == data
  }

  ghost predicate HeaderAt(pe: bytes, off: nat, s: Section) {
    exists name: bytes, relocations: bytes :: |name| == 8 && |relocations| == 12
      && At(pe, off, SectionHeader(name, s, relocations))
  }

  /** A PE32+ file whose headers stand at peOff, with an optional header of optSize bytes. */
  ghost predicate LaidOut(pe: bytes, peOff: u32, optSize: u16, img: Image) {
    var coff := peOff + 4;
    var opt := coff + 20;
    && |img.sections| < TWO_16
    && At(pe, 0, [0x4D, 0x5A]) && At(pe, 0x3C, Le32(peOff)) && At(pe, peOff, [0x50, 0x45, 0, 0])
    && At(pe, coff + 2, Le16(|img.sections|)) && At(pe, coff + 16, Le16(optSize))
    && At(pe, opt, Le16(0x20B)) && At(pe, opt + 16, Le32(img.entryRva)) && At(pe, opt + 24, Le64(img.imageBase))
    && forall i | 0 <= i < |img.sections| :: HeaderAt(pe, opt + optSize + SECTION_HEADER * i, img.sections[i])
  }

  lemma SectionHeaderRead(pe: bytes, off: nat, name: bytes, s: Section, relocations: bytes)
    requires |name| == 8 && |relocations| == 12 && At(pe, off, SectionHeader(name, s, relocations))
    ensures off + SECTION_HEADER <= |pe| && SectionAt(pe, off) == s
  {
    hide Le32, U32;
    var h := SectionHeader(name, s, relocations);
    PartOfSlice(pe, off, h, 8, 12);
    ReadBack32(pe, off + 8, s.vsize);
    PartOfSlice(pe, off, h, 12, 16);
    ReadBack32(pe, off + 12, s.vaddr);
    PartOfSlice(pe, off, h, 16, 20);
    ReadBack32(pe, off + 16, s.rawSize);
    PartOfSlice(pe, off, h, 20, 24);
    ReadBack32(pe, off + 20, s.rawPtr);
    PartOfSlice(pe, off, h, 36, 40);
    ReadBack32(pe, off + 36, s.characteristics);
  }

  lemma HeadersRead(pe: bytes, peOff: u32, optSize: u16, img: Image)
    requires LaidOut(pe, peOff, optSize, img)
    ensures var coff := peOff + 4;
            var opt := coff + 20;
            && Slice(pe, 0, 2) == [0x4D, 0x5A] && U32(pe, 0x3C) == Some(peOff)
            && Slice(pe, peOff, peOff + 4) == [0x50, 0x45, 0, 0]
            && U16(pe, coff + 2) == Some(|img.sections|) && U16(pe, coff + 16) == Some(optSize)
            && U16(pe, opt) == Some(0x20B) && U32(pe, opt + 16) == Some(img.entryRva)
            && U64(pe, opt + 24) == Some(img.imageBase)
  {
    hide Le16, Le32, Le64, U16, U32, U64, SectionHeader;
    var coff: int := peOff + 4;
    var opt := coff + 20;
    ReadBack32(pe, 0x3C, peOff);
    ReadBack16(pe, coff + 2, |img.sections|);
    ReadBack16(pe, coff + 16, optSize);
    ReadBack16(pe, opt, 0x20B);
    ReadBack32(pe, opt + 16, img.entryRva);
    ReadBack64(pe, opt + 24, img.imageBase);
  }

  lemma SectionsRead(pe: bytes, peOff: u32, optSize: u16, img: Image)
    requires LaidOut(pe, peOff, optSize, img)
    ensures var table := peOff + 24 + optSize;
            forall i | 0 <= i < |img.sections| ::
              table + SECTION_HEADER * i + SECTION_HEADER <= |pe|
              && SectionAt(pe, table + SECTION_HEADER * i) == img.sections[i]
  {
    hide Le16, Le32, Le64, U16, U32, U64, SectionAt, SectionHeader;
    var table: int := peOff + 24 + optSize;
    forall i | 0 <= i < |img.sections|
      ensures table + SECTION_HEADER * i + SECTION_HEADER <= |pe|
      ensures SectionAt(pe, table + SECTION_HEADER * i) == img.sections[i]
    {
      var name: bytes, relocations: bytes :| |name| == 8 && |relocations| == 12
        && At(pe, table + SECTION_HEADER * i, SectionHeader(name, img.sections[i], relocations));
      SectionHeaderRead(pe, table + SECTION_HEADER * i, name, img.sections[i], relocations);
    }
  }

  /** Parsing inverts the layout, wherever the headers stand and whatever lies between them. */
  lemma ParsedInvertsLayout(pe: bytes, peOff: u32, optSize: u16, img: Image)
    requires LaidOut(pe, peOff, optSize, img)
    ensures Parsed(pe) == Ok(img)
  {
    hide LaidOut, U16, U32, U64, Slice, SectionAt;
    SectionCount(pe, peOff, optSize, img);
    HeadersRead(pe, peOff, optSize, img);
    SectionTableRead(pe, peOff, optSize, img);
    var table: int, n := peOff + 24 + optSize, |img.sections|;
    assert seq(n, i requires 0 <= i < n => SectionAt(pe, table + SECTION_HEADER * i)) == img.sections;
  }

  lemma SectionTableRead(pe: bytes, peOff: u32, optSize: u16, img: Image)
    requires LaidOut(pe, peOff, optSize, img)
    ensures var table: int, n := peOff + 24 + optSize, |img.sections|;
            && (n > 0 ==> table + SECTION_HEADER * n <= |pe|)
            && seq(n, i requires 0 <= i < n => SectionAt(pe, table + SECTION_HEADER * i)) == img.sections
  {
    hide LaidOut, SectionAt;
    SectionsRead(pe, peOff, optSize, img);
    var table: int, n := peOff + 24 + optSize, |img.sections|;
    if n > 0 {
      var i := n - 1;
      assert table + SECTION_HEADER * i + SECTION_HEADER <= |pe|;
    }
  }

  lemma SectionCount(pe: bytes, peOff: u32, optSize: u16, img: Image)
    requires LaidOut(pe, peOff, optSize, img)
    ensures |img.sections| < TWO_16 && peOff + 56 <= |pe|
  {
  }

  /** Nothing else is read as an image: what parsing returns is laid out in the file. */
  lemma ParsedIsLaidOut(pe: bytes, img: Image) returns (peOff: u32, optSize: u16)
    requires Parsed(pe) == Ok(img)
    ensures LaidOut(pe, peOff, optSize, img)
  {
    hide U16, U32, U64, At, Parsed;
    peOff, optSize := HeadersWritten(pe, img);
    SectionsWritten(pe, img);
  }

  lemma HeadersWritten(pe: bytes, img: Image) returns (peOff: u32, optSize: u16)
    requires Parsed(pe) == Ok(img)
    ensures U32(pe, 0x3C) == Some(peOff) && U16(pe, peOff + 20) == Some(optSize) && |img.sections| < TWO_16
    ensures At(pe, 0, [0x4D, 0x5A]) && At(pe, 0x3C, Le32(peOff)) && At(pe, peOff, [0x50, 0x45, 0, 0])
    ensures At(pe, peOff + 6, Le16(|img.sections|)) && At(pe, peOff + 20, Le16(optSize))
    ensures At(pe, peOff + 24, Le16(0x20B)) && At(pe, peOff + 40, Le32(img.entryRva))
    ensures At(pe, peOff + 48, Le64(img.imageBase))
  {
    hide Le16, Le32, Le64, U16, U32, U64, SectionAt;
    peOff := U32(pe, 0x3C).value;
    var coff: int := peOff + 4;
    optSize := U16(pe, coff + 16).value;
    SliceFound(pe, 0, [0x4D, 0x5A]);
    WrittenBack32(pe, 0x3C);
    SliceFound(pe, peOff, [0x50, 0x45, 0, 0]);
    WrittenBack16(pe, coff + 2);
    WrittenBack16(pe, coff + 16);
    WrittenBack16(pe, coff + 20);
    WrittenBack32(pe, coff + 36);
    WrittenBack64(pe, coff + 44);
  }

  lemma SectionsWritten(pe: bytes, img: Image)
    requires Parsed(pe) == Ok(img)
    ensures U32(pe, 0x3C).Some? && U16(pe, U32(pe, 0x3C).value + 20).Some?
    ensures var table := U32(pe, 0x3C).value + 24 + U16(pe, U32(pe, 0x3C).value + 20).value;
            forall i | 0 <= i < |img.sections| :: HeaderAt(pe, table + SECTION_HEADER * i, img.sections[i])
  {
    hide Le16, Le32, Le64, U16, U32, U64, SectionAt, SectionHeader, At;
    var peOff: int := U32(pe, 0x3C).value;
    var table := peOff + 24 + U16(pe, peOff + 20).value;
    forall i | 0 <= i < |img.sections|
      ensures HeaderAt(pe, table + SECTION_HEADER * i, img.sections[i])
    {
      HeaderWritten(pe, table + SECTION_HEADER * i);
    }
  }

  lemma SliceFound(pe: bytes, off: nat, data: bytes)
    requires data != [] && Slice(pe, off, off + |data|) == data
    ensures At(pe, off, data)
  {
  }

  lemma HeaderWritten(pe: bytes, off: nat)
    requires off + SECTION_HEADER <= |pe|
    ensures HeaderAt(pe, off, SectionAt(pe, off))
  {
    hide Le32, U32;
    var name, relocations := pe[off..off + 8], pe[off + 24..off + 36];
    WrittenBack32(pe, off + 8);
    WrittenBack32(pe, off + 12);
    WrittenBack32(pe, off + 16);
    WrittenBack32(pe, off + 20);
    WrittenBack32(pe, off + 36);
    Pieces(pe, off);
    assert At(pe, off, SectionHeader(name, SectionAt(pe, off), relocations));
  }

  lemma Pieces(pe: bytes, off: nat)
    requires off + SECTION_HEADER <= |pe|
    ensures pe[off..off + SECTION_HEADER]
         == pe[off..off + 8] + pe[off + 8..off + 12] + pe[off + 12..off + 16] + pe[off + 16..off + 20]
            + pe[off + 20..off + 24] + pe[off + 24..off + 36] + pe[off + 36..off + 40]
  {
  }

  /** The fields of the image by their places: the headers stand where the word at 60 says, the optional
      header 24 bytes after that, and the 40-byte section headers after it. */
  lemma ParsedFields(pe: bytes, img: Image)
    requires Parsed(pe) == Ok(img)
    ensures U32(pe, 60).Some? && U16(pe, U32(pe, 60).value + 20).Some?
    ensures var nt := U32(pe, 60).value;
            var table := nt + 24 + U16(pe, nt + 20).value;
            && U16(pe, nt + 6) == Some(|img.sections|) && U16(pe, nt + 24) == Some(0x20B)
            && U32(pe, nt + 40) == Some(img.entryRva) && U64(pe, nt + 48) == Some(img.imageBase)
            && forall i, s | 0 <= i < |img.sections| && s == img.sections[i] ::
                 && U32(pe, table + 40 * i + 8) == Some(s.vsize) && U32(pe, table + 40 * i + 12) == Some(s.vaddr)
                 && U32(pe, table + 40 * i + 16) == Some(s.rawSize) && U32(pe, table + 40 * i + 20) == Some(s.rawPtr)
                 && U32(pe, table + 40 * i + 36) == Some(s.characteristics)
  {
    hide U16, U32, U64, Slice;
  }

  /** Why a file is refused, by its bytes. */
  lemma Refusals(pe: bytes)
    ensures Parsed(pe) == Err(MissingMz) <==> !(|pe| >= 2 && pe[0] == 'M' as byte && pe[1] == 'Z' as byte)
    ensures Parsed(pe) == Err(MissingPe) ==> !exists off :: U32(pe, 60) == Some(off) && At(pe, off, [0x50, 0x45, 0, 0])
    ensures Parsed(pe) == Err(UnsupportedMagic) ==> U32(pe, 60).Some? && U16(pe, U32(pe, 60).value + 24) != Some(0x20B)
    ensures Parsed(pe) == Err(Truncated) ==>
              |pe| < 64 || |pe| < U32(pe, 60).value + 56
              || |pe| < U32(pe, 60).value + 24 + U16(pe, U32(pe, 60).value + 20).value
                        + 40 * U16(pe, U32(pe, 60).value + 6).value
  {
    if |pe| >= 2 {
      assert Slice(pe, 0, 2) == [pe[0], pe[1]];
    }
    var peOff := U32(pe, 60);
    if peOff.Some? {
      var off: u32 := peOff.value;
      if At(pe, off, [0x50, 0x45, 0, 0]) {
        assert Slice(pe, off, off + 4) == [0x50, 0x45, 0, 0];
      }
    }
  }
}

/** ELF64 file header and program headers, as written by the converter and as read by the loader. */
module ElfFile {
  import opened Words
  import opened Bytes

  const EHDR_SIZE := 64
  const PHDR_SIZE := 56
  const PT_LOAD := 1
  const ELF_MAGIC: bytes := [0x7F, 0x45, 0x4C, 0x46]

  datatype Ehdr = Ehdr(
    ident: bytes, etype: u16, machine: u16, version: u32, entry: u64, phoff: u64, shoff: u64,
    flags: u32, ehsize: u16, phentsize: u16, phnum: u16, shentsize: u16, shnum: u16, shstrndx: u16)

  datatype Phdr = Phdr(
    ptype: u32, flags: u32, offset: u64, vaddr: u64, paddr: u64, filesz: u64, memsz: u64, align: u64)

  function EncodeIdentity(h: Ehdr): bytes { h.ident + Le16(h.etype) + Le16(h.machine) + Le32(h.version) }

  function EncodeOffsets(h: Ehdr): bytes { Le64(h.entry) + Le64(h.phoff) + Le64(h.shoff) }

  function EncodeSizes(h: Ehdr): bytes { Le32(h.flags) + Le16(h.ehsize) + Le16(h.phentsize) + Le16(h.phnum) }

  function EncodeSections(h: Ehdr): bytes { Le16(h.shentsize) + Le16(h.shnum) + Le16(h.shstrndx) }

  function EncodeEhdr(h: Ehdr): bytes {
    EncodeIdentity(h) + EncodeOffsets(h) + EncodeSizes(h) + EncodeSections(h)
  }

  function EncodePhdr(p: Phdr): bytes {
    Le32(p.ptype) + Le32(p.flags) + Le64(p.offset) + Le64(p.vaddr) + Le64(p.paddr) + Le64(p.filesz)
    + Le64(p.memsz) + Le64(p.align)
  }

  function EhdrAt(b: bytes): Ehdr
    requires EHDR_SIZE <= |b|
  {
    Ehdr(b[..16], U16(b, 16).value, U16(b, 18).value, U32(b, 20).value, U64(b, 24).value, U64(b, 32).value,
         U64(b, 40).value, U32(b, 48).value, U16(b, 52).value, U16(b, 54).value, U16(b, 56).value,
         U16(b, 58).value, U16(b, 60).value, U16(b, 62).value)
  }

  function PhdrAt(b: bytes, off: nat): Phdr
    requires off + PHDR_SIZE <= |b|
  {
    Phdr(U32(b, off).value, U32(b, off + 4).value, U64(b, off + 8).value, U64(b, off + 16).value,
         U64(b, off + 24).value, U64(b, off + 32).value, U64(b, off + 40).value, U64(b, off + 48).value)
  }

  /** Parsing a written program header gives it back. */
  lemma PhdrRoundTrip(b: bytes, off: nat, p: Phdr)
    requires off + PHDR_SIZE <= |b| && b[off..off + PHDR_SIZE] == EncodePhdr(p)
    ensures PhdrAt(b, off) == p
  {
    hide Le32, Le64, U32, U64;
    var s := EncodePhdr(p);
    PartOfSlice(b, off, s, 0, 4);
    ReadBack32(b, off, p.ptype);
    PartOfSlice(b, off, s, 4, 8);
    ReadBack32(b, off + 4, p.flags);
    PartOfSlice(b, off, s, 8, 16);
    ReadBack64(b, off + 8, p.offset);
    PartOfSlice(b, off, s, 16, 24);
    ReadBack64(b, off + 16, p.vaddr);
    PartOfSlice(b, off, s, 24, 32);
    ReadBack64(b, off + 24, p.paddr);
    PartOfSlice(b, off, s, 32, 40);
    ReadBack64(b, off + 32, p.filesz);
    PartOfSlice(b, off, s, 40, 48);
    ReadBack64(b, off + 40, p.memsz);
    PartOfSlice(b, off, s, 48, 56);
    ReadBack64(b, off + 48, p.align);
  }

  /** Parsing a written file header gives it back. */
  lemma EhdrRoundTrip(b: bytes, h: Ehdr)
    requires |h.ident| == 16 && EHDR_SIZE <= |b| && b[..EHDR_SIZE] == EncodeEhdr(h)
    ensures EhdrAt(b) == h
  {
    hide Le16, Le32, Le64, U16, U32, U64;
    hide EncodeIdentity, EncodeOffsets, EncodeSizes, EncodeSections;
    var s := EncodeEhdr(h);
    assert |EncodeIdentity(h)| == 24 && |EncodeOffsets(h)| == 24 && |EncodeSizes(h)| == 10
        && |EncodeSections(h)| == 6 by { EncodedLengths(h); }
    PartOfSlice(b, 0, s, 0, 24);
    IdentityRoundTrip(b, h);
    PartOfSlice(b, 0, s, 24, 48);
    OffsetsRoundTrip(b, h);
    PartOfSlice(b, 0, s, 48, 58);
    SizesRoundTrip(b, h);
    PartOfSlice(b, 0, s, 58, 64);
    SectionsRoundTrip(b, h);
  }

  lemma EncodedLengths(h: Ehdr)
    requires |h.ident| == 16
    ensures |EncodeIdentity(h)| == 24 && |EncodeOffsets(h)| == 24 && |EncodeSizes(h)| == 10
    ensures |EncodeSections(h)| == 6 && |EncodeEhdr(h)| == EHDR_SIZE
  {
  }

  lemma IdentityRoundTrip(b: bytes, h: Ehdr)
    requires |h.ident| == 16 && EHDR_SIZE <= |b| && b[0..24] == EncodeIdentity(h)
    ensures
      && U16(b, 16) == Some(h.etype)
      && U16(b, 18) == Some(h.machine)
      && U32(b, 20) == Some(h.version)
    ensures b[..16] == h.ident
  {
    hide Le16, Le32, Le64, U16, U32, U64;
    var s := EncodeIdentity(h);
    PartOfSlice(b, 0, s, 0, 16);
    PartOfSlice(b, 0, s, 16, 18);
    ReadBack16(b, 16, h.etype);
    PartOfSlice(b, 0, s, 18, 20);
    ReadBack16(b, 18, h.machine);
    PartOfSlice(b, 0, s, 20, 24);
    ReadBack32(b, 20, h.version);
  }

  lemma OffsetsRoundTrip(b: bytes, h: Ehdr)
    requires |h.ident| == 16 && EHDR_SIZE <= |b| && b[24..48] == EncodeOffsets(h)
    ensures
      && U64(b, 24) == Some(h.entry)
      && U64(b, 32) == Some(h.phoff)
      && U64(b, 40) == Some(h.shoff)
  {
    hide Le16, Le32, Le64, U16, U32, U64;
    var s := EncodeOffsets(h);
    PartOfSlice(b, 24, s, 0, 8);
    ReadBack64(b, 24, h.entry);
    PartOfSlice(b, 24, s, 8, 16);
    ReadBack64(b, 32, h.phoff);
    PartOfSlice(b, 24, s, 16, 24);
    ReadBack64(b, 40, h.shoff);
  }

  lemma SizesRoundTrip(b: bytes, h: Ehdr)
    requires |h.ident| == 16 && EHDR_SIZE <= |b| && b[48..58] == EncodeSizes(h)
    ensures
      && U32(b, 48) == Some(h.flags)
      && U16(b, 52) == Some(h.ehsize)
      && U16(b, 54) == Some(h.phentsize)
      && U16(b, 56) == Some(h.phnum)
  {
    hide Le16, Le32, Le64, U16, U32, U64;
    var s := EncodeSizes(h);
    PartOfSlice(b, 48, s, 0, 4);
    ReadBack32(b, 48, h.flags);
    PartOfSlice(b, 48, s, 4, 6);
    ReadBack16(b, 52, h.ehsize);
    PartOfSlice(b, 48, s, 6, 8);
    ReadBack16(b, 54, h.phentsize);
    PartOfSlice(b, 48, s, 8, 10);
    ReadBack16(b, 56, h.phnum);
  }

  lemma SectionsRoundTrip(b: bytes, h: Ehdr)
    requires |h.ident| == 16 && EHDR_SIZE <= |b| && b[58..64] == EncodeSections(h)
    ensures
      && U16(b, 58) == Some(h.shentsize)
      && U16(b, 60) == Some(h.shnum)
      && U16(b, 62) == Some(h.shstrndx)
  {
    hide Le16, Le32, Le64, U16, U32, U64;
    var s := EncodeSections(h);
    PartOfSlice(b, 58, s, 0, 2);
    ReadBack16(b, 58, h.shentsize);
    PartOfSlice(b, 58, s, 2, 4);
    ReadBack16(b, 60, h.shnum);
    PartOfSlice(b, 58, s, 4, 6);
    ReadBack16(b, 62, h.shstrndx);
  }
}

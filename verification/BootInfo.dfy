/** The BootInfo block: 42 little-endian words, sealed by a modular checksum and
    validated by the kernel before it trusts any field. */
module BootInfo {
  import opened Words
  import opened Bytes

  const SIZE_BYTES := 168
  const SIZE_WORDS := 42
  const PAGE_WORDS := 1024
  const MAGIC := 0x4942_5847
  const VERSION := 1
  const FLAG_MEMMAP := 1
  const FLAG_FRAMEBUFFER := 2

  // Word positions of the fields that are checked or sealed.
  const FLAGS := 2
  const CHECKSUM := 3
  const BOOT_MODE := 5
  const MEMORY_MAP := 7
  const MEMORY_MAP_ENTRIES := 9
  const MEMORY_MAP_DESCRIPTOR := 11
  const FRAMEBUFFER_BASE := 13
  const FRAMEBUFFER_SIZE := 15
  const FRAMEBUFFER_WIDTH := 17
  const FRAMEBUFFER_HEIGHT := 18
  const FRAMEBUFFER_PITCH := 19
  const FRAMEBUFFER_FORMAT := 20
  const ACPI_RSDP := 22

  type words = seq<u32>

  function Version(p: words): u16
    requires |p| >= SIZE_WORDS
  {
    p[1] % TWO_16
  }

  function Size(p: words): u16
    requires |p| >= SIZE_WORDS
  {
    p[1] / TWO_16
  }

  /** A 64-bit field. */
  function Long(p: words, i: nat): u64
    requires i + 1 < |p|
  {
    var lo: int, hi: int := p[i], p[i + 1];
    lo + TWO_32 * hi
  }

  predicate HasFlag(flags: u32, bit: u32)
    requires bit > 0
  {
    flags / bit % 2 == 1
  }

  function Sum(p: words): nat {
    if p == [] then 0 else Sum(p[..|p| - 1]) + p[|p| - 1]
  }

  /** The block and whatever its Size field claims can be read. */
  predicate Readable(p: words) { |p| >= SIZE_WORDS && Size(p) / 4 <= |p| }

  predicate ChecksumOk(p: words)
    requires Readable(p)
  {
    Size(p) / 4 >= SIZE_WORDS && Sum(p[..Size(p) / 4]) % TWO_32 == 0
  }

  predicate Acceptable(p: words)
    requires |p| >= SIZE_WORDS
  {
    && p[0] == MAGIC && Version(p) == VERSION && Size(p) == SIZE_BYTES && ChecksumOk(p)
    && (HasFlag(p[FLAGS], FLAG_FRAMEBUFFER) ==> Long(p, FRAMEBUFFER_BASE) != 0 && Long(p, FRAMEBUFFER_SIZE) != 0)
    && (HasFlag(p[FLAGS], FLAG_MEMMAP) ==>
          && Long(p, MEMORY_MAP) != 0 && Long(p, MEMORY_MAP_ENTRIES) != 0
          && Long(p, MEMORY_MAP_DESCRIPTOR) != 0)
  }

  // ---------------------------------------------------------------------
  // The block in memory
  // ---------------------------------------------------------------------

  /** The sizes of the fields, packed in this order. */
  const FIELD_SIZES: seq<nat> := [4, 2, 2, 4, 4, 4, 4, 4, 8, 8, 8, 8, 8, 4, 4, 4, 4, 4, 8, 8, 8, 8, 8, 8, 8, 24]

  /** The byte at which each field starts, and the size of the whole. */
  const OFFSETS: seq<nat> := [0, 4, 6, 8, 12, 16, 20, 24, 28, 36, 44, 52, 60, 68, 72, 76, 80, 84, 88, 96, 104, 112,
                              120, 128, 136, 144, 168]

  lemma FieldsPacked()
    ensures |FIELD_SIZES| == 26 && |OFFSETS| == 27 && OFFSETS[0] == 0
    ensures forall i | 0 <= i < 26 :: OFFSETS[i + 1] == OFFSETS[i] + FIELD_SIZES[i]
  {
  }

  /** The word positions are those of the packed fields: 3 Flags, 4 HeaderChecksum, 6 BootMode, 8 MemoryMap,
      9 MemoryMapEntryCount, 10 MemoryMapDescriptorSize, 11 to 16 the framebuffer's, 18 AcpiRsdp. */
  lemma Layout()
    ensures 4 * FLAGS == OFFSETS[3] && 4 * CHECKSUM == OFFSETS[4] && 4 * BOOT_MODE == OFFSETS[6]
    ensures 4 * MEMORY_MAP == OFFSETS[8] && 4 * MEMORY_MAP_ENTRIES == OFFSETS[9]
    ensures 4 * MEMORY_MAP_DESCRIPTOR == OFFSETS[10]
    ensures 4 * FRAMEBUFFER_BASE == OFFSETS[11] && 4 * FRAMEBUFFER_SIZE == OFFSETS[12]
    ensures 4 * FRAMEBUFFER_WIDTH == OFFSETS[13] && 4 * FRAMEBUFFER_HEIGHT == OFFSETS[14]
    ensures 4 * FRAMEBUFFER_PITCH == OFFSETS[15] && 4 * FRAMEBUFFER_FORMAT == OFFSETS[16]
    ensures 4 * ACPI_RSDP == OFFSETS[18] && 4 * SIZE_WORDS == SIZE_BYTES == OFFSETS[26] && 4 * PAGE_WORDS == 4096
  {
  }

  /** The bytes of the words. */
  function Image(p: words): (b: bytes)
    ensures |b| == 4 * |p|
  {
    if p == [] then [] else Image(p[..|p| - 1]) + Le32(p[|p| - 1])
  }

  lemma {:induction false} WordInImage(p: words, i: nat)
    requires i < |p|
    ensures Image(p)[4 * i..4 * i + 4] == Le32(p[i])
  {
    var init := p[..|p| - 1];
    if i < |init| {
      WordInImage(init, i);
      assert Image(p)[4 * i..4 * i + 4] == Image(init)[4 * i..4 * i + 4];
    }
  }

  lemma WordRead(p: words, i: nat)
    requires i < |p|
    ensures U32(Image(p), 4 * i) == Some(p[i])
  {
    WordInImage(p, i);
    ReadBack32(Image(p), 4 * i, p[i]);
  }

  lemma LongRead(p: words, i: nat)
    requires i + 1 < |p|
    ensures U64(Image(p), 4 * i) == Some(Long(p, i))
  {
    hide Image, U32;
    WordRead(p, i);
    WordRead(p, i + 1);
  }

  lemma HalvesRead(p: words)
    requires |p| >= SIZE_WORDS
    ensures U16(Image(p), 4) == Some(Version(p)) && U16(Image(p), 6) == Some(Size(p))
  {
    hide Image;
    WordInImage(p, 1);
    var b, n := Image(p), p[1];
    var s := b[4..8];
    assert b[4..6] == s[..2] && b[6..8] == s[2..];
    TwoHalves(n);
  }

  lemma TwoHalves(n: u32)
    ensures n % 0x100 + 0x100 * (n / 0x100 % 0x100) == n % TWO_16
    ensures n / 0x1_0000 % 0x100 + 0x100 * (n / 0x100_0000) == n / TWO_16
  {
    FourDigits(n);
  }

  lemma MagicRead(p: words)
    requires |p| >= SIZE_WORDS
    ensures p[0] == MAGIC <==> Image(p)[..4] == ['G' as byte, 'X' as byte, 'B' as byte, 'I' as byte]
  {
    hide Image;
    WordInImage(p, 0);
    FourDigits(p[0]);
    assert Image(p)[..4] == Image(p)[0..4];
  }

  /** What the validator accepts, in the bytes it reads. */
  lemma AcceptableInMemory(p: words)
    requires |p| >= SIZE_WORDS
    ensures var b := Image(p);
            Acceptable(p) <==>
            && b[..4] == ['G' as byte, 'X' as byte, 'B' as byte, 'I' as byte]
            && U16(b, 4) == Some(1) && U16(b, 6) == Some(168) && Sum(p[..42]) % TWO_32 == 0
            && (p[2] / 2 % 2 == 1 ==> U64(b, 52) != Some(0) && U64(b, 60) != Some(0))
            && (p[2] % 2 == 1 ==> U64(b, 28) != Some(0) && U64(b, 36) != Some(0) && U64(b, 44) != Some(0))
  {
    hide Image, Long, Sum, U16, U64;
    MagicRead(p);
    HalvesRead(p);
    LongRead(p, 7);
    LongRead(p, 9);
    LongRead(p, 11);
    LongRead(p, 13);
    LongRead(p, 15);
  }

  // ---------------------------------------------------------------------
  // Sums
  // ---------------------------------------------------------------------

  lemma {:induction false} SumUpdate(p: words, i: nat, w: u32)
    requires i < |p|
    ensures Sum(p[i := w]) == Sum(p) - p[i] + w
  {
    var init := p[..|p| - 1];
    if i < |init| {
      SumUpdate(init, i, w);
      assert p[i := w][..|p| - 1] == init[i := w];
    } else {
      assert p[i := w][..|p| - 1] == init;
    }
  }

  /** The 32-bit accumulation loop, over the first `count` words. */
  method SumWords(bi: array<u32>, count: nat) returns (sum: u32)
    requires count <= bi.Length
    ensures sum == Sum(bi[..count]) % TWO_32
  {
    sum := 0;
    for i := 0 to count
      invariant sum == Sum(bi[..i]) % TWO_32
    {
      assert bi[..i + 1][..i] == bi[..i];
      var term: int := bi[i];
      sum := Wrap32(sum + term);
    }
  }

  // ---------------------------------------------------------------------
  // Sealing and validating
  // ---------------------------------------------------------------------

  function Sealed(p: words): words
    requires Readable(p) && Size(p) == SIZE_BYTES
  {
    p[CHECKSUM := Wrap32(0 - Sum(p[CHECKSUM := 0][..SIZE_WORDS]))]
  }

  method Seal(bi: array<u32>)
    requires Readable(bi[..]) && Size(bi[..]) == SIZE_BYTES
    modifies bi
    ensures bi[..] == Sealed(old(bi[..]))
  {
    bi[CHECKSUM] := 0;
    assert bi[..] == old(bi[..])[CHECKSUM := 0];
    var byteCount := Size(bi[..]) / 4 * 4;
    var count := byteCount / 4;
    var sum := SumWords(bi, count);
    assert bi[..count] == old(bi[..])[CHECKSUM := 0][..SIZE_WORDS];
    var zero: int := 0;
    bi[CHECKSUM] := Wrap32(zero - sum);
    NegatedModulo(Sum(bi[..][CHECKSUM := 0][..SIZE_WORDS]));
    assert bi[..] == old(bi[..])[CHECKSUM := bi[CHECKSUM]];
    assert bi[..][CHECKSUM := 0] == old(bi[..])[CHECKSUM := 0];
  }

  lemma NegatedModulo(x: int)
    ensures (0 - x % TWO_32) % TWO_32 == (0 - x) % TWO_32
  {
  }

  /** Whatever the block held, its sealed form passes the checksum. */
  lemma SealingSatisfiesChecksum(p: words)
    requires Readable(p) && Size(p) == SIZE_BYTES
    ensures ChecksumOk(Sealed(p))
  {
    var zeroed := p[CHECKSUM := 0][..SIZE_WORDS];
    var c := Wrap32(0 - Sum(zeroed));
    SumUpdate(zeroed, CHECKSUM, c);
    assert Sealed(p)[..SIZE_WORDS] == zeroed[CHECKSUM := c];
  }

  /** After sealing, changing any single word makes validation fail. */
  lemma AnyChangeRejected(p: words, i: nat, w: u32)
    requires |p| >= SIZE_WORDS && Acceptable(p) && i < SIZE_WORDS && w != p[i]
    ensures !Acceptable(p[i := w])
  {
    var q := p[i := w];
    if Size(q) == SIZE_BYTES {
      SumUpdate(p[..SIZE_WORDS], i, w);
      assert q[..SIZE_WORDS] == p[..SIZE_WORDS][i := w];
      assert -TWO_32 < w - p[i] < TWO_32;
    }
  }

  lemma {:induction false} SumSplit(p: words, m: nat)
    requires m <= |p|
    ensures Sum(p) == Sum(p[..m]) + Sum(p[m..])
    decreases |p|
  {
    if m == |p| {
      assert p[..m] == p && p[m..] == [];
    } else {
      var init := p[..|p| - 1];
      SumSplit(init, m);
      assert init[..m] == p[..m] && p[m..][..|p| - m - 1] == init[m..];
    }
  }

  /** What the words between two counts add to the sum: gained when the count grows, lost when it shrinks. */
  function Gained(p: words, m: nat, n: nat): int
    requires m <= |p| && n <= |p|
  {
    if m <= n then Sum(p[m..n]) else var lost: int := Sum(p[n..m]); -lost
  }

  lemma SumOfPrefix(p: words, m: nat, n: nat)
    requires m <= |p| && n <= |p|
    ensures Sum(p[..n]) == Sum(p[..m]) + Gained(p, m, n)
  {
    if m <= n {
      SumSplit(p[..n], m);
      assert p[..n][..m] == p[..m] && p[..n][m..] == p[m..n];
    } else {
      SumSplit(p[..m], n);
      assert p[..m][..n] == p[..n] && p[..m][n..] == p[n..m];
    }
  }

  /** The checksum accepts a change of one summed word exactly when the word is the one that holds
      Size, the new Size covers the block, and the words it newly covers or leaves out make up for
      the change. */
  lemma ChecksumAcceptsChangeIff(p: words, i: nat, w: u32)
    requires Readable(p) && ChecksumOk(p) && i < Size(p) / 4 && w != p[i] && Readable(p[i := w])
    ensures var m, n := Size(p) / 4, Size(p[i := w]) / 4;
            ChecksumOk(p[i := w]) <==>
            i == 1 && n >= SIZE_WORDS && (Gained(p, m, n) + w - p[1]) % TWO_32 == 0
  {
    var q, m, n := p[i := w], Size(p) / 4, Size(p[i := w]) / 4;
    assert -TWO_32 < w - p[i] < TWO_32;
    if n >= SIZE_WORDS {
      SumOfPrefix(p, m, n);
      assert i < n by { if i != 1 { assert n == m; } }
      SumUpdate(p[..n], i, w);
      assert q[..n] == p[..n][i := w];
      SumsModulo(Sum(p[..m]), Gained(p, m, n) + w - p[i]);
      if i != 1 { assert Gained(p, m, n) == 0; }
    }
  }

  lemma SumsModulo(a: int, d: int)
    requires a % TWO_32 == 0
    ensures (a + d) % TWO_32 == 0 <==> d % TWO_32 == 0
  {
  }

  /** In particular it rejects every single-word change that keeps the number of summed words. */
  lemma ChecksumRejectsChange(p: words, i: nat, w: u32)
    requires Readable(p) && ChecksumOk(p) && i < Size(p) / 4 && w != p[i]
    requires i == 1 ==> w / TWO_16 / 4 == Size(p) / 4
    ensures Readable(p[i := w]) && !ChecksumOk(p[i := w])
  {
    hide Sum;
    assert Size(p[i := w]) / 4 == Size(p) / 4;
    assert -TWO_32 < w - p[i] < TWO_32;
    NothingGained(p, Size(p) / 4);
    ChecksumAcceptsChangeIff(p, i, w);
  }

  lemma NothingGained(p: words, m: nat)
    requires m <= |p|
    ensures Gained(p, m, m) == 0
  {
    assert p[m..m] == [];
  }

  /** ... but not one that makes Size claim more: the words after the block are then summed too.
      Only the strict size check of the validator closes this. */
  lemma ChecksumAcceptsLongerSize() returns (p: words, w: u32)
    ensures Readable(p) && ChecksumOk(p) && Readable(p[1 := w]) && ChecksumOk(p[1 := w])
    ensures Size(p) == SIZE_BYTES && w / TWO_16 == SIZE_BYTES + 4
  {
    var b: u32, c: u32 := TWO_32 - SIZE_BYTES * TWO_16, TWO_32 - 4 * TWO_16;
    w := (SIZE_BYTES + 4) * TWO_16;
    p := Sparse(SIZE_BYTES * TWO_16, b, c);
    SumOfSparse(SIZE_BYTES * TWO_16, b, c);
    SumOfSparse(w, b, c);
    assert p[1 := w] == Sparse(w, b, c);
    assert p[..43] == p && p[1 := w][..43] == p[1 := w];
    assert Size(p) == SIZE_BYTES && Size(p[1 := w]) == SIZE_BYTES + 4;
    assert p[42] == c && p[..|p| - 1] == p[..SIZE_WORDS];
  }

  function Sparse(size: u32, checksum: u32, after: u32): words {
    seq(43, i => if i == 1 then size else if i == CHECKSUM then checksum else if i == 42 then after else 0)
  }

  lemma SumOfSparse(size: u32, checksum: u32, after: u32)
    ensures Sum(Sparse(size, checksum, after)) == size + checksum + after
  {
    var zeros: words := seq(43, _ => 0);
    SumOfZeros(43);
    SumUpdate(zeros, 1, size);
    SumUpdate(zeros[1 := size], CHECKSUM, checksum);
    SumUpdate(zeros[1 := size][CHECKSUM := checksum], 42, after);
    assert Sparse(size, checksum, after) == zeros[1 := size][CHECKSUM := checksum][42 := after];
  }

  lemma {:induction false} SumOfZeros(n: nat)
    ensures Sum(seq(n, _ => 0)) == 0
  {
    if n > 0 {
      SumOfZeros(n - 1);
      var z: words := seq(n, _ => 0);
      assert z[..n - 1] == seq(n - 1, _ => 0);
    }
  }

  /** guidexos_bootinfo_checksum_valid. */
  method ChecksumValid(bi: array?<u32>) returns (ok: bool)
    requires bi != null ==> Readable(bi[..])
    ensures ok <==> bi != null && ChecksumOk(bi[..])
  {
    if bi == null {
      return false;
    }
    var size := Size(bi[..]);
    if size == 0 {
      return false;
    }
    var byteCount := size / 4 * 4;
    if byteCount < SIZE_BYTES {
      return false;
    }
    var sum := SumWords(bi, byteCount / 4);
    assert bi[..][..size / 4] == bi[..byteCount / 4];
    return sum == 0;
  }

  /** The validator returns, or panics with or without the block to show. */
  datatype Verdict = Accepted | Panicked(showsBlock: bool)

  /** guidexos_validate_bootinfo_or_panic. */
  method Validate(bi: array?<u32>) returns (v: Verdict)
    requires bi != null ==> bi.Length >= SIZE_WORDS
    ensures v == Accepted <==> bi != null && Acceptable(bi[..])
    ensures v == Panicked(false) <==> bi == null || Size(bi[..]) < SIZE_BYTES
  {
    if bi == null {
      return Panicked(false);
    }
    var p := bi[..];
    if Size(p) < SIZE_BYTES {
      return Panicked(false);
    }
    if bi[0] != MAGIC || Version(p) != VERSION || Size(p) != SIZE_BYTES {
      return Panicked(true);
    }
    var ok := ChecksumValid(bi);
    if !ok {
      return Panicked(true);
    }
    if HasFlag(bi[FLAGS], FLAG_FRAMEBUFFER) {
      if Long(p, FRAMEBUFFER_BASE) == 0 || Long(p, FRAMEBUFFER_SIZE) == 0 {
        return Panicked(true);
      }
    }
    if HasFlag(bi[FLAGS], FLAG_MEMMAP) {
      if Long(p, MEMORY_MAP) == 0 || Long(p, MEMORY_MAP_ENTRIES) == 0 || Long(p, MEMORY_MAP_DESCRIPTOR) == 0 {
        return Panicked(true);
      }
    }
    return Accepted;
  }

  // ---------------------------------------------------------------------
  // What efi_main writes
  // ---------------------------------------------------------------------

  datatype Display = Display(base: u64, width: u32, height: u32, pixelsPerScanLine: u32)

  function Pitch(d: Display): u32 { Wrap32(d.pixelsPerScanLine * 4) }

  lemma FramebufferSizeFits(d: Display)
    ensures 0 <= Pitch(d) * d.height < TWO_64
  {
    MulBound(Pitch(d), d.height, TWO_32);
  }

  lemma MulBound(a: int, b: int, m: int)
    requires 0 <= a < m && 0 <= b < m
    ensures 0 <= a * b < m * m
  {
    assert a * b <= a * m;
    assert a * m <= (m - 1) * m;
  }

  /** The block tells the kernel this display and this ACPI root pointer. */
  predicate Tells(p: words, display: Display, rsdp: u64)
    requires |p| >= SIZE_WORDS
  {
    && p[BOOT_MODE] == 1 && Long(p, ACPI_RSDP) == rsdp
    && Long(p, FRAMEBUFFER_BASE) == display.base
    && Long(p, FRAMEBUFFER_SIZE) == Pitch(display) * display.height
    && p[FRAMEBUFFER_WIDTH] == display.width && p[FRAMEBUFFER_HEIGHT] == display.height
    && p[FRAMEBUFFER_PITCH] == Pitch(display) && p[FRAMEBUFFER_FORMAT] == 2
    && (HasFlag(p[FLAGS], FLAG_FRAMEBUFFER) <==> display.base != 0 && Pitch(display) * display.height != 0)
  }

  /** The same in the bytes the kernel reads; the pitch is four bytes a pixel, in 32 bits. */
  lemma TellsInMemory(p: words, d: Display, rsdp: u64)
    requires |p| >= SIZE_WORDS
    ensures var b, pitch := Image(p), d.pixelsPerScanLine * 4 % 0x1_0000_0000;
            Tells(p, d, rsdp) <==>
            && U32(b, 20) == Some(1) && U64(b, 88) == Some(rsdp)
            && U64(b, 52) == Some(d.base) && U32(b, 68) == Some(d.width) && U32(b, 72) == Some(d.height)
            && U32(b, 76) == Some(pitch) && U32(b, 80) == Some(2)
            && 0 <= pitch * d.height < TWO_64 && U64(b, 60) == Some(pitch * d.height)
            && (p[2] / 2 % 2 == 1 <==> d.base != 0 && pitch * d.height != 0)
  {
    hide Image, Long, U32, U64;
    FramebufferSizeFits(d);
    WordRead(p, 5);
    LongRead(p, 22);
    LongRead(p, 13);
    LongRead(p, 15);
    WordRead(p, 17);
    WordRead(p, 18);
    WordRead(p, 19);
    WordRead(p, 20);
  }

  method PutLong(bi: array<u32>, i: nat, v: u64)
    requires i + 1 < bi.Length
    modifies bi
    ensures bi[..] == old(bi[..])[i := v % TWO_32][i + 1 := v / TWO_32]
  {
    bi[i], bi[i + 1] := v % TWO_32, v / TWO_32;
  }

  /** Ready for the memory map: header in place, and a framebuffer flag only with a framebuffer. */
  predicate HeaderDone(p: words) {
    && |p| == PAGE_WORDS && p[0] == MAGIC && p[1] == SIZE_BYTES * TWO_16 + VERSION && p[FLAGS] % 2 == 0
    && (HasFlag(p[FLAGS], FLAG_FRAMEBUFFER) ==> Long(p, FRAMEBUFFER_BASE) != 0 && Long(p, FRAMEBUFFER_SIZE) != 0)
  }

  /** The header and display fields, on a zeroed page in which at most flag bits 2 to 4
      and their own fields have been set. */
  method FillHeader(bi: array<u32>, display: Display, rsdp: u64)
    requires bi.Length == PAGE_WORDS && bi[FLAGS] % 4 == 0 && bi[FLAGS] < 32
    modifies bi
    ensures bi[0] == MAGIC && bi[1] == SIZE_BYTES * TWO_16 + VERSION && bi[BOOT_MODE] == 1
    ensures bi[FRAMEBUFFER_WIDTH] == display.width && bi[FRAMEBUFFER_HEIGHT] == display.height
    ensures bi[FRAMEBUFFER_PITCH] == Pitch(display) && bi[FRAMEBUFFER_FORMAT] == 2
    ensures Long(bi[..], ACPI_RSDP) == rsdp
    ensures forall i | FLAGS < i < PAGE_WORDS && i != BOOT_MODE && !(FRAMEBUFFER_BASE <= i < FRAMEBUFFER_FORMAT + 1)
                       && !(ACPI_RSDP <= i < ACPI_RSDP + 2) :: bi[i] == old(bi[i])
    ensures Long(bi[..], FRAMEBUFFER_BASE) == display.base
    ensures Long(bi[..], FRAMEBUFFER_SIZE) == Pitch(display) * display.height
    ensures bi[FLAGS] == old(bi[FLAGS])
                         + if display.base != 0 && Pitch(display) * display.height != 0 then FLAG_FRAMEBUFFER else 0
    ensures HeaderDone(bi[..]) && Tells(bi[..], display, rsdp)
  {
    bi[0] := MAGIC;
    bi[1] := SIZE_BYTES * TWO_16 + VERSION;
    bi[BOOT_MODE] := 1;
    PutLong(bi, ACPI_RSDP, rsdp);
    PutLong(bi, FRAMEBUFFER_BASE, display.base);
    bi[FRAMEBUFFER_WIDTH] := display.width;
    bi[FRAMEBUFFER_HEIGHT] := display.height;
    bi[FRAMEBUFFER_PITCH] := Pitch(display);
    FramebufferSizeFits(display);
    var pitch: int := Pitch(display);
    PutLong(bi, FRAMEBUFFER_SIZE, pitch * display.height);
    bi[FRAMEBUFFER_FORMAT] := 2;
    var flags: int := bi[FLAGS];
    if Long(bi[..], FRAMEBUFFER_BASE) != 0 && Long(bi[..], FRAMEBUFFER_SIZE) != 0 {
      bi[FLAGS] := flags + FLAG_FRAMEBUFFER;
    }
    FramebufferBit(flags, bi[FLAGS]);
  }

  lemma FramebufferBit(before: u32, flags: u32)
    requires before % 4 == 0
    ensures flags == before ==> flags % 2 == 0 && !HasFlag(flags, FLAG_FRAMEBUFFER)
    ensures flags == before + FLAG_FRAMEBUFFER ==> flags % 2 == 0 && HasFlag(flags, FLAG_FRAMEBUFFER)
  {
    var q: int := before / 4;
    assert before == 4 * q && before / 2 == 2 * q && (before + 2) / 2 == 2 * q + 1;
  }

  /** The memory-map fields and the seal, after boot services are gone. The block then passes
      every check of the validator exactly when the map is a non-null, non-empty array with a
      descriptor size. */
  method FinishAndSeal(bi: array<u32>, memoryMap: u64, entryCount: u64, descriptorSize: u64)
    requires HeaderDone(bi[..])
    modifies bi
    ensures Readable(bi[..]) && ChecksumOk(bi[..])
    ensures bi[FLAGS] == old(bi[FLAGS]) + FLAG_MEMMAP
    ensures Long(bi[..], MEMORY_MAP) == memoryMap && Long(bi[..], MEMORY_MAP_ENTRIES) == entryCount
    ensures Long(bi[..], MEMORY_MAP_DESCRIPTOR) == descriptorSize
    ensures forall i | 0 <= i < PAGE_WORDS && i != FLAGS && i != CHECKSUM && !(MEMORY_MAP <= i < FRAMEBUFFER_BASE) ::
              bi[i] == old(bi[i])
    ensures Acceptable(bi[..]) <==> memoryMap != 0 && entryCount != 0 && descriptorSize != 0
    ensures forall display, rsdp :: Tells(old(bi[..]), display, rsdp) ==> Tells(bi[..], display, rsdp)
  {
    hide Sum, HasFlag;
    PutLong(bi, MEMORY_MAP, memoryMap);
    PutLong(bi, MEMORY_MAP_ENTRIES, entryCount);
    PutLong(bi, MEMORY_MAP_DESCRIPTOR, descriptorSize);
    var flags: int := bi[FLAGS];
    bi[FLAGS] := flags + FLAG_MEMMAP;
    ghost var p := bi[..];
    Seal(bi);
    SealingSatisfiesChecksum(p);
    assert bi[0] == old(bi[0]) && bi[1] == old(bi[1]);
    assert Long(bi[..], FRAMEBUFFER_BASE) == Long(old(bi[..]), FRAMEBUFFER_BASE);
    assert Long(bi[..], FRAMEBUFFER_SIZE) == Long(old(bi[..]), FRAMEBUFFER_SIZE);
    MemmapBit(old(bi[FLAGS]), bi[FLAGS]);
  }

  lemma MemmapBit(before: u32, flags: u32)
    requires before % 2 == 0 && flags == before + FLAG_MEMMAP
    ensures HasFlag(flags, FLAG_MEMMAP) && (HasFlag(flags, FLAG_FRAMEBUFFER) <==> HasFlag(before, FLAG_FRAMEBUFFER))
  {
  }
}

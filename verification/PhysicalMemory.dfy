/** Physical memory by bytes: table entries and loaded data share the same pages, and a byte
    is read through the page tables. */
module PhysicalMemory {
  import opened Words
  import opened Bytes
  import opened PageTables

  // ---------------------------------------------------------------------
  // Bytes of a word
  // ---------------------------------------------------------------------

  /** Byte j of a little-endian word. */
  function ByteOf(w: u64, j: nat): byte {
    if j == 0 then w % 0x100 else ByteOf(w / 0x100, j - 1)
  }

  lemma ByteOfSum(b: byte, h: nat, j: nat)
    requires j > 0 && b + 0x100 * h < TWO_64
    ensures ByteOf(b + 0x100 * h, j) == ByteOf(h, j - 1) && ByteOf(b + 0x100 * h, 0) == b
  {
    assert (b + 0x100 * h) / 0x100 == h;
  }

  lemma {:induction false} LittleByte(s: bytes, j: nat)
    requires j < |s| && LittleEndian(s) < TWO_64
    ensures ByteOf(LittleEndian(s), j) == s[j]
  {
    if j > 0 {
      ByteOfSum(s[0], LittleEndian(s[1..]), j);
      LittleByte(s[1..], j - 1);
    }
  }

  // ---------------------------------------------------------------------
  // Reading
  // ---------------------------------------------------------------------

  /** The byte at a physical address; None for a page whose contents are not known. */
  function ReadByte(mem: Memory, a: nat): Option<byte> {
    var page, i := a - a % PAGE_SIZE, a % PAGE_SIZE / 8;
    if page in mem && i < |mem[page]| then Some(ByteOf(mem[page][i], a % 8)) else None
  }

  /** The byte an access to a virtual address reads. */
  function ReadThrough(mem: Memory, root: u64, v: u64): Option<byte> {
    match Walk(mem, root, v)
    case None => None
    case Some(a) => ReadByte(mem, a.phys)
  }

  // ---------------------------------------------------------------------
  // Data in memory
  // ---------------------------------------------------------------------

  /** A page as the words its bytes form. */
  function PageWords(data: bytes, off: nat): (r: seq<u64>)
    requires off + PAGE_SIZE <= |data|
    ensures |r| == ENTRIES
  {
    seq(ENTRIES, i requires 0 <= i < ENTRIES => U64(data, off + 8 * i).value)
  }

  predicate WholePages(base: u64, data: bytes) {
    base % PAGE_SIZE == 0 && |data| % PAGE_SIZE == 0 && base + |data| <= TWO_64
  }

  lemma PageInside(base: u64, data: bytes, p: u64)
    requires WholePages(base, data) && base <= p < base + |data| && p % PAGE_SIZE == 0
    ensures p - base + PAGE_SIZE <= |data|
  {
  }

  /** The pages from `base` on, holding `data`. */
  function PagesHolding(base: u64, data: bytes): Memory
    requires WholePages(base, data)
  {
    map p: u64 | base <= p < base + |data| && p % PAGE_SIZE == 0 ::
      PageInside(base, data, p);
      PageWords(data, p - base)
  }

  /** The page, the word and the byte of the word where byte k of the data stands. */
  lemma PlaceOfByte(base: nat, k: nat) returns (m: nat)
    requires base % PAGE_SIZE == 0
    ensures var a := base + k;
            && m % PAGE_SIZE == 0 && m <= k < m + PAGE_SIZE && a - a % PAGE_SIZE == base + m
            && a % PAGE_SIZE / 8 < ENTRIES && m + 8 * (a % PAGE_SIZE / 8) + a % 8 == k
  {
    m := k - k % PAGE_SIZE;
    var q := base / PAGE_SIZE + k / PAGE_SIZE;
    assert base + k == PAGE_SIZE * q + k % PAGE_SIZE;
    OffsetInPage(q, k % PAGE_SIZE);
  }

  lemma OffsetInPage(q: nat, x: nat)
    requires x < PAGE_SIZE
    ensures (PAGE_SIZE * q + x) % PAGE_SIZE == x && (PAGE_SIZE * q + x) % 8 == x % 8
  {
    assert PAGE_SIZE * q + x == 8 * (512 * q) + x;
  }

  lemma LastPage(k: nat, m: nat, size: nat)
    requires m <= k < size && m % PAGE_SIZE == 0 && size % PAGE_SIZE == 0
    ensures m + PAGE_SIZE <= size
  {
  }

  /** Whatever else is in memory, each byte of the data is read at its place. */
  lemma HeldByte(mem: Memory, base: u64, data: bytes, k: nat)
    requires WholePages(base, data) && k < |data|
    requires forall p <- PagesHolding(base, data) :: p in mem && mem[p] == PagesHolding(base, data)[p]
    ensures ReadByte(mem, base + k) == Some(data[k])
  {
    hide U64, ByteOf, PageWords;
    var m := PlaceOfByte(base, k);
    LastPage(k, m, |data|);
    var a, i := base + k, (base + k) % PAGE_SIZE / 8;
    WordByte(data, m + 8 * i, a % 8);
    PageHeld(base, data, m);
    WordOfPage(data, m, i);
  }

  lemma PageHeld(base: u64, data: bytes, m: nat)
    requires WholePages(base, data) && m % PAGE_SIZE == 0 && m + PAGE_SIZE <= |data|
    ensures base + m in PagesHolding(base, data) && PagesHolding(base, data)[base + m] == PageWords(data, m)
  {
    hide PageWords;
  }

  lemma WordOfPage(data: bytes, m: nat, i: nat)
    requires m + PAGE_SIZE <= |data| && i < ENTRIES
    ensures PageWords(data, m)[i] == U64(data, m + 8 * i).value
  {
  }

  lemma WordByte(data: bytes, off: nat, j: nat)
    requires off + 8 <= |data| && j < 8
    ensures ByteOf(U64(data, off).value, j) == data[off + j]
  {
    hide U64, ByteOf, LittleEndian;
    FieldsSpell(data, off);
    LittleByte(data[off..off + 8], j);
  }
}

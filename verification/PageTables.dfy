/** Four-level x86-64 page tables held in physical memory (Intel SDM Vol. 3A, section 4.5):
    what the tables mean, and the two steps by which the boot loader changes them. */
module PageTables {
  import opened Words

  const ENTRIES := 512
  /** Virtual pages told apart by the four 9-bit indices. */
  const PAGES := 0x10_0000_0000
  /** Allocated table pages lie below the limit of the firmware's own identity map. */
  const PHYS_LIMIT := 0x1_0000_0000_0000

  const PTE_P := 1
  const PTE_W := 2
  const PTE_PWT := 8
  const PTE_PCD := 16
  const PTE_PS := 128

  type index = i: int | 0 <= i < ENTRIES

  // The 9-bit fields of an address from bit 39, 30, 21 and 12 up.
  function Pml4Index(v: u64): index { v / 0x80_0000_0000 % ENTRIES }

  function PdptIndex(v: u64): index { v / 0x4000_0000 % ENTRIES }

  function PdIndex(v: u64): index { v / 0x20_0000 % ENTRIES }

  function PtIndex(v: u64): index { v / PAGE_SIZE % ENTRIES }

  /** Physical memory as far as the tables go: page address to its 512 entries. */
  type Memory = map<u64, seq<u64>>

  predicate PageAligned(p: int) { p % PAGE_SIZE == 0 }

  function AlignDown(p: u64): u64 { p - p % PAGE_SIZE }

  // The present bit, the large-page bit and the frame of an entry.
  predicate Present(e: u64) { e % 2 == 1 }

  predicate Large(e: u64) { e / PTE_PS % 2 == 1 }

  function FrameOf(e: u64): u64 { e - e % PAGE_SIZE }

  /** Frame and flags combined; a sum, because they share no bit. */
  function Entry(frame: u64, flags: nat): u64
    requires PageAligned(frame) && flags < PAGE_SIZE
  {
    frame + flags
  }

  function ZeroPage(): seq<u64> { seq(ENTRIES, _ => 0) }

  // ---------------------------------------------------------------------
  // Reading side
  // ---------------------------------------------------------------------

  /** The physical address an access reaches and the flags of the entry that maps it. */
  datatype Access = Access(phys: nat, flags: nat)

  /** The entry read at an index of a table page; a page the loader never wrote reads as zero. */
  function ReadEntry(mem: Memory, table: u64, i: nat): u64 {
    if table in mem && i < |mem[table]| then mem[table][i] else 0
  }

  /** One entry written. */
  function Store(mem: Memory, table: u64, i: nat, e: u64): Memory
    requires table in mem && i < |mem[table]|
  {
    var page: seq<u64> := mem[table][i := e];
    mem[table := page]
  }

  /** The walk from the root for one virtual address, with both large-page exits. */
  function Walk(mem: Memory, root: u64, v: u64): Option<Access> {
    var e4 := ReadEntry(mem, root, Pml4Index(v));
    if !Present(e4) then None else
    var e3 := ReadEntry(mem, FrameOf(e4), PdptIndex(v));
    if !Present(e3) then None else
    if Large(e3) then Some(Access(e3 - e3 % 0x4000_0000 + v % 0x4000_0000, e3 % PAGE_SIZE)) else
    var e2 := ReadEntry(mem, FrameOf(e3), PdIndex(v));
    if !Present(e2) then None else
    if Large(e2) then Some(Access(e2 - e2 % 0x20_0000 + v % 0x20_0000, e2 % PAGE_SIZE)) else
    var e1 := ReadEntry(mem, FrameOf(e2), PtIndex(v));
    if !Present(e1) then None else
    Some(Access(FrameOf(e1) + v % PAGE_SIZE, e1 % PAGE_SIZE))
  }

  /** The loader's own diagnostic: 0 stands for "not mapped". */
  function CheckAddressMapping(mem: Memory, root: u64, v: u64): nat {
    if root == 0 then 0 else
    match Walk(mem, root, v)
    case None => 0
    case Some(a) => a.phys
  }

  // ---------------------------------------------------------------------
  // Abstract translation
  // ---------------------------------------------------------------------

  /** A mapped page: the frame it leads to and the low bits of its entry. */
  datatype Leaf = Leaf(frame: u64, flags: nat)

  type Translation = map<nat, Leaf>

  predicate ValidLeaf(l: Leaf) {
    PageAligned(l.frame) && l.flags < PAGE_SIZE && l.flags % 2 == 1
  }

  type page = k: nat | k < PAGES

  function PageNo(v: int): page { v / PAGE_SIZE % PAGES }

  // ---------------------------------------------------------------------
  // Shape of the tree
  // ---------------------------------------------------------------------

  /** A table by its level (4 at the root) and the index bits that lead to it. */
  datatype Node = Node(level: nat, prefix: nat)

  const ROOT := Node(4, 0)

  type Directory = map<Node, u64>

  function Child(n: Node, i: nat): Node
    requires n.level >= 2
  {
    Node(n.level - 1, n.prefix * ENTRIES + i)
  }

  function Parent(n: Node): Node { Node(n.level + 1, n.prefix / ENTRIES) }

  // The 512 GiB, 1 GiB and 2 MiB region of a page.
  function PdptNo(k: nat): nat { k / 0x800_0000 }

  function PdNo(k: nat): nat { k / 0x4_0000 }

  function PtNo(k: nat): nat { k / ENTRIES }

  /** The tables on the way to a page. */
  function PdptNode(k: nat): Node { Node(3, PdptNo(k)) }

  function PdNode(k: nat): Node { Node(2, PdNo(k)) }

  function PtNode(k: nat): Node { Node(1, PtNo(k)) }

  function PathTo(k: nat): set<Node> { {ROOT, PdptNode(k), PdNode(k), PtNode(k)} }

  // The distinct regions holding a page of a set.
  ghost function PdptNos(pages: set<nat>): set<nat> { set k | k in pages :: PdptNo(k) }

  ghost function PdNos(pages: set<nat>): set<nat> { set k | k in pages :: PdNo(k) }

  ghost function PtNos(pages: set<nat>): set<nat> { set k | k in pages :: PtNo(k) }

  ghost function Level(level: nat, prefixes: set<nat>): set<Node> { set q | q in prefixes :: Node(level, q) }

  /** The tables a set of pages needs. */
  ghost function NodesOf(pages: set<nat>): set<Node> {
    {ROOT} + Level(3, PdptNos(pages)) + Level(2, PdNos(pages)) + Level(1, PtNos(pages))
  }

  function TableEntry(dir: Directory, n: Node, i: nat): int
    requires n.level >= 2
  {
    if Child(n, i) in dir then dir[Child(n, i)] + PTE_P + PTE_W else 0
  }

  function LeafEntry(spec: Translation, k: nat): int {
    if k in spec then spec[k].frame + spec[k].flags else 0
  }

  /** Every page of the directory is a full, aligned page of physical memory. */
  ghost predicate Placed(mem: Memory, dir: Directory) {
    forall n <- dir ::
      dir[n] in mem && |mem[dir[n]]| == ENTRIES && PageAligned(dir[n]) && dir[n] < PHYS_LIMIT
  }

  /** No page serves as two tables. */
  ghost predicate Injective(dir: Directory) {
    forall m, n | m in dir && n in dir && dir[m] == dir[n] :: m == n
  }

  ghost predicate Rooted(dir: Directory) {
    ROOT in dir && forall n <- dir ::
      1 <= n.level <= 4 && (n.level == 4 ==> n == ROOT) && (n.level < 4 ==> Parent(n) in dir)
  }

  ghost predicate Linked(mem: Memory, dir: Directory)
    requires Placed(mem, dir)
  {
    forall n, i | n in dir && n.level >= 2 && 0 <= i < ENTRIES ::
      mem[dir[n]][i] == TableEntry(dir, n, i)
  }

  ghost predicate LeavesHold(mem: Memory, dir: Directory, spec: Translation)
    requires Placed(mem, dir)
  {
    forall n, i | n in dir && n.level == 1 && 0 <= i < ENTRIES ::
      mem[dir[n]][i] == LeafEntry(spec, n.prefix * ENTRIES + i)
  }

  ghost predicate Covered(dir: Directory, spec: Translation) {
    forall k <- spec :: k < PAGES && ValidLeaf(spec[k]) && PtNode(k) in dir
  }

  /** The invariant of every reachable state: memory is exactly the tree `dir`
      with the translation `spec` in its leaves. */
  ghost predicate Tree(mem: Memory, dir: Directory, spec: Translation) {
    && Placed(mem, dir)
    && Injective(dir)
    && Rooted(dir)
    && Linked(mem, dir)
    && LeavesHold(mem, dir, spec)
    && Covered(dir, spec)
  }

  // ---------------------------------------------------------------------
  // The walk refines the translation
  // ---------------------------------------------------------------------

  /** Shifting by 9 bits twice over the same word is shifting once by the sum. */
  lemma ShiftsCompose(q: nat)
    ensures q / ENTRIES / ENTRIES == q / 0x4_0000
    ensures q / 0x4_0000 / ENTRIES == q / 0x800_0000
  {
  }

  lemma ShiftsOfAddress(v: nat)
    ensures v / 0x20_0000 == v / PAGE_SIZE / ENTRIES
    ensures v / 0x4000_0000 == v / PAGE_SIZE / 0x4_0000
    ensures v / 0x80_0000_0000 == v / PAGE_SIZE / 0x800_0000
  {
  }

  lemma DropMultiple(h: int, x: int)
    ensures (ENTRIES * h + x) % ENTRIES == x % ENTRIES
  {
  }

  lemma DropHighBits(q: nat)
    ensures var k := q % PAGES;
            && q / 0x800_0000 % ENTRIES == k / 0x800_0000 < ENTRIES
            && q / 0x4_0000 % ENTRIES == k / 0x4_0000 % ENTRIES
            && q / ENTRIES % ENTRIES == k / ENTRIES % ENTRIES
            && q % ENTRIES == k % ENTRIES
  {
    var h, k := q / PAGES, q % PAGES;
    assert q == PAGES * h + k;
    assert q / 0x800_0000 == ENTRIES * h + k / 0x800_0000;
    DropMultiple(h, k / 0x800_0000);
    assert q / 0x4_0000 == ENTRIES * (ENTRIES * h) + k / 0x4_0000;
    DropMultiple(ENTRIES * h, k / 0x4_0000);
    assert q / ENTRIES == ENTRIES * (0x4_0000 * h) + k / ENTRIES;
    DropMultiple(0x4_0000 * h, k / ENTRIES);
    DropMultiple(0x800_0000 * h, k);
  }

  /** The indices taken from the address are those of its page number. */
  lemma IndicesOfPage(v: u64)
    ensures var k := PageNo(v);
            && Pml4Index(v) == k / 0x800_0000
            && PdptIndex(v) == k / 0x4_0000 % ENTRIES
            && PdIndex(v) == k / ENTRIES % ENTRIES
            && PtIndex(v) == k % ENTRIES
            && k / 0x4_0000 / ENTRIES == k / 0x800_0000
            && k / ENTRIES / ENTRIES == k / 0x4_0000
  {
    ShiftsOfAddress(v);
    DropHighBits(v / PAGE_SIZE);
    ShiftsCompose(PageNo(v));
  }

  /** Following the indices of an address visits the tables on the way to its page. */
  lemma IndicesLeadToPage(v: u64)
    ensures var k := PageNo(v);
            && Child(ROOT, Pml4Index(v)) == PdptNode(k) && Parent(PdptNode(k)) == ROOT
            && Child(PdptNode(k), PdptIndex(v)) == PdNode(k) && Parent(PdNode(k)) == PdptNode(k)
            && Child(PdNode(k), PdIndex(v)) == PtNode(k) && Parent(PtNode(k)) == PdNode(k)
            && PtIndex(v) == k % ENTRIES
  {
    IndicesOfPage(v);
  }

  lemma DropEven(h: int, x: int)
    ensures (2 * h + x) % 2 == x % 2
  {
  }

  lemma EntryFields(frame: u64, flags: nat)
    requires PageAligned(frame) && flags < PAGE_SIZE && frame + flags < TWO_64
    ensures FrameOf(frame + flags) == frame
    ensures (frame + flags) % PAGE_SIZE == flags
    ensures Present(frame + flags) <==> flags % 2 == 1
    ensures Large(frame + flags) <==> flags / PTE_PS % 2 == 1
  {
    var q := frame / PAGE_SIZE;
    assert frame == PAGE_SIZE * q;
    assert (frame + flags) / PTE_PS == 2 * (16 * q) + flags / PTE_PS;
    DropEven(16 * q, flags / PTE_PS);
    DropEven(2048 * q, flags);
  }

  /** One non-leaf level of the walk: the entry for page `k` is present exactly
      when the child table exists, points at it, and is never a large page. */
  lemma StepDown(mem: Memory, dir: Directory, spec: Translation, n: Node, i: nat)
    requires Tree(mem, dir, spec)
    requires n in dir && n.level >= 2 && i < ENTRIES
    ensures var e := ReadEntry(mem, dir[n], i);
            && dir[n] in mem && |mem[dir[n]]| == ENTRIES
            && (Present(e) <==> Child(n, i) in dir)
            && (Present(e) ==> FrameOf(e) == dir[Child(n, i)] && !Large(e))
  {
    assert mem[dir[n]][i] == TableEntry(dir, n, i);
    if Child(n, i) in dir {
      EntryFields(dir[Child(n, i)], PTE_P + PTE_W);
    }
  }

  /** In every reachable state the hardware walk is the translation: same frame,
      same flags, and nothing else is mapped. */
  lemma WalkRefinesTranslation(mem: Memory, dir: Directory, spec: Translation, v: u64)
    requires Tree(mem, dir, spec)
    ensures Walk(mem, dir[ROOT], v) ==
            if PageNo(v) in spec
            then Some(Access(spec[PageNo(v)].frame + v % PAGE_SIZE, spec[PageNo(v)].flags))
            else None
  {
    var k := PageNo(v);
    IndicesLeadToPage(v);
    StepDown(mem, dir, spec, ROOT, Pml4Index(v));
    if PdptNode(k) in dir {
      StepDown(mem, dir, spec, PdptNode(k), PdptIndex(v));
      if PdNode(k) in dir {
        StepDown(mem, dir, spec, PdNode(k), PdIndex(v));
        if PtNode(k) in dir {
          LeafRead(mem, dir, spec, k);
        }
      }
    }
  }

  /** The last level: the entry read for page `k` is its leaf. */
  lemma LeafRead(mem: Memory, dir: Directory, spec: Translation, k: nat)
    requires Tree(mem, dir, spec) && PtNode(k) in dir
    ensures var e := ReadEntry(mem, dir[PtNode(k)], k % ENTRIES);
            && (Present(e) <==> k in spec)
            && (k in spec ==> FrameOf(e) == spec[k].frame && e % PAGE_SIZE == spec[k].flags)
  {
    hide Tree, PtNode, ReadEntry;
    LeafEntryRead(mem, dir, spec, k);
    if k in spec {
      EntryFields(spec[k].frame, spec[k].flags);
    }
  }

  lemma LeafEntryRead(mem: Memory, dir: Directory, spec: Translation, k: nat)
    requires Tree(mem, dir, spec) && PtNode(k) in dir
    ensures ReadEntry(mem, dir[PtNode(k)], k % ENTRIES) == LeafEntry(spec, k)
    ensures k in spec ==> ValidLeaf(spec[k])
  {
    hide ValidLeaf, Linked, Injective, Rooted;
    var n := PtNode(k);
    assert n.prefix * ENTRIES + k % ENTRIES == k;
    assert mem[dir[n]][k % ENTRIES] == LeafEntry(spec, n.prefix * ENTRIES + k % ENTRIES);
  }

  /** The diagnostic answers 0 for an unmapped address, but also for every address when the root
      is page 0, and for the first byte of a page mapped to frame 0. */
  lemma CheckAddressMappingMeaning(mem: Memory, dir: Directory, spec: Translation, v: u64)
    requires Tree(mem, dir, spec)
    ensures var r := CheckAddressMapping(mem, dir[ROOT], v);
            && (PageNo(v) in spec && dir[ROOT] != 0 ==> r == spec[PageNo(v)].frame + v % PAGE_SIZE)
            && (r == 0 <==> dir[ROOT] == 0 || PageNo(v) !in spec
                            || (spec[PageNo(v)].frame == 0 && v % PAGE_SIZE == 0))
  {
    WalkRefinesTranslation(mem, dir, spec, v);
  }

  /** Each table but the root is pointed to by exactly one present entry of a non-leaf table. */
  lemma OneParentEntry(mem: Memory, dir: Directory, spec: Translation, n: Node)
    requires Tree(mem, dir, spec) && n in dir && n != ROOT
    ensures var p, j := Parent(n), n.prefix % ENTRIES;
            && p in dir && p.level >= 2
            && Present(mem[dir[p]][j]) && FrameOf(mem[dir[p]][j]) == dir[n]
    ensures forall m, j | m in dir && m.level >= 2 && 0 <= j < ENTRIES
                          && Present(mem[dir[m]][j]) && FrameOf(mem[dir[m]][j]) == dir[n] ::
              m == Parent(n) && j == n.prefix % ENTRIES
  {
    var p, j := Parent(n), n.prefix % ENTRIES;
    assert Child(p, j) == n;
    StepDown(mem, dir, spec, p, j);
    forall m, j | m in dir && m.level >= 2 && 0 <= j < ENTRIES
                  && Present(mem[dir[m]][j]) && FrameOf(mem[dir[m]][j]) == dir[n]
      ensures m == Parent(n) && j == n.prefix % ENTRIES
    {
      StepDown(mem, dir, spec, m, j);
      assert Child(m, j) == n;
    }
  }

  // ---------------------------------------------------------------------
  // The two steps
  // ---------------------------------------------------------------------

  /** Hanging a zeroed page below a table changes no translation. */
  lemma AddTable(mem: Memory, dir: Directory, spec: Translation, n: Node, i: nat, page: u64)
    returns (mem': Memory, dir': Directory)
    requires Tree(mem, dir, spec)
    requires n in dir && n.level >= 2 && i < ENTRIES && Child(n, i) !in dir
    requires page !in mem && PageAligned(page) && page < PHYS_LIMIT
    ensures mem' == Store(mem[page := ZeroPage()], dir[n], i, Entry(page, PTE_P + PTE_W))
    ensures dir' == dir[Child(n, i) := page]
    ensures Tree(mem', dir', spec)
  {
    var c := Child(n, i);
    mem' := Store(mem[page := ZeroPage()], dir[n], i, Entry(page, PTE_P + PTE_W));
    dir' := dir[c := page];
    assert Parent(c) == n;
    assert Placed(mem', dir');
    AddTableLinked(mem, dir, spec, n, i, page, mem', dir');
    AddTableLeaves(mem, dir, spec, n, i, page, mem', dir');
  }

  lemma AddTableLeaves(mem: Memory, dir: Directory, spec: Translation, n: Node, i: nat, page: u64,
                       mem': Memory, dir': Directory)
    requires Placed(mem, dir) && Placed(mem', dir') && Injective(dir)
    requires LeavesHold(mem, dir, spec) && Covered(dir, spec)
    requires n in dir && n.level >= 2 && i < ENTRIES && Child(n, i) !in dir
    requires page !in mem && PageAligned(page) && page < PHYS_LIMIT
    requires mem' == Store(mem[page := ZeroPage()], dir[n], i, Entry(page, PTE_P + PTE_W))
    requires dir' == dir[Child(n, i) := page]
    ensures LeavesHold(mem', dir', spec)
  {
    var c := Child(n, i);
    forall m, j | m in dir' && m.level == 1 && 0 <= j < ENTRIES
      ensures mem'[dir'[m]][j] == LeafEntry(spec, m.prefix * ENTRIES + j)
    {
      JoinIndex(m.prefix, j);
      if m != c {
        assert mem[dir[m]][j] == LeafEntry(spec, m.prefix * ENTRIES + j);
      }
    }
  }

  lemma AddTableLinked(mem: Memory, dir: Directory, spec: Translation, n: Node, i: nat, page: u64,
                       mem': Memory, dir': Directory)
    requires Tree(mem, dir, spec)
    requires n in dir && n.level >= 2 && i < ENTRIES && Child(n, i) !in dir
    requires page !in mem && PageAligned(page) && page < PHYS_LIMIT
    requires mem' == Store(mem[page := ZeroPage()], dir[n], i, Entry(page, PTE_P + PTE_W))
    requires dir' == dir[Child(n, i) := page]
    requires Placed(mem', dir')
    ensures Linked(mem', dir')
  {
    var c := Child(n, i);
    forall m, j | m in dir' && m.level >= 2 && 0 <= j < ENTRIES
      ensures mem'[dir'[m]][j] == TableEntry(dir', m, j)
    {
      var d := Child(m, j);
      assert Parent(d) == m;
      if m == c {
        assert d !in dir;
      } else {
        assert mem[dir[m]][j] == TableEntry(dir, m, j);
        if d == c {
          assert m == n && j == i;
        }
      }
    }
  }

  /** Writing a leaf changes the translation of its own page and of no other. */
  lemma WriteLeaf(mem: Memory, dir: Directory, spec: Translation, k: nat, leaf: Leaf)
    returns (mem': Memory)
    requires Tree(mem, dir, spec)
    requires k < PAGES && ValidLeaf(leaf) && PtNode(k) in dir
    ensures var t := dir[PtNode(k)];
            && t in mem && |mem[t]| == ENTRIES
            && mem' == Store(mem, t, k % ENTRIES, Entry(leaf.frame, leaf.flags))
    ensures Tree(mem', dir, spec[k := leaf])
  {
    var n := PtNode(k);
    mem' := Store(mem, dir[n], k % ENTRIES, Entry(leaf.frame, leaf.flags));
    assert Placed(mem', dir);
    assert Linked(mem', dir) by {
      forall m, j | m in dir && m.level >= 2 && 0 <= j < ENTRIES
        ensures mem'[dir[m]][j] == TableEntry(dir, m, j)
      {
        assert m != n && mem[dir[m]][j] == TableEntry(dir, m, j);
      }
    }
    WriteLeafHolds(mem, dir, spec, k, leaf, mem');
  }

  lemma WriteLeafHolds(mem: Memory, dir: Directory, spec: Translation, k: nat, leaf: Leaf, mem': Memory)
    requires Placed(mem, dir) && Placed(mem', dir) && Injective(dir) && LeavesHold(mem, dir, spec)
    requires k < PAGES && ValidLeaf(leaf) && PtNode(k) in dir
    requires mem' == Store(mem, dir[PtNode(k)], k % ENTRIES, Entry(leaf.frame, leaf.flags))
    ensures LeavesHold(mem', dir, spec[k := leaf])
  {
    forall m, j | m in dir && m.level == 1 && 0 <= j < ENTRIES
      ensures mem'[dir[m]][j] == LeafEntry(spec[k := leaf], m.prefix * ENTRIES + j)
    {
      assert mem[dir[m]][j] == LeafEntry(spec, m.prefix * ENTRIES + j);
      JoinIndex(m.prefix, j);
      if dir[m] == dir[PtNode(k)] {
        assert m.prefix == k / ENTRIES;
      }
    }
  }

  lemma JoinIndex(prefix: nat, j: nat)
    requires j < ENTRIES
    ensures (prefix * ENTRIES + j) / ENTRIES == prefix && (prefix * ENTRIES + j) % ENTRIES == j
  {
  }

  /** A lone zeroed root maps nothing. */
  lemma EmptyTree(mem: Memory, root: u64)
    requires root in mem && mem[root] == ZeroPage() && PageAligned(root) && root < PHYS_LIMIT
    ensures Tree(mem, map[ROOT := root], map[])
  {
    var dir: Directory := map[ROOT := root];
    forall i: nat ensures Child(ROOT, i) !in dir {}
  }
}

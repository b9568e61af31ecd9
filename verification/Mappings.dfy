/** What the mapping calls of the boot loader mean: a last-writer-wins map from pages to leaves. */
module Mappings {
  import opened Words
  import opened PageTables

  const RW := PTE_P + PTE_W
  const UNCACHED := PTE_PCD + PTE_PWT

  // ---------------------------------------------------------------------
  // The pages one call visits
  // ---------------------------------------------------------------------

  /** First page after the byte range, computed in 64 bits. */
  function EndOf(base: u64, size: u64): u64 { AlignDown(Wrap64(base + size + (PAGE_SIZE - 1))) }

  /** Iterations of the page loop of a call. */
  function RangePages(base: u64, size: u64): nat {
    if size == 0 || EndOf(base, size) <= AlignDown(base) then 0
    else (EndOf(base, size) - AlignDown(base)) / PAGE_SIZE
  }

  /** Rounding up after wrapping the sum is wrapping once. */
  lemma AlignUpOfWrapped(base: u64, size: u64)
    ensures AlignDown(Wrap64(Wrap64(base + size) + (PAGE_SIZE - 1))) == EndOf(base, size)
  {
  }

  /** Address `a` lies on a page some iteration visits. */
  predicate Visited(base: u64, size: u64, a: int) {
    AlignDown(base) <= a < AlignDown(base) + PAGE_SIZE * RangePages(base, size)
  }

  /** A call visits every page its byte range touches exactly when rounding the end of
      the range up does not pass 2^64; otherwise it silently maps fewer pages. */
  lemma RangeCoveredIff(base: u64, size: u64)
    requires size > 0
    ensures (forall a: int | base <= a < base + size :: Visited(base, size, a))
            <==> base + size + (PAGE_SIZE - 1) < TWO_64
  {
    var end := EndOf(base, size);
    assert end % PAGE_SIZE == 0 && AlignDown(base) % PAGE_SIZE == 0;
    if base + size + (PAGE_SIZE - 1) < TWO_64 {
      assert end >= base + size;
      assert AlignDown(base) + PAGE_SIZE * RangePages(base, size) == end;
    } else {
      LastByteMissed(base, size);
      assert base <= base + size - 1 < base + size;
    }
  }

  lemma LastByteMissed(base: u64, size: u64)
    requires size > 0 && base + size + (PAGE_SIZE - 1) >= TWO_64
    ensures !Visited(base, size, base + size - 1)
  {
    var end := EndOf(base, size);
    assert end <= base + size + (PAGE_SIZE - 1) - TWO_64 < base + size - 1;
    if RangePages(base, size) > 0 {
      assert end % PAGE_SIZE == 0 && AlignDown(base) % PAGE_SIZE == 0;
      assert AlignDown(base) + PAGE_SIZE * RangePages(base, size) == end;
    }
  }

  /** A concrete call that maps nothing although it asks for the top page of the address space. */
  lemma TopPageIsLost()
    ensures RangePages(TWO_64 - PAGE_SIZE, PAGE_SIZE - 1) == 0
  {
    assert EndOf(TWO_64 - PAGE_SIZE, PAGE_SIZE - 1) == 0;
  }

  // ---------------------------------------------------------------------
  // The translation after a call
  // ---------------------------------------------------------------------

  /** The page and the leaf of the i-th iteration. */
  function PageAt(v: u64, i: nat): nat { PageNo(v + PAGE_SIZE * i) }

  function LeafAt(p: u64, i: nat, flags: nat): Leaf { Leaf(Wrap64(p + PAGE_SIZE * i), flags) }

  function MapPages(spec: Translation, v: u64, p: u64, n: nat, flags: nat): Translation {
    if n == 0 then spec
    else MapPages(spec, v, p, n - 1, flags)[PageAt(v, n - 1) := LeafAt(p, n - 1, flags)]
  }

  lemma {:induction false} MapPagesOutside(spec: Translation, v: u64, p: u64, n: nat, flags: nat, k: nat)
    requires forall i: nat | i < n :: PageAt(v, i) != k
    ensures k in MapPages(spec, v, p, n, flags) <==> k in spec
    ensures k in spec ==> MapPages(spec, v, p, n, flags)[k] == spec[k]
  {
    if n > 0 {
      MapPagesOutside(spec, v, p, n - 1, flags, k);
    }
  }

  lemma DistinctPages(v: u64, i: nat, j: nat)
    requires i < j < i + PAGES
    ensures PageAt(v, i) != PageAt(v, j)
  {
    var q := v / PAGE_SIZE;
    assert (v + PAGE_SIZE * i) / PAGE_SIZE == q + i;
    assert (v + PAGE_SIZE * j) / PAGE_SIZE == q + j;
    assert 0 < (q + j) - (q + i) < PAGES;
  }

  /** Page i of the call leads to frame i of the call, whatever was mapped before. */
  lemma {:induction false} MapPagesInside(spec: Translation, v: u64, p: u64, n: nat, flags: nat, i: nat)
    requires i < n <= PAGES
    ensures PageAt(v, i) in MapPages(spec, v, p, n, flags)
    ensures MapPages(spec, v, p, n, flags)[PageAt(v, i)] == LeafAt(p, i, flags)
  {
    if i < n - 1 {
      MapPagesInside(spec, v, p, n - 1, flags, i);
      DistinctPages(v, i, n - 1);
    }
  }

  /** The pages some iteration visits. */
  ghost function VisitedPages(v: u64, n: nat): set<nat> { set i: nat | 0 <= i < n :: PageAt(v, i) }

  /** A call maps the pages it visits, and forgets none. */
  lemma {:induction false} MapPagesKeys(spec: Translation, v: u64, p: u64, n: nat, flags: nat)
    ensures MapPages(spec, v, p, n, flags).Keys == spec.Keys + VisitedPages(v, n)
  {
    hide PageAt, LeafAt;
    if n > 0 {
      MapPagesKeys(spec, v, p, n - 1, flags);
      VisitedNext(v, n - 1);
    }
  }

  lemma VisitedNext(v: u64, n: nat)
    ensures VisitedPages(v, n + 1) == VisitedPages(v, n) + {PageAt(v, n)}
  {
    hide PageAt;
  }

  /** The pages of the call for a byte range. */
  ghost function PagesOfRange(base: u64, size: u64): set<nat> {
    VisitedPages(AlignDown(base), RangePages(base, size))
  }

  lemma VisitedMore(v: u64, m: nat, n: nat)
    requires m <= n
    ensures VisitedPages(v, m) <= VisitedPages(v, n)
  {
    hide PageAt;
  }

  // ---------------------------------------------------------------------
  // Identity mappings
  // ---------------------------------------------------------------------

  function IdentityLeaf(k: nat, flags: nat): Leaf
    requires k < PAGES
  {
    Leaf(k * PAGE_SIZE, flags)
  }

  ghost predicate IdentityAt(spec: Translation, k: nat, flags: nat) {
    k < PAGES && k in spec && spec[k] == IdentityLeaf(k, flags)
  }

  /** Within 2^48 an identity call maps each page it visits to itself. */
  lemma IdentityCall(spec: Translation, base: u64, size: u64, flags: nat, k: nat)
    requires base + size <= PHYS_LIMIT && size > 0
    requires base < (k + 1) * PAGE_SIZE && k * PAGE_SIZE < base + size
    ensures IdentityAt(MapPages(spec, AlignDown(base), AlignDown(base), RangePages(base, size), flags), k, flags)
  {
    hide RangePages, PageTables.AlignDown, PageTables.PageNo;
    var a, n := AlignDown(base), RangePages(base, size);
    IdentityIteration(base, size, k);
    MapPagesInside(spec, a, a, n, flags, k - a / PAGE_SIZE);
  }

  lemma IdentityIteration(base: u64, size: u64, k: nat)
    requires base + size <= PHYS_LIMIT && size > 0
    requires base < (k + 1) * PAGE_SIZE && k * PAGE_SIZE < base + size
    ensures var a := AlignDown(base);
            && 0 <= k - a / PAGE_SIZE < RangePages(base, size) <= PAGES
            && a + PAGE_SIZE * (k - a / PAGE_SIZE) == k * PAGE_SIZE
            && PageAt(a, k - a / PAGE_SIZE) == k
  {
    var a, end := AlignDown(base), EndOf(base, size);
    var c, d := a / PAGE_SIZE, end / PAGE_SIZE;
    assert end == d * PAGE_SIZE && a == c * PAGE_SIZE && base + size <= end <= PHYS_LIMIT;
    assert c <= k < d;
    assert RangePages(base, size) == d - c;
  }

  /** An identity call within 2^48 visits only the pages its range touches. */
  lemma IdentityCallOutside(spec: Translation, base: u64, size: u64, flags: nat, k: nat)
    requires base + size <= PHYS_LIMIT
    requires size == 0 || !(base < (k + 1) * PAGE_SIZE && k * PAGE_SIZE < base + size)
    ensures var m := MapPages(spec, AlignDown(base), AlignDown(base), RangePages(base, size), flags);
            (k in m <==> k in spec) && (k in spec ==> m[k] == spec[k])
  {
    var a, n := AlignDown(base), RangePages(base, size);
    forall i: nat | i < n ensures PageAt(a, i) != k {
      var end := EndOf(base, size);
      assert end % PAGE_SIZE == 0 && a % PAGE_SIZE == 0 && end < base + size + PAGE_SIZE;
      var x := a + PAGE_SIZE * i;
      assert x <= end - PAGE_SIZE && x / PAGE_SIZE < PAGES;
      assert PageAt(a, i) == x / PAGE_SIZE;
    }
    MapPagesOutside(spec, a, a, n, flags, k);
  }

  // ---------------------------------------------------------------------
  // Several ranges, and the table pages themselves
  // ---------------------------------------------------------------------

  function MapRanges(spec: Translation, bases: seq<u64>, sizes: seq<u64>, n: nat): Translation
    requires n <= |bases| == |sizes|
  {
    if n == 0 then spec
    else
      var a := AlignDown(bases[n - 1]);
      MapPages(MapRanges(spec, bases, sizes, n - 1), a, a, RangePages(bases[n - 1], sizes[n - 1]), RW)
  }

  /** Identity-maps a list of table pages, one page each, in order. */
  function SelfMap(spec: Translation, tables: seq<u64>): Translation {
    if tables == [] then spec
    else
      var t := tables[|tables| - 1];
      SelfMap(spec, tables[..|tables| - 1])[PageNo(t) := Leaf(t, RW)]
  }

  ghost function TablePages(tables: seq<u64>): set<nat> { set t: u64 | t in tables :: PageNo(t) as nat }

  lemma {:induction false} SelfMapKeys(spec: Translation, tables: seq<u64>)
    ensures SelfMap(spec, tables).Keys == spec.Keys + TablePages(tables)
  {
    hide PageTables.PageNo;
    if tables != [] {
      var init, t := tables[..|tables| - 1], tables[|tables| - 1];
      SelfMapKeys(spec, init);
      TablePagesNext(init, t);
      assert tables == init + [t];
    }
  }

  lemma TablePagesNext(tables: seq<u64>, t: u64)
    ensures TablePages(tables + [t]) == TablePages(tables) + {PageNo(t)}
  {
    hide PageTables.PageNo;
  }

  predicate TablePage(t: u64) { PageAligned(t) && t < PHYS_LIMIT }

  lemma TablePageNo(t: u64)
    requires TablePage(t)
    ensures PageNo(t) == t / PAGE_SIZE < PAGES && t == PageNo(t) * PAGE_SIZE
    ensures RangePages(t, PAGE_SIZE) == 1 && AlignDown(t) == t
  {
    assert EndOf(t, PAGE_SIZE) == t + PAGE_SIZE;
  }

  /** After the self-map the listed pages are identity mapped and the others are as before. */
  lemma {:induction false} SelfMapMeaning(spec: Translation, tables: seq<u64>, k: nat)
    requires forall t <- tables :: TablePage(t)
    ensures var m := SelfMap(spec, tables);
            && ((exists t <- tables :: PageNo(t) == k) ==> IdentityAt(m, k, RW))
            && (!(exists t <- tables :: PageNo(t) == k) ==>
                (k in m <==> k in spec) && (k in spec ==> m[k] == spec[k]))
  {
    if tables != [] {
      var init, t := tables[..|tables| - 1], tables[|tables| - 1];
      TablePageNo(t);
      SelfMapMeaning(spec, init, k);
      assert tables == init + [t];
    }
  }

  /** A table page ends up identity mapped exactly when the self-map lists it
      or it already was: the caller can decide this before the call. */
  lemma SelfMapCoversIff(spec: Translation, tables: seq<u64>, page: u64)
    requires (forall t <- tables :: TablePage(t)) && TablePage(page)
    ensures IdentityAt(SelfMap(spec, tables), PageNo(page), RW)
            <==> page in tables || IdentityAt(spec, PageNo(page), RW)
  {
    SelfMapMeaning(spec, tables, PageNo(page));
    TablePageNo(page);
    forall t <- tables ensures PageNo(t) == PageNo(page) ==> t == page {
      TablePageNo(t);
    }
  }
}

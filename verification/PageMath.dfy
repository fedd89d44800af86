/** Page arithmetic: page spans, page-table levels and offsets. */
module PageMath {
  import opened Words

  const PGSIZE := 4096
  const PT_NUM_ENTRIES := 512

  /** Number of 4K pages in the 48-bit address space, 512^4. */
  const VPNS := 0x10_0000_0000
  const VIRTMEM_END := 0x1_0000_0000_0000

  /** `ROUND_DOWN(a, PGSIZE)`. */
  function RoundDown(a: nat): (r: nat)
    ensures r <= a < r + PGSIZE && r / PGSIZE == a / PGSIZE && r % PGSIZE == 0
  {
    a - a % PGSIZE
  }

  /** `ROUND_UP(a, PGSIZE)`. */
  function RoundUp(a: nat): (r: nat)
    ensures a <= r < a + PGSIZE && r % PGSIZE == 0
  {
    (a + PGSIZE - 1) / PGSIZE * PGSIZE
  }

  /** Number of pages touched by the `size` bytes at `addr`. */
  function NumSpannedPages(addr: nat, size: nat): nat
  {
    (RoundUp(addr + size) - RoundDown(addr)) / PGSIZE
  }

  /** The page numbers [first, first + n). */
  function PageRange(first: nat, n: nat): (r: set<nat>)
    ensures forall v :: v in r <==> first <= v < first + n
  {
    if n == 0 then {} else PageRange(first, n - 1) + {first + n - 1}
  }

  /** The pages holding at least one of the `size` bytes at `addr`. */
  function SpannedPages(addr: nat, size: nat): (r: set<nat>) {
    PageRange(addr / PGSIZE, NumSpannedPages(addr, size))
  }

  lemma SpannedPagesBounds(addr: nat, size: nat)
    ensures addr / PGSIZE + NumSpannedPages(addr, size) == (addr + size + PGSIZE - 1) / PGSIZE
    ensures size > 0 ==> NumSpannedPages(addr, size) > 0
  {}

  function PageOf(addr: nat): nat { addr / PGSIZE }

  /** The page number a page-table walk sees: that of the low 48 bits of the address. */
  function WalkedPage(addr: nat): nat { addr / PGSIZE % VPNS }

  lemma WalkedLow(addr: nat)
    ensures addr < VIRTMEM_END <==> addr / PGSIZE < VPNS
    ensures addr < VIRTMEM_END ==> WalkedPage(addr) == addr / PGSIZE
    ensures WalkedPage(addr) == addr % VIRTMEM_END / PGSIZE && addr % VIRTMEM_END % PGSIZE == addr % PGSIZE
  {
    var q, r := addr / VIRTMEM_END, addr % VIRTMEM_END;
    assert addr == q * VIRTMEM_END + r;
    assert addr / PGSIZE == q * VPNS + r / PGSIZE;
  }

  /** The spanned pages are exactly the pages of the individual bytes. */
  lemma SpannedPagesMeaning(addr: nat, size: nat, v: nat)
    requires size > 0
    ensures v in SpannedPages(addr, size) <==> exists b :: addr <= b < addr + size && PageOf(b) == v
  {
    SpannedPagesBounds(addr, size);
    if v in SpannedPages(addr, size) {
      var b := if v == addr / PGSIZE then addr else v * PGSIZE;
      assert addr <= b < addr + size && PageOf(b) == v;
    }
  }

  /** Addresses with the same page offset span the same number of pages. */
  lemma SpanDependsOnOffset(p: nat, c: nat, n: nat)
    requires p % PGSIZE == c % PGSIZE
    ensures NumSpannedPages(p, n) == NumSpannedPages(c, n)
  {
    var o := p % PGSIZE;
    assert p == p / PGSIZE * PGSIZE + o && c == c / PGSIZE * PGSIZE + o;
    SpannedPagesBounds(p, n);
    SpannedPagesBounds(c, n);
    assert (p + n + PGSIZE - 1) / PGSIZE == p / PGSIZE + (o + n + PGSIZE - 1) / PGSIZE;
    assert (c + n + PGSIZE - 1) / PGSIZE == c / PGSIZE + (o + n + PGSIZE - 1) / PGSIZE;
  }

  /**
   An in-place shrink from `oldSize` to `newSize` bytes at alias p of canonical c: the pages the
   code invalidates (start taken from the alias, count from the canonical pointer) are exactly
   those the old block touched and the new one does not.
   */
  lemma ShrinkIsExact(p: nat, c: nat, oldSize: nat, newSize: nat)
    requires p % PGSIZE == c % PGSIZE && 0 < newSize
    requires NumSpannedPages(c, newSize) < NumSpannedPages(c, oldSize)
    ensures PageRange(RoundUp(p + newSize) / PGSIZE, NumSpannedPages(c, oldSize) - NumSpannedPages(c, newSize))
         == SpannedPages(p, oldSize) - SpannedPages(p, newSize)
    ensures SpannedPages(p, newSize) <= SpannedPages(p, oldSize)
  {
    SpanDependsOnOffset(p, c, oldSize);
    SpanDependsOnOffset(p, c, newSize);
    SpannedPagesBounds(p, oldSize);
    SpannedPagesBounds(p, newSize);
    assert RoundUp(p + newSize) / PGSIZE == (p + newSize + PGSIZE - 1) / PGSIZE;
  }

  /** `pt_num_mapped_pages(level)`; one past the top level it is the whole address space. */
  function PagesAt(level: nat): (r: nat)
    requires 1 <= level <= 5
    ensures r > 0
  {
    if level == 1 then 1 else if level == 2 then 0x200 else if level == 3 then 0x4_0000
    else if level == 4 then 0x800_0000 else VPNS
  }

  /** `pt_level_offset` of a page number: its index in the table of that level. */
  function Index(vpn: nat, level: nat): (r: nat)
    requires 1 <= level <= 4
    ensures r < PT_NUM_ENTRIES
  {
    vpn / PagesAt(level) % PT_NUM_ENTRIES
  }

  /** Which table of that level covers the page number. */
  function Prefix(vpn: nat, level: nat): nat
    requires 1 <= level <= 4
  {
    vpn / PagesAt(level + 1)
  }

  lemma PrefixDown(vpn: nat, level: nat)
    requires 2 <= level <= 4
    ensures Prefix(vpn, level - 1) == Prefix(vpn, level) * PT_NUM_ENTRIES + Index(vpn, level)
  {
    var w := vpn / PagesAt(level);
    assert w == w / PT_NUM_ENTRIES * PT_NUM_ENTRIES + w % PT_NUM_ENTRIES;
    DivLevel(vpn, level);
  }

  lemma DivLevel(vpn: nat, level: nat)
    requires 1 <= level <= 4
    ensures vpn / PagesAt(level + 1) == vpn / PagesAt(level) / PT_NUM_ENTRIES
  {
    if level == 1 {
    } else if level == 2 {
      assert vpn / 0x4_0000 == vpn / 0x200 / 0x200;
    } else if level == 3 {
      assert vpn / 0x800_0000 == vpn / 0x4_0000 / 0x200;
    } else {
      assert vpn / VPNS == vpn / 0x800_0000 / 0x200;
    }
  }

  lemma PageSplit(vpn: nat)
    ensures vpn == Prefix(vpn, 1) * PT_NUM_ENTRIES + Index(vpn, 1)
  {}

  function LevelShift(level: nat): nat
    requires 1 <= level <= 4
  {
    12 + (level - 1) * 9
  }

  /** `pt_level_offset`: the index is a shift and a nine-bit mask of the address. */
  function PtLevelOffset(va: nat, level: nat): (r: nat)
    requires 1 <= level <= 4
    ensures r == Index(va / PGSIZE, level)
  {
    LevelOffset(va, level);
    And(Shr(va, LevelShift(level)), PT_NUM_ENTRIES - 1)
  }

  /** `(va >> pt_level_shift(level)) & (PT_NUM_ENTRIES - 1)` is the index of the page of `va`. */
  lemma LevelOffset(va: nat, level: nat)
    requires 1 <= level <= 4
    ensures And(Shr(va, LevelShift(level)), PT_NUM_ENTRIES - 1) == Index(va / PGSIZE, level)
  {
    hide And, Shr;
    AndEntries(Shr(va, LevelShift(level)));
    ShiftToLevel(va, level);
  }

  lemma ShiftToLevel(va: nat, level: nat)
    requires 1 <= level <= 4
    ensures Shr(va, LevelShift(level)) == va / PGSIZE / PagesAt(level)
  {
    hide Shr;
    if level == 1 {
      Shift12(va);
    } else if level == 2 {
      Shift21(va);
      Div21(va);
    } else if level == 3 {
      Shift30(va);
      Div30(va);
    } else {
      Shift39(va);
      Div39(va);
    }
  }

  lemma Div21(va: nat)
    ensures va / 0x20_0000 == va / PGSIZE / 0x200
  {}

  lemma Div30(va: nat)
    ensures va / 0x4000_0000 == va / PGSIZE / 0x4_0000
  {}

  lemma Div39(va: nat)
    ensures va / 0x80_0000_0000 == va / PGSIZE / 0x800_0000
  {}
}

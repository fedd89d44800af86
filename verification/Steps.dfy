/**
 The facts that tie each operation of the allocator to a step of the state machine: what the page
 allocator's answer means for the pages, what resolving a held or dead pointer gives, and that the
 state an operation arrives at is reached by the step it records.
 */
module Steps {
  import opened Options
  import opened Words
  import opened PageMath
  import opened Spans
  import opened PageTree
  import opened PageTable
  import opened SeenPages
  import opened PageEntries
  import opened VirtmemAlloc
  import opened DuneMem
  import opened Machine
  import opened Runs

  const REMAP_FLAGS := PTE_W + PTE_NX

  lemma WNXDisjoint()
    ensures And(PTE_W, PTE_NX) == 0
  {
    hide Shl, Shr;
    Shift63(1);
    AndShifted(1, PTE_W, 63);
    Shift63(PTE_W);
    AndComm(PTE_W, PTE_NX);
    Shift63(0);
  }

  lemma RemapFields()
    ensures !Huge(REMAP_FLAGS) && FrameNo(REMAP_FLAGS) == 0
  {
    assert REMAP_FLAGS / 128 == 0x100_0000_0000_0000;
    assert REMAP_FLAGS / 4096 == 0x8_0000_0000_0000;
  }

  /** `PTE_W | PTE_NX` is a set of flags the mapping functions accept. */
  lemma RemapFlagsOk()
    ensures Or(PTE_W, PTE_NX) == REMAP_FLAGS && OkFlags(REMAP_FLAGS)
  {
    hide And, Or, Huge, FrameNo, Present;
    WNXDisjoint();
    OrDisjoint(PTE_W, PTE_NX);
    MasksAreFields(REMAP_FLAGS);
    RemapFields();
  }

  /** A valid word that lets the kernel read and write, and nobody execute. */
  predicate DataWord(w: nat) {
    w % 2 == 1 && w / 2 % 2 == 1 && w / 4 % 2 == 0 && w / 0x8000_0000_0000_0000 % 2 == 1
  }

  /** In slots that were zero at the start, every valid entry, of whatever level, has these permissions. */
  ghost predicate DataEntries(m: Mem, root: nat, startUsed: set<nat>) {
    forall v: nat, l: nat :: v < VPNS && 1 <= l <= 4 && ValidEntry(m, root, v, l) && SlotOf(v) !in startUsed ==>
      DataWord(Entry(m, root, v, l).value)
  }

  lemma RemapGrants(w: nat)
    requires Grants(w, REMAP_FLAGS)
    ensures DataWord(w)
  {
    assert REMAP_FLAGS / 2 % 2 == 1 && REMAP_FLAGS / 4 % 2 == 0 && REMAP_FLAGS / 0x8000_0000_0000_0000 % 2 == 1;
  }

  lemma StartEntries(m: Mem, root: nat)
    ensures DataEntries(m, root, Used(m, root))
  {
    hide ValidEntry, Entry, DataWord, Used;
    forall v: nat, l: nat | v < VPNS && 1 <= l <= 4 && SlotOf(v) !in Used(m, root) ensures !ValidEntry(m, root, v, l) {
      NothingBelowZero(m, root, v, l);
    }
  }

  /** The mapping of aliases, and their invalidation, keep it so. */
  lemma DataEntriesKept(m: Mem, m': Mem, root: nat, startUsed: set<nat>, changed: set<nat>, flags: Option<nat>)
    requires DataEntries(m, root, startUsed) && EntriesKept(m, m', root, changed, flags)
    requires flags.Some? ==> flags.value == REMAP_FLAGS
    ensures DataEntries(m', root, startUsed)
  {
    hide Entry, DataWord, Grants, SlotOf;
    forall v: nat, l: nat | v < VPNS && 1 <= l <= 4 && ValidEntry(m', root, v, l) && SlotOf(v) !in startUsed
      ensures DataWord(Entry(m', root, v, l).value)
    {
      if Entry(m', root, v, l) == Entry(m, root, v, l) {
        assert ValidEntry(m, root, v, l);
      } else {
        RemapGrants(Entry(m', root, v, l).value);
      }
    }
  }

  /** All four entries on the walk to a mapped page of such a slot. */
  lemma AllEntries(m: Mem, root: nat, startUsed: set<nat>, v: nat, l: nat)
    requires DataEntries(m, root, startUsed) && SlotOf(v) !in startUsed && v < VPNS && 1 <= l <= 4
    requires Leaf(m, root, v).Some? && v in Flat(m, root)
    ensures Entry(m, root, v, l).Some? && DataWord(Entry(m, root, v, l).value)
  {
    hide DataWord, SlotOf;
    WalkPasses(m, root, 4, v, l);
    var s := Walk(m, root, 4, v, 1);
    assert Lookup(m, root, v) == Meaning(Word(m, s), s.level, v);
    hide Walk;
    assert ValidEntry(m, root, v, l);
  }

  lemma AliasBytePage(s: State, p: nat, i: nat)
    requires Inv(s) && p in s.live && s.live[p].remapped && i < s.live[p].n
    ensures (p + i) / PGSIZE in AliasPages(s.live) && (p + i) / PGSIZE in s.flat
  {
    hide Inv;
    BytePage(p, s.live[p].n, i);
    HeldPage(s, p, (p + i) / PGSIZE);
    assert InAlias(s.live, p, (p + i) / PGSIZE);
  }

  /** Alias pages have level-1 entries, and the entries of dead pages hold the dead marker. */
  ghost predicate Marked(m: Mem, root: nat, aliases: set<nat>, dead: set<nat>) {
    && (forall v: nat :: v in aliases ==> v < VPNS && Leaf(m, root, v).Some?)
    && (forall v: nat :: v in dead ==> v < VPNS && Leaf(m, root, v) == Some(PTE_INVALIDATED))
  }

  /** At the start there are no aliases and no dead pages to be marked. */
  lemma NothingMarked(m: Mem, root: nat)
    ensures AliasPages(map[]) == {} && Marked(m, root, AliasPages(map[]), {})
  {
    assert AliasPages(map[]) == {};
  }

  lemma StartParts(s: State)
    requires Inv(s)
    ensures s.lay.Ok() && Legal(Begin(s))
  {}

  /** What a successful or failed `vp_alloc` means in a state that satisfies the invariant. */
  lemma AllocatedPages(s: State, free: set<nat>, npages: nat, va: nat)
    requires Inv(s) && npages > 0 && Allocated(s.free, free, npages, va)
    ensures va == 0 ==> free == s.free && forall q: nat :: !RunAt(s.free, q, npages)
    ensures va != 0 ==>
      && va % PGSIZE == 0 && va + npages * PGSIZE <= VIRTMEM_END
      && PageRange(va / PGSIZE, npages) <= s.free && free == s.free - PageRange(va / PGSIZE, npages)
      && s.flat.Keys !! PageRange(va / PGSIZE, npages)
  {
    hide PageRange;
    assert PlacesOk(s) && PagesApart(s);
    if va == 0 {
      assert 0 in s.free ==> Placeable(s.lay, 0);
    } else {
      var last := va / PGSIZE + npages - 1;
      assert RunAt(s.free, va / PGSIZE, npages);
      assert last in PageRange(va / PGSIZE, npages);
      assert Placeable(s.lay, last);
    }
  }

  /** Free pages are not mapped at all. */
  lemma FreeUnmapped(s: State, m: Mem, root: nat, pages: set<nat>)
    requires Inv(s) && s.flat == Seen(m, root) && ZeroLow(m, root) && pages <= s.free
    ensures Flat(m, root).Keys !! pages && forall v :: v in pages ==> v < VPNS
  {
    hide Inv, Flat, Seen, ZeroLow;
    FreeFacts(s);
    UnseenUnmapped(m, root, pages);
  }

  /** The frames of a block are nonzero and can be named by page-table words. */
  lemma BlockFrames(s: State, c: nat)
    requires Inv(s) && c in s.blocks
    ensures s.lay.Ok() && s.blocks[c] > 0 && NumSpannedPages(c, s.blocks[c]) > 0
    ensures 0 < VaToPa(s.lay, c) / PGSIZE && VaToPa(s.lay, c) / PGSIZE + NumSpannedPages(c, s.blocks[c]) <= FRAMES
  {
    hide Inv;
    BlockFacts(s, c);
    var n := s.blocks[c];
    SpannedPagesBounds(c, n);
    KeepsOffset(s.lay, c);
    Contiguous(s.lay, c, n, n - 1);
    Contiguous(s.lay, c, n, 0);
    SpanDependsOnOffset(VaToPa(s.lay, c), c, n);
    SpannedPagesBounds(VaToPa(s.lay, c), n);
  }

  /** The alias address of a block on freshly allocated pages, and the pages it spans. */
  lemma AliasAddress(va: nat, ptr: nat, size: nat)
    requires va % PGSIZE == 0 && size > 0
    ensures var p := va + ptr % PGSIZE;
            && p % PGSIZE == ptr % PGSIZE && p / PGSIZE == va / PGSIZE
            && NumSpannedPages(p, size) == NumSpannedPages(ptr, size)
            && SpannedPages(p, size) == PageRange(va / PGSIZE, NumSpannedPages(ptr, size))
  {
    SpanDependsOnOffset(va + ptr % PGSIZE, ptr, size);
  }

  lemma MarkedKept(m: Mem, m': Mem, root: nat, aliases: set<nat>, dead: set<nat>, changed: set<nat>)
    requires Marked(m, root, aliases, dead) && LeavesKept(m, m', root, changed)
    requires forall v :: v in changed ==> v !in aliases && v !in dead
    ensures Marked(m', root, aliases, dead)
  {
    forall v: nat | v in aliases ensures v < VPNS && Leaf(m', root, v).Some? {
      assert Leaf(m, root, v).Some?;
    }
    forall v: nat | v in dead ensures v < VPNS && Leaf(m', root, v) == Some(PTE_INVALIDATED) {
      assert Leaf(m, root, v) == Some(PTE_INVALIDATED);
    }
  }

  lemma MarkedAdd(m: Mem, root: nat, aliases: set<nat>, dead: set<nat>, vpn: nat, n: nat)
    requires Marked(m, root, aliases, dead) && HaveLeaves(m, root, vpn, n)
    ensures Marked(m, root, aliases + PageRange(vpn, n), dead)
  {
    hide Leaf, PageRange;
  }

  lemma MappedSlots(m: Mem, root: nat)
    ensures forall v: nat :: v in Flat(m, root) ==> SlotOf(v) in Used(m, root)
  {
    hide Flat, Lookup, Walk, Leaf, Used, SlotOf, AtFrameZero;
    forall v: nat | v in Flat(m, root) ensures SlotOf(v) in Used(m, root) { MappedIsUsed(m, root, v); }
  }

  /** What the page table itself says of a byte of a held block. */
  lemma HeldThrough(s: State, m: Mem, root: nat, p: nat, i: nat)
    requires Inv(s) && s.flat == Seen(m, root) && p in s.live && i < s.live[p].n
    ensures s.lay.Ok() && (p + i) / PGSIZE in Flat(m, root)
    ensures Flat(m, root)[(p + i) / PGSIZE].frame * PGSIZE + (p + i) % PGSIZE == VaToPa(s.lay, s.live[p].c + i)
  {
    hide Inv, VaToPa, Flat, Seen;
    HeldBytes(s, p, i);
  }

  lemma SeenSlots(m: Mem, root: nat)
    ensures forall v: nat :: v in Seen(m, root) ==> SlotOf(v) in Used(m, root)
  {
    hide Flat, Used, SlotOf, AtFrameZero;
    MappedSlots(m, root);
  }

  /** Pages of a free range are neither aliases nor dead. */
  lemma FreeIsNeither(s: State, pages: set<nat>)
    requires Inv(s) && pages <= s.free
    ensures forall v :: v in pages ==> v !in AliasPages(s.live) && v !in s.dead && v !in s.flat
  {
    AliasMapped(s);
  }

  lemma LoseStep(s: State, lost: set<nat>, used: set<nat>, s': State)
    requires Inv(s) && lost <= s.free && s.used <= used
    requires s'.free == s.free - lost && s' == s.(free := s'.free, used := used)
    ensures Step(s, Lose(lost, used), s') && Inv(s')
  {
    hide Inv;
    StepKeepsInv(s, Lose(lost, used), s');
  }

  /** Address 0 is never handed out. */
  lemma FreeAddressNotNull(s: State, p: nat, n: nat)
    requires Inv(s) && n > 0 && SpannedPages(p, n) <= s.free
    ensures p != 0
  {
    BytePage(p, n, 0);
    assert PlacesOk(s) && p / PGSIZE in s.free;
  }

  lemma IsRemap(s: State, p: nat, c: nat, flags: nat, used: set<nat>, s': State)
    requires s.lay.Ok() && c in s.blocks && Unowned(s, c) && p % PGSIZE == c % PGSIZE
    requires SpannedPages(p, s.blocks[c]) <= s.free && s.used <= used
    requires forall v :: v in SpannedPages(p, s.blocks[c]) ==> SlotOf(v) in used
    requires s' == s.(free := s.free - SpannedPages(p, s.blocks[c]), used := used, live := s.live[p := Held(c, s.blocks[c], true)],
                      flat := s.flat + Ramp(p / PGSIZE, VaToPa(s.lay, c) / PGSIZE, NumSpannedPages(p, s.blocks[c]), flags))
    ensures Step(s, Remap(p, c, s.blocks[c], flags, used), s')
  {
    hide VaToPa, SlotOf, Unowned, SpannedPages, NumSpannedPages, Ramp;
  }

  lemma BlockSpans(s: State, c: nat)
    requires Inv(s) && c in s.blocks
    ensures s.blocks[c] > 0
  {
    BlockFacts(s, c);
  }

  lemma RemapStep(s: State, p: nat, c: nat, flags: nat, used: set<nat>, s': State)
    requires Inv(s) && c in s.blocks && Unowned(s, c) && p % PGSIZE == c % PGSIZE
    requires SpannedPages(p, s.blocks[c]) <= s.free && s.used <= used
    requires forall v :: v in s'.flat ==> SlotOf(v) in used
    requires s' == s.(free := s.free - SpannedPages(p, s.blocks[c]), used := used, live := s.live[p := Held(c, s.blocks[c], true)],
                      flat := s.flat + Ramp(p / PGSIZE, VaToPa(s.lay, c) / PGSIZE, NumSpannedPages(p, s.blocks[c]), flags))
    ensures Step(s, Remap(p, c, s.blocks[c], flags, used), s') && Inv(s') && p !in s.live && p != 0
    ensures AliasPages(s'.live) == AliasPages(s.live) + SpannedPages(p, s.blocks[c])
  {
    hide Inv, Step, VaToPa, SlotOf, AliasPages, Unowned, SpannedPages, NumSpannedPages, Ramp;
    var n := s.blocks[c];
    BlockFacts(s, c);
    BlockSpans(s, c);
    RemapPointerIsNew(s, p, c, n);
    FreeAddressNotNull(s, p, n);
    AliasPagesAdd(s.live, p, c, n);
    RampPages(p, VaToPa(s.lay, c) / PGSIZE, n, flags);
    IsRemap(s, p, c, flags, used, s');
    StepKeepsInv(s, Remap(p, c, n, flags, used), s');
  }

  /** The pages may be given to the allocator: unmapped, never used before, and not in reach of auto-dedication. */
  ghost predicate Dedicable(s: State, pages: set<nat>) {
    forall v :: v in pages ==>
      && Placeable(s.lay, v) && (!s.dedicated ==> SlotOf(v) in s.used)
      && v !in s.free && v !in s.flat && v !in s.dead
  }

  lemma DedicateStep(s: State, pages: set<nat>)
    requires Inv(s) && Dedicable(s, pages)
    ensures s.free !! pages
    ensures var s' := s.(free := s.free + pages); Step(s, Dedicate(pages), s') && Inv(s')
  {
    hide Inv, Placeable, SlotOf;
    StepKeepsInv(s, Dedicate(pages), s.(free := s.free + pages));
  }

  /** The pages of the PML4 slots whose root entry is zero. */
  ghost function ZeroSlots(m: Mem, root: nat): set<nat> {
    set v: nat | v < VPNS && SlotOf(v) !in Used(m, root)
  }

  lemma ZeroSlotsFresh(s: State, m: Mem, root: nat)
    requires Inv(s) && !s.dedicated && s.used == Used(m, root)
    ensures s.free !! ZeroSlots(m, root)
  {
    forall v | v in ZeroSlots(m, root) ensures v !in s.free { UnusedSlotIsFresh(s, v); }
  }

  /** What the first i rounds of auto-dedication have collected. */
  ghost predicate SlotsTaken(m: Mem, root: nat, i: nat, gained: set<nat>, all: bool) {
    && (forall v :: v in gained ==> v in ZeroSlots(m, root) && SlotOf(v) < i)
    && (all ==> forall v :: v in ZeroSlots(m, root) && SlotOf(v) < i ==> v in gained)
  }

  /** The pages of slot i are the range that starts at i times 2^27. */
  lemma SlotPages(i: nat, v: nat)
    requires i < PT_NUM_ENTRIES
    ensures v in PageRange(i * PagesAt(4), PagesAt(4)) <==> v < VPNS && SlotOf(v) == i
  {}

  lemma SlotRange(m: Mem, root: nat, i: nat, free: set<nat>, gained: set<nat>, all: bool)
    requires i < PT_NUM_ENTRIES && Read(m, root, i) == 0
    requires SlotsTaken(m, root, i, gained, all) && free !! ZeroSlots(m, root)
    ensures i * (PagesAt(4) * PGSIZE) % PGSIZE == 0 && i * (PagesAt(4) * PGSIZE) / PGSIZE == i * PagesAt(4)
    ensures free + gained !! PageRange(i * PagesAt(4), PagesAt(4))
    ensures SlotsTaken(m, root, i, gained, false)
    ensures forall v :: v in PageRange(i * PagesAt(4), PagesAt(4)) <==> v in ZeroSlots(m, root) && SlotOf(v) == i
  {
    forall v: nat ensures v in PageRange(i * PagesAt(4), PagesAt(4)) <==> v in ZeroSlots(m, root) && SlotOf(v) == i {
      SlotPages(i, v);
    }
  }

  /** Round i is over: a nonzero slot adds nothing, a zero one all its pages or, if refused, nothing. */
  lemma SlotsTakenStep(m: Mem, root: nat, i: nat, gained: set<nat>, all: bool)
    requires forall v :: v in gained ==> v in ZeroSlots(m, root) && SlotOf(v) <= i
    requires all ==> forall v :: v in ZeroSlots(m, root) && SlotOf(v) < i ==> v in gained
    requires all && Read(m, root, i) == 0 && i < PT_NUM_ENTRIES ==> forall v :: v in ZeroSlots(m, root) && SlotOf(v) == i ==> v in gained
    requires i < PT_NUM_ENTRIES
    ensures SlotsTaken(m, root, i + 1, gained, all)
  {
    hide SlotOf;
  }

  lemma AutoDedicateStep(s: State, m: Mem, root: nat, gained: set<nat>, all: bool)
    requires Inv(s) && !s.dedicated && s.used == Used(m, root)
    requires SlotsTaken(m, root, PT_NUM_ENTRIES, gained, all)
    ensures gained <= ZeroSlots(m, root) && (all ==> gained == ZeroSlots(m, root))
    ensures var s' := s.(free := s.free + gained, dedicated := true); Step(s, AutoDedicate(gained), s') && Inv(s')
  {
    hide Inv;
    forall v: nat | v < VPNS ensures SlotOf(v) < PT_NUM_ENTRIES { SlotIsIndex(v); }
    StepKeepsInv(s, AutoDedicate(gained), s.(free := s.free + gained, dedicated := true));
  }

  /** A block the system allocator may hand out in state s, given that it takes block c0 back first. */
  ghost predicate FreshBlock(s: State, c0: nat, c: nat, n: nat) {
    && BlockOk(s.lay, s.canon, c, n) && (c in s.blocks ==> c == c0)
    && forall d :: d in s.blocks && d != c0 ==> Machine.Apart(c, n, d, s.blocks[d])
  }

  lemma SysAllocStep(s: State, c: nat, n: nat)
    requires Inv(s) && FreshBlock(s, 0, c, n)
    ensures var s' := s.(blocks := s.blocks[c := n]);
            Step(s, SysAlloc(c, n), s') && Inv(s') && Unowned(s', c) && c != 0
  {
    hide Inv;
    Basics(s);
    if 0 in s.blocks { BlockFacts(s, 0); }
    StepKeepsInv(s, SysAlloc(c, n), s.(blocks := s.blocks[c := n]));
  }

  lemma FallbackStep(s: State, c: nat)
    requires Inv(s) && c in s.blocks && Unowned(s, c)
    ensures c !in s.live && c != 0
    ensures var s' := s.(live := s.live[c := Held(c, s.blocks[c], false)]);
            Step(s, Fallback(c), s') && Inv(s') && AliasPages(s'.live) == AliasPages(s.live)
  {
    hide Inv, AliasPages, Unowned;
    BlockFacts(s, c);
    UnownedNotHeld(s, c);
    AliasPagesPlain(s.live, c, s.blocks[c]);
    StepKeepsInv(s, Fallback(c), s.(live := s.live[c := Held(c, s.blocks[c], false)]));
  }

  /** The state after the program has given up pointer p. */
  ghost function Released(s: State, p: nat): State
    requires p in s.live
  {
    s.(live := s.live - {p}, flat := s.flat - OwnPages(s.live, p), dead := s.dead + OwnPages(s.live, p))
  }

  lemma ReleaseStep(s: State, p: nat)
    requires Inv(s) && p in s.live
    ensures Step(s, Release(p), Released(s, p)) && Inv(Released(s, p)) && Unowned(Released(s, p), s.live[p].c)
    ensures s.live[p].c in s.blocks && AliasPages(Released(s, p).live) == AliasPages(s.live) - OwnPages(s.live, p)
    ensures OwnPages(s.live, p) <= AliasPages(s.live)
  {
    hide Inv, AliasPages, SpannedPages;
    assert LiveOk(s) && s.lay.Ok() by { InvParts(s); }
    AliasPagesRelease(s, p);
    Basics(s);
    StepKeepsInv(s, Release(p), Released(s, p));
    forall q | q in s.live && q != p ensures s.live[q].c != s.live[p].c { assert Separate(s.live, p, q); }
  }

  lemma SysFreeStep(s: State, c: nat)
    requires Inv(s) && c in s.blocks && Unowned(s, c)
    ensures var s' := s.(blocks := s.blocks - {c}); Step(s, SysFree(c), s') && Inv(s')
  {
    hide Inv;
    StepKeepsInv(s, SysFree(c), s.(blocks := s.blocks - {c}));
  }

  /** An alias is not the address of a block: blocks lie on heap pages. */
  lemma AliasNotBlock(s: State, p: nat)
    requires Inv(s) && p / PGSIZE in AliasPages(s.live)
    ensures p !in s.blocks
  {
    hide Inv, SpannedPages, AliasPages;
    if p in s.blocks {
      BlockFacts(s, p);
      BytePage(p, s.blocks[p], 0);
      CanonFacts(s, p / PGSIZE);
    }
  }

  /** The pointer that free and realloc pass on when the page walk finds no physical page. */
  lemma DeadResolves(s: State, p: nat)
    requires Inv(s) && p / PGSIZE in s.dead
    ensures p !in s.live && p !in s.blocks && p < VIRTMEM_END && Resolve(s.lay, s.flat, p) == NoBacking
  {
    hide Inv, SpannedPages;
    InvParts(s);
    DeadBelowEnd(s, p);
    WalkedLow(p);
    if p in s.live { HeldPageMapped(s, p); }
    if p in s.blocks {
      BlockFacts(s, p);
      BytePage(p, s.blocks[p], 0);
      CanonFacts(s, p / PGSIZE);
    }
  }

  lemma DeadBelowEnd(s: State, p: nat)
    requires Inv(s) && p / PGSIZE in s.dead
    ensures p / PGSIZE < VPNS && p / PGSIZE !in s.flat
  {
    hide HeapOk, LiveOk, PlacesOk, SlotOf;
  }

  /** What resolving a held pointer gives: the block of an alias, and nothing new for a plain pointer. */
  lemma HeldResolves(s: State, p: nat)
    requires Inv(s) && p in s.live
    ensures Resolve(s.lay, s.flat, p) == if s.live[p].remapped then ResolvedTo(s.live[p].c) else NotRemapped
    ensures !s.live[p].remapped ==> s.live[p].c == p
    ensures p != 0 && p < VIRTMEM_END && p / PGSIZE !in s.dead && s.live[p].n > 0
  {
    hide Inv, SpannedPages, HeapOk, LiveOk, PagesApart, PlacesOk;
    HeldFacts(s, p);
    BytePage(p, s.live[p].n, 0);
    HeldPage(s, p, p / PGSIZE);
    InvParts(s);
    if s.live[p].remapped {
      ResolveHeldAlias(s, p, 0);
    } else {
      ResolveCanonical(s, p);
    }
  }

  /** The pages of a held alias form the range that free invalidates. */
  lemma AliasRange(s: State, p: nat)
    requires Inv(s) && p in s.live && s.live[p].remapped
    ensures var h := s.live[p];
            && PageRange(p / PGSIZE, NumSpannedPages(h.c, h.n)) == OwnPages(s.live, p) <= AliasPages(s.live)
            && p / PGSIZE + NumSpannedPages(h.c, h.n) <= VPNS
  {
    hide Inv, AliasPages, PageRange, HeapOk, LiveOk, PagesApart, PlacesOk, NumSpannedPages, BlockOk;
    InvParts(s);
    HeldFacts(s, p);
    HeldResolves(s, p);
    var h := s.live[p];
    SpanDependsOnOffset(p, h.c, h.n);
    AliasPagesRelease(s, p);
    AliasMapped(s);
    SpannedPagesBounds(h.c, h.n);
    RangeEnd(p / PGSIZE, NumSpannedPages(h.c, h.n));
  }

  lemma ReleasedPlain(s: State, p: nat)
    requires p in s.live && !s.live[p].remapped
    ensures Released(s, p) == s.(live := s.live - {p}) && AliasPages(s.live) - OwnPages(s.live, p) == AliasPages(s.live)
  {
    hide AliasPages;
    assert s.flat - OwnPages(s.live, p) == s.flat && s.dead + OwnPages(s.live, p) == s.dead;
  }

  lemma RangeEnd(x: nat, n: nat)
    ensures n > 0 && (forall v :: v in PageRange(x, n) ==> v < VPNS) ==> x + n <= VPNS
  {
    if n > 0 { assert x + n - 1 in PageRange(x, n); }
  }

  lemma MarkedKill(m: Mem, m': Mem, root: nat, aliases: set<nat>, dead: set<nat>, gone: set<nat>)
    requires Marked(m, root, aliases, dead) && LeavesKept(m, m', root, gone) && gone <= aliases
    requires forall v: nat :: v in gone ==> Leaf(m', root, v) == Some(PTE_INVALIDATED)
    ensures Marked(m', root, aliases - gone, dead + gone)
  {
    hide Leaf;
    forall v: nat | v in aliases - gone ensures v < VPNS && Leaf(m', root, v).Some? {
      assert Leaf(m, root, v).Some?;
    }
    forall v: nat | v in dead + gone ensures v < VPNS && Leaf(m', root, v) == Some(PTE_INVALIDATED) {
      assert v !in gone ==> Leaf(m, root, v) == Some(PTE_INVALIDATED);
    }
  }

  /** The product of two numbers, as a name for contracts. */
  function Times(a: nat, b: nat): (r: nat)
    ensures r == a * b && (r == 0 <==> a == 0 || b == 0)
  {
    ZeroFactor(a, b);
    a * b
  }

  /** The product that calloc computes modulo 2^64 is the true one if there is a block for it. */
  lemma ProductFits(s: State, num: nat, size: nat, c: nat, n: nat)
    requires s.lay.Ok() && FreshBlock(s, 0, c, n) && num * size <= n
    ensures num * size % 0x1_0000_0000_0000_0000 == num * size
  {
    Below64(s, c, n, num * size);
  }

  lemma Below64(s: State, c: nat, n: nat, x: nat)
    requires s.lay.Ok() && FreshBlock(s, 0, c, n) && x <= n
    ensures x % 0x1_0000_0000_0000_0000 == x
  {}

  lemma ZeroFactor(num: nat, size: nat)
    ensures num * size == 0 <==> num == 0 || size == 0
  {}

  lemma EarlierThen(u: Run, r: Run, r': Run)
    requires Earlier(u, r) && (r' == r || (r'.Then? && r'.past == r))
    ensures Earlier(u, r')
  {}

  /** The states realloc passes through when a block moves: the old pointer and block go, the new block comes. */
  lemma MoveSteps(s: State, p: nat, c: nat, n: nat)
    requires Inv(s) && p in s.live && s.live[p].c != 0 && FreshBlock(s, s.live[p].c, c, n)
    ensures var a := Released(s, p);
            var b := a.(blocks := a.blocks - {s.live[p].c});
            var d := b.(blocks := b.blocks[c := n]);
            && Step(s, Release(p), a) && Step(a, SysFree(s.live[p].c), b) && Step(b, SysAlloc(c, n), d)
            && Inv(d) && Unowned(d, c) && c != 0
            && AliasPages(d.live) == AliasPages(s.live) - OwnPages(s.live, p)
  {
    hide Inv, Step, AliasPages, BlockOk, Unowned;
    ReleaseStep(s, p);
    var a := Released(s, p);
    SysFreeStep(a, s.live[p].c);
    SysAllocStep(a.(blocks := a.blocks - {s.live[p].c}), c, n);
  }

  /** An in-place change of size that needs no further page: the alias keeps the pages still spanned. */
  lemma ResizeStep(s: State, p: nat, n: nat)
    requires Inv(s) && p in s.live && s.live[p].remapped && n > 0
    requires var h := s.live[p]; FreshBlock(s, h.c, h.c, n) && NumSpannedPages(h.c, n) <= NumSpannedPages(h.c, h.n)
    ensures var h := s.live[p];
            var gone := PageRange(RoundUp(p + n) / PGSIZE, NumSpannedPages(h.c, h.n) - NumSpannedPages(h.c, n));
            var s' := s.(blocks := (s.blocks - {h.c})[h.c := n], live := s.live[p := Held(h.c, n, true)],
                         flat := s.flat - gone, dead := s.dead + gone);
            && gone == SpannedPages(p, h.n) - SpannedPages(p, n)
            && Step(s, SysResize(p, n), s') && Inv(s') && AliasPages(s'.live) == AliasPages(s.live) - gone
            && gone <= AliasPages(s.live) && RoundUp(p + n) / PGSIZE + (NumSpannedPages(h.c, h.n) - NumSpannedPages(h.c, n)) <= VPNS
  {
    hide Inv, AliasPages, BlockOk, NumSpannedPages, PageRange;
    var h := s.live[p];
    HeldFacts(s, p);
    InvParts(s);
    GoneExact(p, h.c, h.n, n);
    SpanDependsOnOffset(p, h.c, h.n);
    SpanDependsOnOffset(p, h.c, n);
    var gone := SpannedPages(p, h.n) - SpannedPages(p, n);
    var s' := s.(blocks := s.blocks[h.c := n], live := s.live[p := Held(h.c, n, true)], flat := s.flat - gone, dead := s.dead + gone);
    assert (s.blocks - {h.c})[h.c := n] == s.blocks[h.c := n];
    AliasPagesResize(s, p, n);
    AliasPagesRelease(s, p);
    AliasRange(s, p);
    ResizeEnd(p, h.c, h.n, n);
    StepKeepsInv(s, SysResize(p, n), s');
  }

  lemma GoneExact(p: nat, c: nat, oldSize: nat, newSize: nat)
    requires p % PGSIZE == c % PGSIZE && newSize > 0 && NumSpannedPages(c, newSize) <= NumSpannedPages(c, oldSize)
    ensures PageRange(RoundUp(p + newSize) / PGSIZE, NumSpannedPages(c, oldSize) - NumSpannedPages(c, newSize))
         == SpannedPages(p, oldSize) - SpannedPages(p, newSize)
  {
    if NumSpannedPages(c, newSize) < NumSpannedPages(c, oldSize) {
      ShrinkIsExact(p, c, oldSize, newSize);
    } else {
      SpanDependsOnOffset(p, c, oldSize);
      SpanDependsOnOffset(p, c, newSize);
    }
  }

  lemma ResizeEnd(p: nat, c: nat, oldSize: nat, newSize: nat)
    requires p % PGSIZE == c % PGSIZE && NumSpannedPages(c, newSize) <= NumSpannedPages(c, oldSize)
    ensures RoundUp(p + newSize) / PGSIZE + (NumSpannedPages(c, oldSize) - NumSpannedPages(c, newSize))
         == p / PGSIZE + NumSpannedPages(c, oldSize)
  {
    SpanDependsOnOffset(p, c, newSize);
    SpannedPagesBounds(p, newSize);
  }

  /** NULL is neither held nor a block. */
  lemma NullIsNothing(s: State)
    requires Inv(s)
    ensures 0 !in s.live && 0 !in s.blocks
  {
    hide Inv;
    if 0 in s.live { HeldResolves(s, 0); }
    if 0 in s.blocks { BlockFacts(s, 0); }
  }

  /** A pointer realloc and free may be given that is not a block: NULL, a dead one, an alias. */
  ghost predicate Foreign(s: State, p: nat) {
    p == 0 || p / PGSIZE in s.dead || (p in s.live && s.live[p].remapped)
  }

  lemma ForeignIsNoBlock(s: State, p: nat)
    requires Inv(s) && Foreign(s, p)
    ensures p !in s.blocks && 0 !in s.live && 0 !in s.blocks
  {
    hide Inv, AliasPages;
    NullIsNothing(s);
    if p in s.live && s.live[p].remapped {
      HeldResolves(s, p);
      BytePage(p, s.live[p].n, 0);
      assert InAlias(s.live, p, p / PGSIZE);
      AliasNotBlock(s, p);
    } else if p != 0 {
      DeadResolves(s, p);
    }
  }

  /** The pointers realloc may be given, and what the walk and the system allocator make of them. */
  lemma PointerKind(s: State, p: nat)
    requires Inv(s) && (p == 0 || p in s.live || p / PGSIZE in s.dead)
    ensures 0 !in s.live && 0 !in s.blocks
    ensures p in s.blocks <==> p in s.live && !s.live[p].remapped
    ensures p in s.live ==> p / PGSIZE !in s.dead && s.live[p].c != 0
    ensures p in s.live && !s.live[p].remapped ==> s.live[p].c == p
    ensures p !in s.live ==> Foreign(s, p)
    ensures p in s.live && s.live[p].remapped ==> Foreign(s, p)
    ensures p in s.live ==>
      Resolve(s.lay, s.flat, p) == if s.live[p].remapped then ResolvedTo(s.live[p].c) else NotRemapped
    ensures p / PGSIZE in s.dead ==> Resolve(s.lay, s.flat, p) == NoBacking
  {
    hide Inv, Resolve, AliasPages;
    NullIsNothing(s);
    Basics(s);
    if p in s.live { HeldResolves(s, p); }
    if Foreign(s, p) { ForeignIsNoBlock(s, p); }
    if p / PGSIZE in s.dead { DeadResolves(s, p); }
  }

  /** Block c, shown at q, has taken the place of held pointer p and its block, if p is held. */
  ghost predicate MovedTo(a: State, b: State, p: nat, c: nat, n: nat, q: nat) {
    && c != 0 && q != 0 && q !in a.live - {p}
    && q in b.live && b.live == (a.live - {p})[q := Held(c, n, b.live[q].remapped)] && (!b.live[q].remapped ==> q == c)
    && b.blocks == (if p in a.live then a.blocks - {a.live[p].c} else a.blocks)[c := n]
    && b.dead == (if p in a.live then a.dead + OwnPages(a.live, p) else a.dead)
  }

  /** The new pointer is not a held one that stays. */
  lemma MovedElsewhere(a: State, b: State, p0: nat, c: nat, n: nat, q: nat, p: nat)
    requires MovedTo(a, b, p0, c, n, q) && p in a.live && p != p0
    ensures q != p
  {}

  /** A block of the system allocator, or nothing, has given way to a new block. */
  lemma PlainMoved(a: State, b: State, p: nat, c: nat, n: nat, q: nat)
    requires 0 !in a.live && 0 !in a.blocks && (p in a.blocks ==> p in a.live && !a.live[p].remapped && a.live[p].c == p)
    requires c != 0 && q != 0 && b.dead == a.dead && b.blocks == (a.blocks - {p})[c := n]
    requires var rest := if p in a.blocks then a.live - {p} else a.live;
             q !in rest && q in b.live && b.live == rest[q := Held(c, n, b.live[q].remapped)]
    requires !b.live[q].remapped ==> q == c
    ensures MovedTo(a, b, if p in a.blocks then p else 0, c, n, q)
  {
    assert a.live - {0} == a.live;
    assert p !in a.blocks ==> a.blocks - {p} == a.blocks;
  }

  lemma FreshAfter(s: State, s': State, c0: nat, c: nat, n: nat)
    requires FreshBlock(s, c0, c, n) && s'.lay == s.lay && s'.canon == s.canon && s'.blocks == s.blocks - {c0}
    ensures FreshBlock(s', 0, c, n)
  {
    hide BlockOk;
  }

  lemma OwnFirst(s: State, p: nat)
    requires Inv(s) && p in s.live && s.live[p].remapped
    ensures p / PGSIZE in OwnPages(s.live, p)
  {
    hide Inv;
    HeldResolves(s, p);
    BytePage(p, s.live[p].n, 0);
  }

  /** The pages that an in-place resize gives up are alias pages. */
  lemma ResizeRange(s: State, p: nat, n: nat)
    requires Inv(s) && p in s.live && s.live[p].remapped && n > 0
    requires var h := s.live[p]; FreshBlock(s, h.c, h.c, n) && NumSpannedPages(h.c, n) <= NumSpannedPages(h.c, h.n)
    ensures var k := NumSpannedPages(s.live[p].c, s.live[p].n) - NumSpannedPages(s.live[p].c, n);
            && PageRange(RoundUp(p + n) / PGSIZE, k) <= AliasPages(s.live) && RoundUp(p + n) / PGSIZE + k <= VPNS
  {
    hide Inv, Step, AliasPages, NumSpannedPages, PageRange, SpannedPages, FreshBlock, RoundUp;
    ResizeStep(s, p, n);
  }

  /** A resize that keeps the number of pages ends no page's life. */
  lemma NothingGone(s: State, p: nat, c: nat, n: nat)
    requires p in s.live && NumSpannedPages(c, n) == NumSpannedPages(c, s.live[p].n)
    ensures PageRange(RoundUp(p + n) / PGSIZE, NumSpannedPages(c, s.live[p].n) - NumSpannedPages(c, n)) == {}
    ensures AliasPages(s.live) - {} == AliasPages(s.live) && s.dead + {} == s.dead && s.flat - {} == s.flat
  {
    hide AliasPages;
  }

  lemma PtSound(pt: PageTables)
    requires pt.Valid()
    ensures pt.Sound()
  {}

  lemma SpannedIsRange(p: nat, n: nat)
    ensures SpannedPages(p, n) == PageRange(p / PGSIZE, NumSpannedPages(p, n))
  {}
}

/** A small program: an address space with one heap page and one stack page, and an allocation in it. */
module FirstUse {
  import opened Words
  import opened PageMath
  import opened Spans
  import opened PageTree
  import opened PageTable
  import opened SeenPages
  import opened DuneMem
  import opened Machine
  import opened Runs
  import opened Steps
  import opened Dangless

  const STACK := 0x7000_0000_0000
  const LAYOUT := Layout(PHYS_LIMIT, STACK)

  /** The start-up condition of the allocator, for one heap page and one stack page. */
  lemma StartInv(flat: map<nat, Mapping>, used: set<nat>, flags: nat)
    requires flat == map[1 := Mapping(1, flags), STACK / PGSIZE := Mapping(STACK_PA_BASE / PGSIZE, flags)]
    requires forall v :: v in flat ==> SlotOf(v) in used
    ensures Inv(State(LAYOUT, {1}, {}, flat, used, false, map[], map[], {}))
  {
    var s := State(LAYOUT, {1}, {}, flat, used, false, map[], map[], {});
    assert AliasPages(s.live) == {};
    assert CanonPage(s, 1) && DunePage(LAYOUT, 1, flat[1]);
    assert DunePage(LAYOUT, STACK / PGSIZE, flat[STACK / PGSIZE]);
    assert SlotOf(1) == 0 && SlotOf(STACK / PGSIZE) == 224;
    assert forall v: nat :: LAYOUT.InStack(v * PGSIZE) ==> SlotOf(v) == 224;
  }

  /** The first page behind the stack. */
  const BEHIND_STACK := STACK + GPA_STACK_SIZE

  /** `pt_map_page` for one page of the start, as Dune would map it. */
  method MapStart(pt: PageTables, pa: nat, va: nat) returns (ok: bool)
    requires pt.Valid() && ZeroLow(pt.mem, pt.root) && pa % PGSIZE == 0 && va % PGSIZE == 0 && va < VIRTMEM_END && 0 < pa / PGSIZE < FRAMES
    requires va / PGSIZE !in pt.FlatMap()
    modifies pt
    ensures pt.Valid() && ZeroLow(pt.mem, pt.root) && pt.RefusedIf(!ok, 3)
    ensures ok ==> pt.SeenMap() == old(pt.SeenMap())[va / PGSIZE := Mapping(pa / PGSIZE, MapFlags(REMAP_FLAGS))]
    ensures ok ==> pt.FlatMap() == old(pt.FlatMap())[va / PGSIZE := Mapping(pa / PGSIZE, MapFlags(REMAP_FLAGS))]
  {
    hide PageTables.Valid, PageTables.Sound, Flat, Seen, ZeroLow, LeavesKept, Leaf, Used, MapFlags;
    RemapFlagsOk();
    ghost var m, v := pt.mem, va / PGSIZE;
    var r := pt.PtMapPage(pa, va, REMAP_FLAGS);
    ok := r == 0;
    if ok {
      SeenAfterOne(m, pt.mem, pt.root, v, Mapping(pa / PGSIZE, MapFlags(REMAP_FLAGS)));
    } else {
      SeenSame(m, pt.mem, pt.root, {v});
    }
  }

  /** What the allocator needs of the page tables it starts on, and room for the pages behind the stack. */
  ghost predicate Ready(flat: map<nat, Mapping>, used: set<nat>) {
    && Inv(State(LAYOUT, {1}, {}, flat, used, false, map[], map[], {}))
    && flat.Keys == {1, STACK / PGSIZE} && SlotOf(STACK / PGSIZE) in used
  }

  lemma ReadyInv(flat: map<nat, Mapping>, used: set<nat>)
    requires Ready(flat, used)
    ensures Inv(State(LAYOUT, {1}, {}, flat, used, false, map[], map[], {}))
  {}

  /** The page tables of the start: always, if the host gives what it has. */
  method StartTables(mayRefuse: bool) returns (ok: bool, pt: PageTables)
    ensures fresh(pt) && pt.Valid() && pt.mayRefuse == mayRefuse && (!mayRefuse ==> ok)
    ensures ok ==> Ready(pt.SeenMap(), Used(pt.mem, pt.root)) && ZeroLow(pt.mem, pt.root) && |pt.avail| >= 3
  {
    hide PageTables.Valid, Flat, Seen, ZeroLow, Used, MapFlags, Inv, Ready;
    ghost var flags := MapFlags(REMAP_FLAGS);
    assert PGSIZE / PGSIZE == 1 && STACK % PGSIZE == 0 && STACK_PA_BASE % PGSIZE == 0;
    var frames := {0x101, 0x102, 0x103, 0x104, 0x105, 0x106, 0x107, 0x108, 0x109};
    assert |frames| == 9;
    pt := new PageTables(0x100, frames, mayRefuse);
    NothingSeen(pt.mem, pt.root);
    ok := MapStart(pt, PGSIZE, PGSIZE);
    if !ok {
      return;
    }
    ok := MapStart(pt, STACK_PA_BASE, STACK);
    if !ok {
      return;
    }
    StartReady(pt.mem, pt.root, flags);
  }

  lemma StartReady(m: Mem, root: nat, flags: nat)
    requires Seen(m, root) == map[1 := Mapping(1, flags)][STACK / PGSIZE := Mapping(STACK_PA_BASE / PGSIZE, flags)]
    ensures Ready(Seen(m, root), Used(m, root))
  {
    hide Seen, Used, Inv, SlotOf;
    SeenSlots(m, root);
    StartInv(Seen(m, root), Used(m, root), flags);
  }

  /** The page behind the stack shares the stack's PML4 slot, and nothing is mapped there. */
  lemma BehindStackFree(s: State)
    requires s.lay == LAYOUT && s.free == {} && s.dead == {} && Ready(s.flat, s.used)
    ensures PageRange(BEHIND_STACK / PGSIZE, 1) == {BEHIND_STACK / PGSIZE}
    ensures Dedicable(s, PageRange(BEHIND_STACK / PGSIZE, 1))
  {
    hide Inv;
    assert SlotOf(BEHIND_STACK / PGSIZE) == SlotOf(STACK / PGSIZE);
    assert PageRange(BEHIND_STACK / PGSIZE, 1) == {BEHIND_STACK / PGSIZE};
  }

  /** The heap page holds blocks of any size up to what is left of it. */
  lemma FirstBlock(s: State)
    requires Inv(s) && s.lay == LAYOUT && s.canon == {1} && s.blocks == map[]
    ensures FreshBlock(s, 0, PGSIZE, 16) && NumSpannedPages(PGSIZE, 16) == 1
  {
    OnePage(PGSIZE);
    hide Inv;
  }

  /** The allocator of the start, in kernel mode, with nothing handed out and nothing dedicated. */
  method StartHeap(mayRefuse: bool) returns (heap: DanglessMalloc?)
    ensures !mayRefuse ==> heap != null
    ensures heap != null ==>
      && fresh(heap.Repr()) && heap.Valid() && heap.lay == LAYOUT && heap.canon == {1} && heap.pt.mayRefuse == heap.vp.mayRefuse == mayRefuse
      && heap.blocks == map[] && heap.live == map[] && heap.dead == {} && heap.Enterable() && !heap.autoDedicateHappened
      && heap.vp.FreePages() == {} && |heap.pt.avail| >= 3 && Ready(heap.pt.SeenMap(), Used(heap.pt.mem, heap.pt.root))
  {
    hide Inv, Legal, Marked, PageTables.Valid, Flat, Seen, ZeroLow, Used, AliasPages, Ready, DanglessMalloc.Valid, DanglessMalloc.Sound;
    var ok, pt := StartTables(mayRefuse);
    if !ok {
      return null;
    }
    ReadyInv(pt.SeenMap(), Used(pt.mem, pt.root));
    heap := new DanglessMalloc(LAYOUT, {1}, pt, mayRefuse);
    heap.EnterKernelMode();
  }

  /** The page behind the stack is dedicated: there is a run of free pages for a small block. */
  method DedicateOne(heap: DanglessMalloc) returns (ok: bool)
    requires heap.Valid() && heap.lay == LAYOUT && heap.canon == {1} && heap.vp.FreePages() == {} && heap.dead == {}
    requires heap.blocks == map[] && heap.live == map[] && heap.Enterable() && !heap.autoDedicateHappened
    requires Ready(heap.pt.SeenMap(), Used(heap.pt.mem, heap.pt.root))
    modifies heap.Repr()
    ensures heap.Valid() && fresh(heap.Repr() - old(heap.Repr())) && heap.blocks == map[] && heap.live == map[]
    ensures heap.Enterable() && !heap.autoDedicateHappened && heap.pt.avail == old(heap.pt.avail)
    ensures !ok ==> heap.vp.mayRefuse
    ensures ok ==> !heap.NoRunOf(1)
  {
    hide Inv, Legal, Marked, PageTables.Valid, Flat, Seen, ZeroLow, Used, AliasPages, DanglessMalloc.Valid, DanglessMalloc.Sound, Step, PageRange,
      Dedicable, Ready;
    BehindStackFree(heap.View());
    assert BEHIND_STACK % PGSIZE == 0;
    var r := heap.DedicateVmem(BEHIND_STACK, BEHIND_STACK + PGSIZE);
    ok := r == 0;
    assert ok ==> RunAt(heap.vp.FreePages(), BEHIND_STACK / PGSIZE, 1);
  }

  /** A heap with a free page. */
  method DedicatedHeap(mayRefuse: bool) returns (heap: DanglessMalloc?)
    ensures !mayRefuse ==> heap != null
    ensures heap != null ==>
      && fresh(heap.Repr()) && heap.Valid() && heap.lay == LAYOUT && heap.canon == {1} && heap.blocks == map[] && heap.live == map[]
      && heap.Enterable() && !heap.autoDedicateHappened && !heap.NoRunOf(1) && |heap.pt.avail| >= 3 && heap.pt.mayRefuse == mayRefuse
  {
    hide Inv, DanglessMalloc.Valid, DanglessMalloc.Sound, Ready, DanglessMalloc.NoRunOf;
    heap := StartHeap(mayRefuse);
    if heap == null {
      return;
    }
    var ok := DedicateOne(heap);
    if !ok {
      return null;
    }
  }

  /**
   malloc and free from nothing. If no allocation is refused, the block is shown through an alias, and
   the alias is dead after the call of free; if one is, the block may be shown directly.
   */
  method AllocateAndFree(mayRefuse: bool) returns (heap: DanglessMalloc?, q: nat, ghost alias: bool)
    ensures !mayRefuse ==> heap != null && alias
    ensures heap != null ==> heap.Valid() && q != 0 && heap.live == map[] && heap.blocks == map[]
    ensures heap != null ==> if alias then q / PGSIZE in heap.dead else q == PGSIZE
  {
    hide Inv, Legal, Marked, PageTables.Valid, Flat, Seen, ZeroLow, Used, AliasPages, FreshBlock, NumSpannedPages, SpannedPages,
      DanglessMalloc.Valid, DanglessMalloc.Sound, Step, Earlier, RunAt, Ready;
    heap := DedicatedHeap(mayRefuse);
    if heap == null {
      return null, 0, false;
    }
    heap.ValidInv();
    FirstBlock(heap.View());
    q := heap.Malloc(16, PGSIZE, 16);
    heap.ValidInv();
    ghost var s := heap.View();
    alias := heap.IsAlias(q);
    if alias { OwnFirst(s, q); }
    var _ := heap.Free(q);
  }
}

/**
 malloc, calloc, realloc and free over the virtual page allocator and the page table. The answers of
 the system allocator are arguments; everything Dangless itself does with them is here.
 */
module Dangless {
  import opened Options
  import opened Words
  import opened PageMath
  import opened Spans
  import opened PageTree
  import opened PageTable
  import opened SeenPages
  import opened PageEntries
  import opened VirtmemAlloc
  import opened DuneMem
  import opened Machine
  import opened Runs
  import opened Steps

  const VREM_OK: int := 0
  const VREM_NOT_REMAPPED: int := 1
  const EVREM_NO_VM: int := -1
  const EVREM_VIRT_MAP: int := -2
  const EVREM_NO_PHYS_BACK: int := -3

  class DanglessMalloc {
    const lay: Layout
    ghost const canon: set<nat>
    const vp: VpFreelist
    const pt: PageTables
    var autoDedicateHappened: bool
    /** The system allocator's blocks and their usable sizes. */
    var blocks: map<nat, nat>
    /** Whether the process runs in kernel mode, and whether a hook is running. */
    var kernelMode: bool
    var hookDepth: nat
    var vremapLastResult: int
    /** The PML4 slots in use at the start. */
    ghost const startUsed: set<nat>
    ghost var live: map<nat, Held>
    ghost var dead: set<nat>
    ghost var run: Run

    ghost function View(): State
      reads this, vp, pt
    {
      State(lay, canon, vp.FreePages(), pt.SeenMap(), Used(pt.mem, pt.root), autoDedicateHappened, blocks, live, dead)
    }

    ghost function Repr(): set<object>
      reads this, vp, vp.items
    {
      {this, pt} + vp.Repr()
    }

    /** Entries at frame 0 are low, and aliases in slots that were zero at the start are writable. */
    ghost predicate TableSound()
      reads this, pt
    {
      ZeroLow(pt.mem, pt.root) && DataEntries(pt.mem, pt.root, startUsed)
    }

    ghost predicate Sound()
      reads this, pt, vp, vp.items, vp.items.nodes
    {
      && vp.Valid() && pt.Valid() && pt !in vp.Repr() && this !in vp.Repr()
      && lay.Ok() && TableSound()
      && (!kernelMode ==> forall p :: p in live ==> !live[p].remapped)
    }

    /** The object stands for the last state of a legal run. */
    ghost predicate Valid()
      reads this, pt, vp, vp.items, vp.items.nodes
    {
      && Sound() && Legal(run) && run.s == View() && Inv(View())
      && Marked(pt.mem, pt.root, AliasPages(live), dead)
    }

    /** What no operation on pages alone changes. */
    twostate predicate HeapSame()
      reads this
    {
      && blocks == old(blocks) && dead == old(dead) && kernelMode == old(kernelMode) && hookDepth == old(hookDepth)
      && autoDedicateHappened == old(autoDedicateHappened)
    }

    /**
     Start-up: no block handed out, no memory dedicated, and a page table in which the heap's pages
     are mapped as Dune maps them and PML4 slot 0 and the stack's slots are in use.
     */
    constructor (lay: Layout, ghost canon: set<nat>, pt: PageTables, mayRefuse: bool)
      requires pt.Valid()
      requires Inv(State(lay, canon, {}, pt.SeenMap(), Used(pt.mem, pt.root), false, map[], map[], {})) && ZeroLow(pt.mem, pt.root)
      ensures Valid() && this.lay == lay && this.canon == canon && this.pt == pt && startUsed == Used(pt.mem, pt.root) && vp.mayRefuse == mayRefuse && fresh(Repr() - {pt})
      ensures run == Begin(View()) && !kernelMode && hookDepth == 0 && vp.FreePages() == {} && blocks == map[] && live == map[] && dead == {} && !autoDedicateHappened
    {
      hide Inv, Marked, AliasPages, PageTables.Valid, Seen, Flat, Used, ZeroLow, VpFreelist.Valid;
      this.lay, this.canon, this.pt := lay, canon, pt;
      vp := new VpFreelist(mayRefuse);
      autoDedicateHappened, blocks, kernelMode, hookDepth, vremapLastResult := false, map[], false, 0, 0;
      live, dead := map[], {};
      startUsed := Used(pt.mem, pt.root);
      new;
      NothingMarked(pt.mem, pt.root);
      StartEntries(pt.mem, pt.root);
      StartParts(State(lay, canon, {}, pt.SeenMap(), Used(pt.mem, pt.root), false, map[], map[], {}));
      run := Begin(View());
    }

    /** The process enters kernel mode: from now on hooks do their work. */
    method EnterKernelMode()
      requires Valid()
      modifies this`kernelMode
      ensures Valid() && kernelMode
    {
      kernelMode := true;
    }

    /** The last step loses pages only if the page allocator could not take them back. */
    twostate predicate LostOnlyIfRefused()
      reads this, vp
    {
      run.Then? && run.e.Lose? && (vp.refusals == old(vp.refusals) ==> run.e.pages == {})
    }

    /** `vremap_map`: alias `size` bytes at canonical `ptr`, or say why not. */
    method VremapMap(ptr: nat, size: nat) returns (result: int, remapped: nat)
      requires Valid() && kernelMode
      requires ptr in blocks && blocks[ptr] == size && Unowned(View(), ptr)
      modifies Repr()
      ensures Valid() && fresh(Repr() - old(Repr())) && HeapSame() && result == vremapLastResult
      ensures result == VREM_OK || result == EVREM_NO_VM || result == EVREM_VIRT_MAP
      ensures result == VREM_OK ==>
        run == Then(old(run), Remap(remapped, ptr, size, MapFlags(REMAP_FLAGS), Used(pt.mem, pt.root)), View())
      ensures result == VREM_OK ==> remapped !in old(live) && remapped != 0 && live == old(live)[remapped := Held(ptr, size, true)]
      ensures result != VREM_OK ==> live == old(live)
      ensures result == EVREM_NO_VM ==> View() == old(View())
      ensures result == EVREM_NO_VM ==> run == old(run) && forall q: nat :: !RunAt(vp.FreePages(), q, NumSpannedPages(ptr, size))
      ensures result == EVREM_VIRT_MAP ==> run.Then? && run.past == old(run) && LostOnlyIfRefused()
      ensures pt.RefusedIf(result == EVREM_VIRT_MAP, 3 * NumSpannedPages(ptr, size))
      ensures result == EVREM_NO_VM ==> pt.avail == old(pt.avail)
    {
      hide Inv, Legal, Step, Marked, PageTables.Valid, VpFreelist.Valid, NumSpannedPages, VaToPa, Allocated, Flat, Seen, ZeroLow, DataEntries, Lookup, Walk, Leaf, Used,
        PageRange, AliasPages, Unowned, RunAt;
      var npages := NumSpannedPages(ptr, size);
      BlockFrames(View(), ptr);
      ghost var s0 := View();
      var va := vp.Alloc(npages);
      AllocatedPages(s0, vp.FreePages(), npages, va);
      if va == 0 {
        vremapLastResult := EVREM_NO_VM;
        return EVREM_NO_VM, 0;
      }
      result, remapped := MapAlias(ptr, size, va, npages, s0);
    }

    /** The second half of `vremap_map`: mapping the pages that were allocated. */
    method MapAlias(ptr: nat, size: nat, va: nat, npages: nat, ghost s0: State) returns (result: int, remapped: nat)
      requires Sound() && Inv(s0) && Legal(run) && run.s == s0 && kernelMode
      requires ptr in blocks && blocks[ptr] == size && Unowned(s0, ptr) && npages == NumSpannedPages(ptr, size)
      requires va % PGSIZE == 0 && va + npages * PGSIZE <= VIRTMEM_END && PageRange(va / PGSIZE, npages) <= s0.free
      requires s0.flat.Keys !! PageRange(va / PGSIZE, npages)
      requires View() == s0.(free := s0.free - PageRange(va / PGSIZE, npages))
      requires Marked(pt.mem, pt.root, AliasPages(live), dead)
      modifies Repr()
      ensures Valid() && fresh(Repr() - old(Repr())) && HeapSame() && result == vremapLastResult
      ensures result == VREM_OK || result == EVREM_VIRT_MAP
      ensures result == VREM_OK ==>
        run == Then(old(run), Remap(remapped, ptr, size, MapFlags(REMAP_FLAGS), Used(pt.mem, pt.root)), View())
      ensures result == VREM_OK ==> remapped !in old(live) && remapped != 0 && live == old(live)[remapped := Held(ptr, size, true)]
      ensures result != VREM_OK ==> live == old(live)
      ensures result == EVREM_VIRT_MAP ==> run.Then? && run.past == old(run) && LostOnlyIfRefused()
      ensures pt.RefusedIf(result == EVREM_VIRT_MAP, 3 * NumSpannedPages(ptr, size))
    {
      hide Inv, Legal, Step, Marked, PageTables.Valid, VpFreelist.Valid, NumSpannedPages, VaToPa, Flat, Seen, ZeroLow, DataEntries, Lookup, Walk, Leaf, Used,
        PageRange, AliasPages, Unowned, SpannedPages, Ramp, LeavesKept, HaveLeaves, OkFlags;
      var inpageOffset := ptr % PGSIZE;
      BlockFrames(s0, ptr);
      AliasAddress(va, ptr, size);
      ghost var m0 := pt.mem;
      result := MapPages(ptr, va, npages, s0);
      if result < 0 {
        GiveBack(va, npages, s0, m0);
        vremapLastResult := EVREM_VIRT_MAP;
        return EVREM_VIRT_MAP, 0;
      }
      remapped := va + inpageOffset;
      RecordRemap(remapped, ptr, size, s0, m0);
      vremapLastResult := VREM_OK;
    }

    /** The call of `pt_map_region` in `vremap_map`: the pages show the physical pages of the block. */
    method MapPages(ptr: nat, va: nat, npages: nat, ghost s0: State) returns (result: int)
      requires Sound() && Inv(s0) && ptr in blocks && s0.blocks == blocks && s0.lay == lay
      requires npages == NumSpannedPages(ptr, blocks[ptr])
      requires va % PGSIZE == 0 && va + npages * PGSIZE <= VIRTMEM_END
      requires PageRange(va / PGSIZE, npages) <= s0.free && pt.SeenMap() == s0.flat
      modifies pt
      ensures pt.Valid() && (result == 0 || result == -1)
      ensures pt.RefusedIf(result == -1, 3 * npages)
      ensures result == 0 ==> pt.SeenMap() == old(pt.SeenMap()) + Ramp(va / PGSIZE, VaToPa(lay, ptr) / PGSIZE, npages, MapFlags(REMAP_FLAGS))
      ensures result == 0 ==> HaveLeaves(pt.mem, pt.root, va / PGSIZE, npages)
      ensures result == -1 ==> pt.SeenMap() == old(pt.SeenMap())
      ensures TableSound() && LeavesKept(old(pt.mem), pt.mem, pt.root, PageRange(va / PGSIZE, npages))
      ensures old(Used(pt.mem, pt.root)) <= Used(pt.mem, pt.root)
    {
      hide Inv, PageTables.Valid, VpFreelist.Valid, NumSpannedPages, VaToPa, Flat, Seen, ZeroLow, DataEntries, EntriesKept, Lookup, Walk, Leaf, Used,
        PageRange, AliasPages, SpannedPages, Ramp, LeavesKept, HaveLeaves, OkFlags, Seen, ZeroLow;
      var pa := VaToPa(lay, ptr);
      var paPage := RoundDown(pa);
      BlockFrames(s0, ptr);
      RemapFlagsOk();
      var size := npages * PGSIZE;
      assert size / PGSIZE == npages && size % PGSIZE == 0;
      assert paPage > 0 by { assert paPage / PGSIZE == pa / PGSIZE; }
      ghost var m0, pages := pt.mem, PageRange(va / PGSIZE, npages);
      FreeUnmapped(s0, m0, pt.root, pages);
      result := pt.PtMapRegion(paPage, va, size, REMAP_FLAGS);
      DataEntriesKept(m0, pt.mem, pt.root, startUsed, pages, Some(REMAP_FLAGS));
      if result == 0 {
        SeenAfterMap(m0, pt.mem, pt.root, va / PGSIZE, pa / PGSIZE, npages, MapFlags(REMAP_FLAGS));
      } else {
        SeenSame(m0, pt.mem, pt.root, pages);
      }
    }

    /** After a failed mapping: the pages go back to the allocator, if it can take them. */
    method GiveBack(va: nat, npages: nat, ghost s0: State, ghost m0: Mem)
      requires Sound() && Inv(s0) && Legal(run) && run.s == s0 && npages > 0 && va % PGSIZE == 0
      requires PageRange(va / PGSIZE, npages) <= s0.free
      requires View() == s0.(free := s0.free - PageRange(va / PGSIZE, npages), used := Used(pt.mem, pt.root))
      requires s0.used <= Used(pt.mem, pt.root)
      requires Marked(m0, pt.root, AliasPages(live), dead) && LeavesKept(m0, pt.mem, pt.root, PageRange(va / PGSIZE, npages))
      modifies vp.Repr(), this`run
      ensures Valid() && fresh(Repr() - old(Repr())) && HeapSame() && live == old(live)
      ensures run.Then? && run.past == old(run) && LostOnlyIfRefused()
    {
      hide Inv, Step, Marked, PageTables.Valid, VpFreelist.Valid, Flat, Seen, ZeroLow, DataEntries, Lookup, Walk, Leaf, Used, AliasPages, PageRange;
      ghost var pages, used := PageRange(va / PGSIZE, npages), Used(pt.mem, pt.root);
      FreeIsNeither(s0, pages);
      MarkedKept(m0, pt.mem, pt.root, AliasPages(live), dead, pages);
      var r := vp.Free(va, npages);
      ghost var lost := if r == 0 then {} else pages;
      LoseStep(s0, lost, used, View());
      run := Then(run, Lose(lost, used), View());
    }

    /** The alias comes into being. */
    ghost method RecordRemap(p: nat, ptr: nat, size: nat, s0: State, m0: Mem)
      requires Sound() && Inv(s0) && Legal(run) && run.s == s0 && kernelMode
      requires ptr in blocks && blocks[ptr] == size && Unowned(s0, ptr)
      requires p % PGSIZE == ptr % PGSIZE && SpannedPages(p, size) <= s0.free
      requires View() == s0.(free := s0.free - SpannedPages(p, size), used := Used(pt.mem, pt.root),
        flat := s0.flat + Ramp(p / PGSIZE, VaToPa(lay, ptr) / PGSIZE, NumSpannedPages(p, size), MapFlags(REMAP_FLAGS)))
      requires s0.used <= Used(pt.mem, pt.root)
      requires Marked(m0, pt.root, AliasPages(live), dead) && LeavesKept(m0, pt.mem, pt.root, SpannedPages(p, size))
      requires HaveLeaves(pt.mem, pt.root, p / PGSIZE, NumSpannedPages(p, size))
      modifies this`run, this`live
      ensures Valid() && p !in old(live) && p != 0 && live == old(live)[p := Held(ptr, size, true)]
      ensures run == Then(old(run), Remap(p, ptr, size, MapFlags(REMAP_FLAGS), Used(pt.mem, pt.root)), View())
    {
      hide Inv, Step, Marked, PageTables.Valid, VpFreelist.Valid, VaToPa, Flat, Seen, ZeroLow, DataEntries, Lookup, Walk, Leaf, Used, SpannedPages,
        AliasPages, Unowned, Ramp, LeavesKept, HaveLeaves, NumSpannedPages;
      ghost var used := Used(pt.mem, pt.root);
      SeenSlots(pt.mem, pt.root);
      FreeIsNeither(s0, SpannedPages(p, size));
      MarkedKept(m0, pt.mem, pt.root, AliasPages(live), dead, SpannedPages(p, size));
      MarkedAdd(pt.mem, pt.root, AliasPages(live), dead, p / PGSIZE, NumSpannedPages(p, size));
      SpannedIsRange(p, size);
      live := live[p := Held(ptr, size, true)];
      RemapStep(s0, p, ptr, MapFlags(REMAP_FLAGS), used, View());
      run := Then(run, Remap(p, ptr, size, MapFlags(REMAP_FLAGS), used), View());
    }

    /**
     `vremap_resolve`: recovers the canonical address by page walk and inverse address arithmetic.
     No table of aliases is consulted.
     */
    method VremapResolve(ptr: nat) returns (result: int, original: nat)
      requires Sound() && Inv(View()) && kernelMode && !Resolve(lay, pt.SeenMap(), ptr).Aborts?
      modifies this`vremapLastResult
      ensures result == vremapLastResult && (old(Valid()) ==> Valid())
      ensures match Resolve(lay, pt.SeenMap(), ptr)
              case NoBacking => result == EVREM_NO_PHYS_BACK && original == ptr
              case NotRemapped => result == VREM_NOT_REMAPPED && original == ptr
              case ResolvedTo(c) => result == VREM_OK && original == c
              case Aborts => false
    {
      hide Inv, PageTables.Valid, VpFreelist.Valid, VaToPa, PaddrToVaddr, Flat, Seen, ZeroLow, DataEntries, Lookup, Walk, Leaf, Used, AliasPages;
      assert pt.Sound() by { PtSound(pt); }
      original := ptr;
      var pa := pt.PtResolve(ptr);
      if pa == 0 {
        result := EVREM_NO_PHYS_BACK;
      } else if VaToPa(lay, ptr) == pa {
        result := VREM_NOT_REMAPPED;
      } else {
        assert BelowStack(pa);
        original, result := PaddrToVaddr(lay, pa), VREM_OK;
      }
      vremapLastResult := result;
    }

    /** `dangless_dedicate_vmem`: the range [start, end) joins the free pages. */
    method DedicateVmem(start: nat, end: nat) returns (r: int)
      requires Valid() && start % PGSIZE == 0 && end % PGSIZE == 0 && start < end
      requires Dedicable(View(), PageRange(start / PGSIZE, (end - start) / PGSIZE))
      modifies Repr()
      ensures Valid() && fresh(Repr() - old(Repr())) && HeapSame() && live == old(live)
      ensures r == 0 || r == -1
      ensures r == 0 ==> run == Then(old(run), Dedicate(PageRange(start / PGSIZE, (end - start) / PGSIZE)), View())
      ensures r == 0 ==> vp.FreePages() == old(vp.FreePages()) + PageRange(start / PGSIZE, (end - start) / PGSIZE)
      ensures r == -1 ==> run == old(run) && vp.refusals > old(vp.refusals) && vp.mayRefuse
      ensures pt.avail == old(pt.avail)
    {
      hide Inv, Step, Marked, PageTables.Valid, VpFreelist.Valid, Flat, Seen, ZeroLow, DataEntries, Lookup, Walk, Leaf, Used, AliasPages, PageRange, SlotOf, Dedicable;
      ghost var s0, pages := View(), PageRange(start / PGSIZE, (end - start) / PGSIZE);
      DedicateStep(s0, pages);
      r := vp.Free(start, (end - start) / PGSIZE);
      if r == 0 {
        run := Then(run, Dedicate(pages), View());
      }
      assert View() == s0.(free := View().free);
    }

    /**
     `auto_dedicate_vmem`: every PML4 slot whose root entry is zero joins the free pages, unless the
     span list could not take it.
     */
    method AutoDedicateVmem()
      requires Valid() && !autoDedicateHappened
      modifies Repr()
      ensures Valid() && fresh(Repr() - old(Repr())) && autoDedicateHappened
      ensures live == old(live) && blocks == old(blocks) && dead == old(dead) && kernelMode == old(kernelMode) && hookDepth == old(hookDepth)
      ensures run == Then(old(run), AutoDedicate(vp.FreePages() - old(vp.FreePages())), View())
      ensures pt.SeenMap() == old(pt.SeenMap())
      ensures old(vp.FreePages()) !! ZeroSlots(pt.mem, pt.root)
      ensures vp.FreePages() <= old(vp.FreePages()) + ZeroSlots(pt.mem, pt.root)
      ensures vp.refusals == old(vp.refusals) ==> vp.FreePages() == old(vp.FreePages()) + ZeroSlots(pt.mem, pt.root)
      ensures pt.refusals == old(pt.refusals) && pt.avail == old(pt.avail)
    {
      hide Inv, Step, Marked, PageTables.Valid, VpFreelist.Valid, Flat, Seen, ZeroLow, DataEntries, Lookup, Walk, Leaf, Used, AliasPages, PageRange, SlotOf, ZeroSlots;
      ghost var s0, gained, all := View(), {}, true;
      ZeroSlotsFresh(s0, pt.mem, pt.root);
      gained, all := TakeZeroSlots();
      autoDedicateHappened := true;
      AutoDedicateStep(s0, pt.mem, pt.root, gained, all);
      assert vp.FreePages() - s0.free == gained;
      run := Then(run, AutoDedicate(gained), View());
    }

    /** The loop of `auto_dedicate_vmem`. */
    method TakeZeroSlots() returns (ghost gained: set<nat>, ghost all: bool)
      requires vp.Valid() && vp.FreePages() !! ZeroSlots(pt.mem, pt.root) && pt !in vp.Repr() && this !in vp.Repr()
      modifies vp.Repr()
      ensures vp.Valid() && fresh(vp.Repr() - old(vp.Repr()))
      ensures vp.FreePages() == old(vp.FreePages()) + gained
      ensures SlotsTaken(pt.mem, pt.root, PT_NUM_ENTRIES, gained, all) && (vp.refusals == old(vp.refusals) ==> all)
    {
      hide Valid, Sound, VpFreelist.Valid, Used, PageRange, SlotOf, ZeroSlots, PagesAt;
      ghost var free := vp.FreePages();
      gained, all := {}, true;
      var i := 0;
      while i < PT_NUM_ENTRIES
        invariant i <= PT_NUM_ENTRIES && vp.Valid() && fresh(vp.Repr() - old(vp.Repr()))
        invariant vp.FreePages() == free + gained && pt !in vp.Repr() && this !in vp.Repr()
        invariant SlotsTaken(pt.mem, pt.root, i, gained, all)
        invariant vp.refusals >= old(vp.refusals) && (vp.refusals == old(vp.refusals) ==> all)
      {
        if Read(pt.mem, pt.root, i) == 0 {
          SlotRange(pt.mem, pt.root, i, free, gained, all);
          var result := vp.Free(i * (PagesAt(4) * PGSIZE), PagesAt(4));
          if result == 0 {
            gained := gained + PageRange(i * PagesAt(4), PagesAt(4));
          } else {
            all := false;
          }
        }
        SlotsTakenStep(pt.mem, pt.root, i, gained, all);
        i := i + 1;
      }
    }

    /** The system allocator hands out the block [c, c + n). */
    method SysMalloc(c: nat, n: nat)
      requires Valid() && FreshBlock(View(), 0, c, n)
      modifies this`blocks, this`run
      ensures Valid() && blocks == old(blocks)[c := n] && Unowned(View(), c) && c != 0
      ensures run == Then(old(run), SysAlloc(c, n), View())
    {
      hide Inv, Step, Marked, PageTables.Valid, VpFreelist.Valid, Flat, Seen, ZeroLow, DataEntries, Used, AliasPages, Unowned, FreshBlock;
      SysAllocStep(View(), c, n);
      blocks := blocks[c := n];
      run := Then(run, SysAlloc(c, n), View());
    }

    /** The system allocator takes a block back. */
    method SysFreeBlock(c: nat)
      requires Valid() && c in blocks && Unowned(View(), c)
      modifies this`blocks, this`run
      ensures Valid() && blocks == old(blocks) - {c}
      ensures run == Then(old(run), SysFree(c), View())
    {
      hide Inv, Step, Marked, PageTables.Valid, VpFreelist.Valid, Flat, Seen, ZeroLow, DataEntries, Used, AliasPages, Unowned;
      SysFreeStep(View(), c);
      blocks := blocks - {c};
      run := Then(run, SysFree(c), View());
    }

    /** The program gets a canonical pointer. */
    ghost method RecordFallback(c: nat)
      requires Valid() && c in blocks && Unowned(View(), c)
      modifies this`live, this`run
      ensures Valid() && c !in old(live) && c != 0 && live == old(live)[c := Held(c, blocks[c], false)]
      ensures run == Then(old(run), Fallback(c), View())
    {
      hide Inv, Step, Marked, PageTables.Valid, VpFreelist.Valid, Flat, Seen, ZeroLow, DataEntries, Used, AliasPages, Unowned;
      FallbackStep(View(), c);
      live := live[c := Held(c, blocks[c], false)];
      run := Then(run, Fallback(c), View());
    }

    /** The program gives up a pointer that is not an alias. */
    ghost method RecordReleasePlain(p: nat)
      requires Valid() && p in live && !live[p].remapped
      modifies this`live, this`run
      ensures Valid() && View() == old(Released(View(), p)) && Unowned(View(), p) && p in blocks && p == old(live[p].c)
      ensures run == Then(old(run), Release(p), View())
    {
      hide Inv, Step, Marked, PageTables.Valid, VpFreelist.Valid, Flat, Seen, ZeroLow, DataEntries, Used, AliasPages, Unowned, Released, Resolve;
      ghost var s0 := View();
      HeldResolves(s0, p);
      ReleaseStep(s0, p);
      ReleasedPlain(s0, p);
      live := live - {p};
      run := Then(run, Release(p), View());
    }

    /** `virtual_invalidate` on alias pages: they die. */
    method Invalidate(p: nat, npages: nat, ghost aliases: set<nat>)
      requires pt.Valid() && TableSound() && Marked(pt.mem, pt.root, aliases, dead) && p / PGSIZE + npages <= VPNS
      requires PageRange(p / PGSIZE, npages) <= aliases
      requires forall v :: v in aliases ==> v in pt.SeenMap()
      modifies pt`mem, pt`tlb
      ensures pt.Valid() && TableSound() && Used(pt.mem, pt.root) == old(Used(pt.mem, pt.root))
      ensures pt.SeenMap() == old(pt.SeenMap()) - PageRange(p / PGSIZE, npages)
      ensures var gone := PageRange(p / PGSIZE, npages); Marked(pt.mem, pt.root, aliases - gone, dead + gone)
    {
      hide PageTables.Valid, Flat, Seen, ZeroLow, DataEntries, EntriesKept, Lookup, Walk, Leaf, Used, PageRange, LeavesKept, AtFrameZero;
      ghost var m0 := pt.mem;
      assert forall v :: v in aliases ==> v in pt.SeenMap() && v in pt.FlatMap() && Leaf(pt.mem, pt.root, v).Some?;
      assert forall v :: p / PGSIZE <= v < p / PGSIZE + npages ==> v in PageRange(p / PGSIZE, npages);
      pt.VirtualInvalidate(p, npages);
      DataEntriesKept(m0, pt.mem, pt.root, startUsed, PageRange(p / PGSIZE, npages), None);
      SeenAfterKill(m0, pt.mem, pt.root, PageRange(p / PGSIZE, npages));
      MarkedKill(m0, pt.mem, pt.root, aliases, dead, PageRange(p / PGSIZE, npages));
    }

    /** The program has given up an alias whose pages are dead. */
    ghost method RecordRelease(p: nat, s0: State)
      requires Sound() && Inv(s0) && Legal(run) && run.s == s0 && s0.live == live && s0.dead == dead && p in live
      requires View() == s0.(flat := s0.flat - OwnPages(live, p))
      requires Marked(pt.mem, pt.root, AliasPages(live) - OwnPages(live, p), dead + OwnPages(live, p))
      modifies this`live, this`dead, this`run
      ensures Valid() && View() == Released(s0, p)
      ensures s0.live[p].c in blocks && Unowned(View(), s0.live[p].c)
      ensures run == Then(old(run), Release(p), View())
    {
      hide Inv, Step, Marked, PageTables.Valid, VpFreelist.Valid, Flat, Seen, ZeroLow, DataEntries, Used, AliasPages, Unowned, OwnPages;
      ReleaseStep(s0, p);
      live, dead := live - {p}, dead + OwnPages(live, p);
      run := Then(run, Release(p), View());
    }

    /** free and realloc: the pages of an alias are invalidated, and the program has given it up. */
    method Kill(p: nat, npages: nat)
      requires Valid() && p in live && live[p].remapped && npages == NumSpannedPages(live[p].c, live[p].n)
      modifies pt`mem, pt`tlb, this`live, this`dead, this`run
      ensures Valid() && View() == old(Released(View(), p))
      ensures old(live[p].c) in blocks && Unowned(View(), old(live[p].c))
      ensures run == Then(old(run), Release(p), View())
    {
      hide Inv, Step, Marked, PageTables.Valid, VpFreelist.Valid, Flat, Seen, ZeroLow, DataEntries, Used, AliasPages, Unowned, NumSpannedPages, PageRange, SpannedPages;
      ghost var s0 := View();
      AliasRange(s0, p);
      InvParts(s0);
      AliasMapped(s0);
      hide OwnPages;
      Invalidate(p, npages, AliasPages(live));
      RecordRelease(p, s0);
    }

    /** How `do_vremap` shows block p to the program: as an alias if it can, else directly. */
    twostate predicate Shown(p: nat, q: nat)
      reads this, vp, pt
    {
      && p in blocks && q != 0 && q !in old(live)
      && live == old(live)[q := Held(p, blocks[p], vremapLastResult == VREM_OK)]
      && (vremapLastResult != VREM_OK ==> q == p && (TableRefused(p) || NoRoom(p)))
    }

    /**
     The mapping failed, because a table page was refused. The host did so of its own will, or had not
     the three frames left that a page may need.
     */
    twostate predicate TableRefused(p: nat)
      reads this, pt
    {
      && vremapLastResult == EVREM_VIRT_MAP && pt.refusals > old(pt.refusals)
      && p in blocks && (pt.mayRefuse || |old(pt.avail)| < 3 * NumSpannedPages(p, blocks[p]))
    }

    /** Auto-dedication is over and no run of free pages is long enough for the block. */
    ghost predicate NoRoom(p: nat)
      reads this`blocks, this`vremapLastResult, this`autoDedicateHappened, vp
    {
      NoRun(p) && vremapLastResult == EVREM_NO_VM && autoDedicateHappened
    }

    /** No run of free pages is long enough for block p. */
    ghost predicate NoRun(p: nat)
      reads this`blocks, vp
    {
      p in blocks && NoRunOf(NumSpannedPages(p, blocks[p]))
    }

    ghost predicate NoRunOf(npages: nat)
      reads vp
    {
      forall r: nat :: !RunAt(vp.FreePages(), r, npages)
    }

    /** The answer of `vremap_map` on block p, and what it did to the pointers held. */
    twostate predicate Attempted(p: nat, result: int, remapped: nat)
      requires p in blocks
      reads this, vp
    {
      && (result == VREM_OK ==> remapped != 0 && remapped !in old(live) && live == old(live)[remapped := Held(p, blocks[p], true)])
      && (result != VREM_OK ==> live == old(live))
      && (result == EVREM_NO_VM ==> NoRun(p))
    }

    /** One call of `vremap_map` in `do_vremap`. */
    method Attempt(p: nat, size: nat) returns (result: int, remapped: nat)
      requires Valid() && kernelMode && p in blocks && blocks[p] == size && Unowned(View(), p)
      modifies Repr()
      ensures Valid() && fresh(Repr() - old(Repr())) && Earlier(old(run), run) && HeapSame()
      ensures result == VREM_OK || result == EVREM_NO_VM || result == EVREM_VIRT_MAP
      ensures result == vremapLastResult && Attempted(p, result, remapped) && (result == EVREM_NO_VM ==> old(NoRun(p)))
      ensures pt.RefusedIf(result == EVREM_VIRT_MAP, 3 * NumSpannedPages(p, size)) && (result == EVREM_NO_VM ==> pt.avail == old(pt.avail))
    {
      hide Inv, Step, Marked, PageTables.Valid, VpFreelist.Valid, Flat, Seen, ZeroLow, DataEntries, Used, AliasPages, NumSpannedPages, RunAt, Valid, Legal;
      result, remapped := VremapMap(p, size);
      EarlierThen(old(run), old(run), run);
    }

    /** Auto-dedication, and another call of `vremap_map`. */
    method DedicateAndRetry(p: nat, size: nat) returns (result: int, remapped: nat)
      requires Valid() && kernelMode && !autoDedicateHappened && p in blocks && blocks[p] == size && Unowned(View(), p)
      modifies Repr()
      ensures Valid() && fresh(Repr() - old(Repr())) && Earlier(old(run), run) && autoDedicateHappened
      ensures blocks == old(blocks) && dead == old(dead) && kernelMode && hookDepth == old(hookDepth)
      ensures result == VREM_OK || result == EVREM_NO_VM || result == EVREM_VIRT_MAP
      ensures result == vremapLastResult && Attempted(p, result, remapped)
      ensures pt.RefusedIf(result == EVREM_VIRT_MAP, 3 * NumSpannedPages(p, size)) && (result == EVREM_NO_VM ==> pt.avail == old(pt.avail))
    {
      hide Inv, Step, Marked, PageTables.Valid, VpFreelist.Valid, Flat, Seen, ZeroLow, DataEntries, Used, AliasPages, NumSpannedPages, RunAt, Valid, Legal, ZeroSlots,
        NoRun;
      AutoDedicateVmem();
      EarlierThen(old(run), old(run), run);
      label Dedicated:
      result, remapped := Attempt(p, size);
      EarlierTrans(old(run), old@Dedicated(run), run);
    }

    /** `do_vremap`, with its retry after auto-dedication, which can happen only once. */
    method DoVremap(p: nat, sz: nat) returns (q: nat)
      requires Valid() && kernelMode && (p != 0 ==> p in blocks && Unowned(View(), p))
      modifies Repr()
      ensures Valid() && fresh(Repr() - old(Repr())) && Earlier(old(run), run)
      ensures blocks == old(blocks) && dead == old(dead) && kernelMode && hookDepth == old(hookDepth)
      ensures p == 0 || sz == 0 ==> q == 0 && live == old(live) && run == old(run)
      ensures p != 0 && sz != 0 ==> Shown(p, q)
      ensures autoDedicateHappened != old(autoDedicateHappened) ==> p != 0 && p in blocks && old(NoRun(p))
    {
      hide Inv, Step, Marked, PageTables.Valid, VpFreelist.Valid, Flat, Seen, ZeroLow, DataEntries, Used, AliasPages, NumSpannedPages, RunAt, Valid, Legal, ZeroSlots,
        NoRun;
      if p == 0 || sz == 0 {
        return 0;
      }
      var actualSz := blocks[p];
      var result, remapped := Attempt(p, actualSz);
      while result == EVREM_NO_VM && !autoDedicateHappened
        invariant Valid() && fresh(Repr() - old(Repr())) && Earlier(old(run), run)
        invariant blocks == old(blocks) && dead == old(dead) && kernelMode && hookDepth == old(hookDepth)
        invariant result == VREM_OK || result == EVREM_NO_VM || result == EVREM_VIRT_MAP
        invariant result == EVREM_NO_VM && !autoDedicateHappened ==> old(NoRun(p))
        invariant autoDedicateHappened != old(autoDedicateHappened) ==> old(NoRun(p))
        invariant p in blocks && result == vremapLastResult && Attempted(p, result, remapped)
        invariant pt.RefusedIf(result == EVREM_VIRT_MAP, 3 * NumSpannedPages(p, actualSz))
        invariant result == EVREM_NO_VM ==> pt.avail == old(pt.avail)
        decreases !autoDedicateHappened
      {
        label Again:
        result, remapped := DedicateAndRetry(p, actualSz);
        EarlierTrans(old(run), old@Again(run), run);
      }
      q := remapped;
      if result < 0 {
        label Failed:
        RecordFallback(p);
        EarlierThen(old(run), old@Failed(run), run);
        q := p;
      }
    }

    /** `do_hook_enter`: not while another hook runs, and not before kernel mode. */
    method HookEnter() returns (entered: bool)
      modifies this`hookDepth
      ensures entered <==> old(hookDepth) == 0 && kernelMode
      ensures hookDepth == if entered then 1 else old(hookDepth)
      ensures old(Valid()) ==> Valid()
    {
      if hookDepth > 0 || !kernelMode {
        return false;
      }
      hookDepth := hookDepth + 1;
      entered := true;
    }

    /** `do_hook_exit` */
    method HookExit()
      requires hookDepth > 0
      modifies this`hookDepth
      ensures hookDepth == old(hookDepth) - 1
      ensures old(Valid()) ==> Valid()
    {
      hookDepth := hookDepth - 1;
    }

    /**
     `dangless_malloc`. The answer of the system allocator is the block [c, c + n), or c == 0. A block
     asked for with size zero is handed to nobody: the program gets NULL and the block stays taken.
     */
    method Malloc(size: nat, c: nat, n: nat) returns (q: nat)
      requires Valid() && (c != 0 ==> FreshBlock(View(), 0, c, n) && size <= n)
      modifies Repr()
      ensures Valid() && fresh(Repr() - old(Repr())) && Earlier(old(run), run)
      ensures dead == old(dead) && kernelMode == old(kernelMode) && hookDepth == old(hookDepth)
      ensures blocks == if c == 0 then old(blocks) else old(blocks)[c := n]
      ensures Answered(size, c, q)
      ensures old(Enterable()) ==> (q == 0 <==> c == 0 || size == 0)
      ensures autoDedicateHappened != old(autoDedicateHappened) ==> c != 0 && old(NoRunOf(NumSpannedPages(c, n)))
    {
      q := TakeAndShow(size, c, n);
    }

    /** `dangless_calloc`: the product wraps at 64 bits, but then the system allocator has refused. */
    method Calloc(num: nat, size: nat, c: nat, n: nat) returns (q: nat)
      requires Valid() && (c != 0 ==> FreshBlock(View(), 0, c, n) && Times(num, size) <= n)
      modifies Repr()
      ensures Valid() && fresh(Repr() - old(Repr())) && Earlier(old(run), run)
      ensures dead == old(dead) && kernelMode == old(kernelMode) && hookDepth == old(hookDepth)
      ensures blocks == if c == 0 then old(blocks) else old(blocks)[c := n]
      ensures Answered(Times(num, size), c, q)
      ensures old(Enterable()) ==> (q == 0 <==> c == 0 || num == 0 || size == 0)
      ensures autoDedicateHappened != old(autoDedicateHappened) ==> c != 0 && old(NoRunOf(NumSpannedPages(c, n)))
    {
      hide FreshBlock, Earlier, NumSpannedPages, Repr, Shown, Inv, Legal, Marked, VpFreelist.Valid, PageTables.Valid, ZeroLow;
      if c != 0 { ProductFits(View(), num, size, c, n); }
      var product := Times(num, size) % 0x1_0000_0000_0000_0000;
      hide Valid;
      q := TakeAndShow(product, c, n);
    }

    /** What follows in malloc and calloc once the system allocator has been asked. */
    method TakeAndShow(size: nat, c: nat, n: nat) returns (q: nat)
      requires Valid() && (c != 0 ==> FreshBlock(View(), 0, c, n) && size <= n)
      modifies Repr()
      ensures Valid() && fresh(Repr() - old(Repr())) && Earlier(old(run), run)
      ensures dead == old(dead) && kernelMode == old(kernelMode) && hookDepth == old(hookDepth)
      ensures blocks == if c == 0 then old(blocks) else old(blocks)[c := n]
      ensures Answered(size, c, q)
      ensures old(Enterable()) ==> (q == 0 <==> c == 0 || size == 0)
      ensures autoDedicateHappened != old(autoDedicateHappened) ==> c != 0 && old(NoRunOf(NumSpannedPages(c, n)))
    {
      hide Inv, Step, Marked, PageTables.Valid, VpFreelist.Valid, Flat, Seen, ZeroLow, DataEntries, Used, AliasPages, Unowned, Legal, FreshBlock,
        RunAt, NumSpannedPages;
      if c != 0 {
        SysMalloc(c, n);
      }
      label Allocated:
      q := ShowBlock(c, size);
      EarlierThen(old(run), old(run), old@Allocated(run));
      EarlierTrans(old(run), old@Allocated(run), run);
    }

    /** What the program gets for a request of `size` bytes that the system allocator met with block c. */
    twostate predicate Answered(size: nat, c: nat, q: nat)
      reads this, vp, pt
    {
      if c == 0 then q == 0 && live == old(live)
      else if !old(Enterable()) then
        c in blocks && q == c && c !in old(live) && live == old(live)[c := Held(c, blocks[c], false)]
      else if size == 0 then q == 0 && live == old(live)
      else Shown(c, q)
    }

    /** What follows the call of the system allocator in the hooks. */
    method ShowBlock(c: nat, size: nat) returns (q: nat)
      requires Valid() && (c != 0 ==> c in blocks && Unowned(View(), c))
      modifies Repr()
      ensures Valid() && fresh(Repr() - old(Repr())) && Earlier(old(run), run)
      ensures blocks == old(blocks) && dead == old(dead) && kernelMode == old(kernelMode) && hookDepth == old(hookDepth)
      ensures Answered(size, c, q)
      ensures autoDedicateHappened != old(autoDedicateHappened) ==> c != 0 && c in blocks && old(NoRun(c))
    {
      hide Inv, Step, Marked, PageTables.Valid, VpFreelist.Valid, Flat, Seen, ZeroLow, DataEntries, Used, AliasPages, Unowned, Legal, RunAt, NumSpannedPages;
      var entered := HookEnter();
      if !entered {
        if c != 0 {
          RecordFallback(c);
        }
        return c;
      }
      q := DoVremap(c, size);
      HookExit();
    }

    ghost predicate Enterable()
      reads this
    {
      hookDepth == 0 && kernelMode
    }

    /** `sysfree`: a pointer that is not a block is no business of the system allocator's. */
    method SysFreeCall(p: nat)
      requires Valid() && (p in blocks ==> Unowned(View(), p))
      modifies this`blocks, this`run
      ensures Valid() && blocks == old(blocks) - {p}
      ensures p in old(blocks) ==> run == Then(old(run), SysFree(p), View())
      ensures p !in old(blocks) ==> run == old(run)
    {
      hide Inv, Step, Marked, PageTables.Valid, VpFreelist.Valid, Flat, Seen, ZeroLow, DataEntries, Used, AliasPages, Unowned;
      if p in blocks {
        SysFreeBlock(p);
      }
    }

    /**
     `dangless_free`; `forwarded` is the pointer passed on to the system allocator, 0 if none. A held
     pointer loses its alias pages and its block; a dead one, or an alias freed while the hook cannot
     be entered, is passed on as it is, which is never the address of a block, so that no block is
     freed twice.
     */
    method Free(p: nat) returns (forwarded: nat)
      requires Valid() && (p == 0 || p in live || p / PGSIZE in dead)
      modifies this, pt`mem, pt`tlb
      ensures Valid() && kernelMode == old(kernelMode) && hookDepth == old(hookDepth)
      ensures p == 0 ==> forwarded == 0 && View() == old(View()) && run == old(run)
      ensures p in old(live) && (old(Enterable()) || !old(IsAlias(p))) ==>
        && forwarded == old(live[p].c) && blocks == old(blocks) - {forwarded} && live == old(live) - {p}
        && dead == old(dead) + old(OwnPages(live, p))
        && run == Then(Then(old(run), Release(p), old(Released(View(), p))), SysFree(forwarded), View())
      ensures p != 0 && (p / PGSIZE in old(dead) || (old(IsAlias(p)) && !old(Enterable()))) ==>
        forwarded == p && p !in old(blocks) && View() == old(View()) && run == old(run)
    {
      hide Inv, Step, Marked, PageTables.Valid, VpFreelist.Valid, Flat, Seen, ZeroLow, DataEntries, Used, AliasPages, Unowned, Legal, Resolve,
        NumSpannedPages, SpannedPages;
      ghost var s0 := View();
      if p in live { HeldResolves(s0, p); }
      if p == 0 {
        return 0;
      }
      if Foreign(s0, p) { ForeignIsNoBlock(s0, p); }
      if p !in live { DeadResolves(s0, p); }
      var entered := HookEnter();
      if !entered {
        if p in live && !live[p].remapped { RecordReleasePlain(p); ReleasedPlain(s0, p); }
        SysFreeCall(p);
        return p;
      }
      forwarded := Resolved(p);
      SysFreeCall(forwarded);
      HookExit();
    }

    /** The page walk of free, and the death of the alias pages. */
    method Resolved(p: nat) returns (original: nat)
      requires Valid() && kernelMode && (p in live || p / PGSIZE in dead)
      modifies this`live, this`dead, this`run, this`vremapLastResult, pt`mem, pt`tlb
      ensures Valid()
      ensures p in old(live) ==>
        && original == old(live[p].c) && Unowned(View(), original) && original in blocks
        && View() == old(Released(View(), p)) && run == Then(old(run), Release(p), View())
      ensures p !in old(live) ==> original == p && View() == old(View()) && run == old(run)
    {
      hide Inv, Step, Marked, PageTables.Valid, VpFreelist.Valid, Flat, Seen, ZeroLow, DataEntries, Used, AliasPages, Unowned, Legal, Resolve,
        NumSpannedPages, SpannedPages;
      ghost var s0 := View();
      if p in live { HeldResolves(s0, p); } else { DeadResolves(s0, p); }
      var result;
      result, original := VremapResolve(p);
      assert View() == s0;
      if result == VREM_OK {
        assert p in live && original == live[p].c;
        Basics(s0);
        var npages := NumSpannedPages(original, blocks[original]);
        Kill(p, npages);
      } else {
        if p in live { RecordReleasePlain(p); ReleasedPlain(s0, p); }
      }
    }

    /** `sysrealloc`: the block at p, if there is one, gives way to the new one. */
    method SysReallocPlain(p: nat, c: nat, n: nat)
      requires Valid() && (p in blocks ==> p in live && !live[p].remapped)
      requires c != 0 ==> FreshBlock(View(), p, c, n)
      modifies this`blocks, this`live, this`run
      ensures Valid() && Earlier(old(run), run)
      ensures c == 0 ==> blocks == old(blocks) && live == old(live)
      ensures c != 0 ==> blocks == (old(blocks) - {p})[c := n] && Unowned(View(), c) && c in blocks
      ensures c != 0 ==> live == if p in old(blocks) then old(live) - {p} else old(live)
    {
      hide Inv, Step, Marked, PageTables.Valid, VpFreelist.Valid, Flat, Seen, ZeroLow, DataEntries, Used, AliasPages, Unowned, Resolve, FreshBlock, Legal, Valid;
      if c == 0 {
        return;
      }
      ghost var s0 := View();
      ValidInv();
      if p in blocks {
        HeldResolves(s0, p);
        ReleasedPlain(s0, p);
        RecordReleasePlain(p);
        label Gone:
        SysFreeBlock(p);
        EarlierThen(old(run), old@Gone(run), run);
      }
      FreshAfter(s0, View(), p, c, n);
      label Freed:
      assert Earlier(old(run), run);
      SysMalloc(c, n);
      EarlierThen(old(run), old@Freed(run), run);
    }

    lemma ValidInv()
      requires Valid()
      ensures Inv(View()) && Sound() && View().lay.Ok() && View().lay == lay
    {
      hide Inv, Legal;
    }

    /** Pointer p keeps its alias when its block stays where it is and needs no further page. */
    ghost predicate StaysInPlace(p: nat, c: nat, n: nat)
      reads this
    {
      p in live && live[p].remapped && c == live[p].c && NumSpannedPages(c, n) <= NumSpannedPages(c, live[p].n)
    }

    ghost predicate IsAlias(p: nat)
      reads this
    {
      p in live && live[p].remapped
    }

    twostate predicate Resized(p: nat, c: nat, n: nat, q: nat)
      reads this, vp, pt
    {
      && q == p && p in old(live) && live == old(live)[p := Held(c, n, true)] && blocks == (old(blocks) - {c})[c := n]
      && dead == old(dead) + (SpannedPages(p, old(live[p].n)) - SpannedPages(p, n))
      && run == Then(old(run), SysResize(p, n), View())
    }

    twostate predicate Moved(p: nat, c: nat, n: nat, q: nat)
      reads this, vp, pt
    {
      MovedTo(old(View()), View(), p, c, n, q)
    }

    /** The held pointer that a realloc of the system allocator's block at p replaces, if any. */
    ghost function BlockOnly(p: nat): nat
      reads this`blocks
    {
      if p in blocks then p else 0
    }

    /** `dangless_realloc` when the hook cannot be entered. */
    method ReallocUnhooked(p: nat, c: nat, n: nat) returns (q: nat)
      requires Valid() && (p == 0 || p in live || p / PGSIZE in dead)
      requires c != 0 ==> FreshBlock(View(), p, c, n)
      modifies this`blocks, this`live, this`run
      ensures Valid() && Earlier(old(run), run)
      ensures c == 0 ==> q == 0 && live == old(live) && blocks == old(blocks)
      ensures c != 0 ==> Moved(old(BlockOnly(p)), c, n, q) && !live[q].remapped && (old(IsAlias(p)) ==> q != p)
    {
      hide Inv, Step, Marked, PageTables.Valid, VpFreelist.Valid, Flat, Seen, ZeroLow, DataEntries, Used, AliasPages, Unowned, Resolve, FreshBlock,
        Legal, NumSpannedPages, SpannedPages, Valid, Sound, Earlier, Foreign, MovedTo;
      ghost var s0 := View();
      ValidInv();
      PointerKind(s0, p);
      SysReallocPlain(p, c, n);
      if c != 0 {
        label Answered:
        RecordFallback(c);
        EarlierThen(old(run), old@Answered(run), run);
        PlainMoved(s0, View(), p, c, n, c);
        if p in s0.live && s0.live[p].remapped { MovedElsewhere(s0, View(), 0, c, n, c, p); }
      }
      q := c;
    }

    /** `dangless_realloc` of a pointer that is not an alias: a new allocation. */
    method ReallocFresh(p: nat, newSize: nat, c: nat, n: nat) returns (q: nat)
      requires Valid() && kernelMode && newSize > 0
      requires p == 0 || p / PGSIZE in dead || (p in live && !live[p].remapped)
      requires c != 0 ==> FreshBlock(View(), p, c, n)
      modifies Repr()
      ensures Valid() && fresh(Repr() - old(Repr())) && Earlier(old(run), run)
      ensures kernelMode == old(kernelMode) && hookDepth == old(hookDepth)
      ensures c == 0 ==> q == 0 && live == old(live) && blocks == old(blocks) && dead == old(dead)
      ensures c != 0 ==> Moved(old(BlockOnly(p)), c, n, q)
      ensures c != 0 && !live[q].remapped ==> TableRefused(c) || NoRoom(c)
    {
      hide Inv, Step, Marked, PageTables.Valid, VpFreelist.Valid, Flat, Seen, ZeroLow, DataEntries, Used, AliasPages, Unowned, Resolve, FreshBlock,
        Legal, NumSpannedPages, SpannedPages, RunAt, NoRoom, Valid, Sound, Earlier, MovedTo;
      ghost var s0 := View();
      ValidInv();
      PointerKind(s0, p);
      SysReallocPlain(p, c, n);
      label Answered:
      q := DoVremap(c, newSize);
      EarlierTrans(old(run), old@Answered(run), run);
      if c != 0 { PlainMoved(s0, View(), p, c, n, q); }
    }

    /** The alias keeps its address and loses the pages its block no longer reaches. */
    ghost method RecordResize(p: nat, c: nat, n: nat, s0: State, gone: set<nat>)
      requires Sound() && Inv(s0) && Legal(run) && run.s == s0 && n > 0
      requires s0.live == live && s0.dead == dead && p in live && live[p].remapped && live[p].c == c && FreshBlock(s0, c, c, n)
      requires NumSpannedPages(c, n) <= NumSpannedPages(c, live[p].n)
      requires gone == PageRange(RoundUp(p + n) / PGSIZE, NumSpannedPages(c, live[p].n) - NumSpannedPages(c, n))
      requires View() == s0.(blocks := (s0.blocks - {c})[c := n], flat := s0.flat - gone)
      requires Marked(pt.mem, pt.root, AliasPages(live) - gone, dead + gone)
      modifies this`live, this`dead, this`run
      ensures Valid() && live == old(live)[p := Held(c, n, true)]
      ensures dead == old(dead) + (SpannedPages(p, old(live[p].n)) - SpannedPages(p, n))
      ensures run == Then(old(run), SysResize(p, n), View())
    {
      hide Inv, Step, Marked, PageTables.Valid, VpFreelist.Valid, Flat, Seen, ZeroLow, DataEntries, Used, AliasPages, FreshBlock, NumSpannedPages,
        PageRange, SpannedPages;
      ResizeStep(s0, p, n);
      live, dead := live[p := Held(c, n, true)], dead + gone;
      run := Then(run, SysResize(p, n), View());
    }

    /** The old alias and block are gone, the new block is there. */
    ghost method RecordMove(p: nat, c: nat, n: nat, s0: State)
      requires Sound() && Inv(s0) && Legal(run) && run.s == s0
      requires s0.live == live && s0.dead == dead && p in live && live[p].c != 0 && FreshBlock(s0, live[p].c, c, n)
      requires View() == s0.(blocks := (s0.blocks - {live[p].c})[c := n], flat := s0.flat - OwnPages(live, p))
      requires Marked(pt.mem, pt.root, AliasPages(live) - OwnPages(live, p), dead + OwnPages(live, p))
      modifies this`live, this`dead, this`run
      ensures Valid() && live == old(live) - {p} && dead == old(dead) + old(OwnPages(live, p))
      ensures Unowned(View(), c) && c != 0 && Earlier(old(run), run)
    {
      hide Inv, Step, Marked, PageTables.Valid, VpFreelist.Valid, Flat, Seen, ZeroLow, DataEntries, Used, AliasPages, FreshBlock, SpannedPages, OwnPages, Unowned;
      MoveSteps(s0, p, c, n);
      ghost var a := Released(s0, p);
      ghost var b := a.(blocks := a.blocks - {live[p].c});
      ghost var r1 := Then(run, Release(p), a);
      ghost var r2 := Then(r1, SysFree(live[p].c), b);
      live, dead := live - {p}, dead + OwnPages(live, p);
      assert View() == b.(blocks := b.blocks[c := n]);
      assert Legal(r1);
      assert Legal(r2);
      EarlierThen(run, run, r1);
      EarlierThen(run, r1, r2);
      run := Then(r2, SysAlloc(c, n), View());
      EarlierThen(old(run), r2, run);
    }

    /** `dangless_realloc` of an alias. */
    method ReallocAlias(p: nat, original: nat, newSize: nat, c: nat, n: nat) returns (q: nat)
      requires Valid() && kernelMode && newSize > 0 && p in live && live[p].remapped && original == live[p].c
      requires c != 0 ==> newSize <= n && FreshBlock(View(), original, c, n)
      modifies Repr()
      ensures Valid() && fresh(Repr() - old(Repr())) && Earlier(old(run), run)
      ensures kernelMode && hookDepth == old(hookDepth)
      ensures c == 0 ==> q == 0 && live == old(live) && blocks == old(blocks) && dead == old(dead)
      ensures c != 0 && old(StaysInPlace(p, c, n)) ==> Resized(p, c, n, q)
      ensures c != 0 && !old(StaysInPlace(p, c, n)) ==> Moved(p, c, n, q)
      ensures c != 0 && !old(StaysInPlace(p, c, n)) && !live[q].remapped ==> TableRefused(c) || NoRoom(c)
      ensures c != 0 && !old(StaysInPlace(p, c, n)) ==> q != p
    {
      hide Inv, Step, Marked, PageTables.Valid, VpFreelist.Valid, Flat, Seen, ZeroLow, DataEntries, Used, AliasPages, FreshBlock, NumSpannedPages,
        PageRange, SpannedPages, OwnPages, Unowned, RunAt, NoRoom, Legal, Resolve;
      ghost var s0 := View();
      HeldResolves(s0, p);
      NullIsNothing(s0);
      Basics(s0);
      var oldNpages := NumSpannedPages(original, blocks[original]);
      if c == 0 {
        return 0;
      }
      blocks := (blocks - {original})[c := n];
      if c == original && NumSpannedPages(c, n) <= oldNpages {
        KeepInPlace(p, c, n, oldNpages, s0);
        return p;
      }
      q := MoveAlias(p, original, oldNpages, newSize, c, n, s0);
    }

    /** An in-place resize that no page is lost to. */
    ghost method KeepAllPages(p: nat, c: nat, n: nat, s0: State)
      requires Sound() && Inv(s0) && Legal(run) && run.s == s0 && n > 0
      requires p in live && live[p].remapped && live[p].c == c && FreshBlock(s0, c, c, n)
      requires NumSpannedPages(c, live[p].n) == NumSpannedPages(c, n)
      requires c in s0.blocks && View() == s0.(blocks := (s0.blocks - {c})[c := n])
      requires Marked(pt.mem, pt.root, AliasPages(live), dead)
      modifies this`live, this`dead, this`run
      ensures Valid() && live == old(live)[p := Held(c, n, true)]
      ensures dead == old(dead) + (SpannedPages(p, old(live[p].n)) - SpannedPages(p, n))
      ensures run == Then(old(run), SysResize(p, n), View())
    {
      hide Inv, Step, Marked, PageTables.Valid, VpFreelist.Valid, Flat, Seen, ZeroLow, DataEntries, Used, AliasPages, FreshBlock, NumSpannedPages,
        PageRange, SpannedPages, Legal, Valid;
      NothingGone(s0, p, c, n);
      RecordResize(p, c, n, s0, {});
    }

    /** The system allocator left the block in place and it spans no more pages than before. */
    method KeepInPlace(p: nat, c: nat, n: nat, oldNpages: nat, ghost s0: State)
      requires Sound() && Inv(s0) && Legal(run) && run.s == s0 && n > 0
      requires p in live && live[p].remapped && live[p].c == c && FreshBlock(s0, c, c, n)
      requires oldNpages == NumSpannedPages(c, live[p].n) >= NumSpannedPages(c, n)
      requires c in s0.blocks && View() == s0.(blocks := (s0.blocks - {c})[c := n])
      requires Marked(pt.mem, pt.root, AliasPages(live), dead)
      modifies this`live, this`dead, this`run, pt`mem, pt`tlb
      ensures Valid() && live == old(live)[p := Held(c, n, true)]
      ensures dead == old(dead) + (SpannedPages(p, old(live[p].n)) - SpannedPages(p, n))
      ensures run == Then(old(run), SysResize(p, n), View())
    {
      hide Inv, Step, Marked, PageTables.Valid, VpFreelist.Valid, Flat, Seen, ZeroLow, DataEntries, Used, AliasPages, FreshBlock, NumSpannedPages,
        PageRange, SpannedPages, Legal, Valid, RoundUp;
      var newNpages := NumSpannedPages(c, n);
      if newNpages == oldNpages {
        KeepAllPages(p, c, n, s0);
      } else {
        ShrinkInPlace(p, c, n, oldNpages - newNpages, s0);
      }
    }

    /** The pages that the block no longer reaches, counted from its new end, are invalidated. */
    method ShrinkInPlace(p: nat, c: nat, n: nat, npages: nat, ghost s0: State)
      requires Sound() && Inv(s0) && Legal(run) && run.s == s0 && n > 0
      requires p in live && live[p].remapped && live[p].c == c && FreshBlock(s0, c, c, n)
      requires npages == NumSpannedPages(c, live[p].n) - NumSpannedPages(c, n)
      requires c in s0.blocks && View() == s0.(blocks := (s0.blocks - {c})[c := n])
      requires Marked(pt.mem, pt.root, AliasPages(live), dead)
      modifies this`live, this`dead, this`run, pt`mem, pt`tlb
      ensures Valid() && live == old(live)[p := Held(c, n, true)]
      ensures dead == old(dead) + (SpannedPages(p, old(live[p].n)) - SpannedPages(p, n))
      ensures run == Then(old(run), SysResize(p, n), View())
    {
      hide Inv, Step, Marked, PageTables.Valid, VpFreelist.Valid, Flat, Seen, ZeroLow, DataEntries, Used, AliasPages, FreshBlock, NumSpannedPages,
        PageRange, SpannedPages, Legal, Valid, RoundUp;
      InvParts(s0);
      AliasMapped(s0);
      ResizeRange(s0, p, n);
      Invalidate(RoundUp(p + n), npages, AliasPages(live));
      ghost var gone := PageRange(RoundUp(p + n) / PGSIZE, npages);
      assert pt.SeenMap() == s0.flat - gone && Used(pt.mem, pt.root) == s0.used;
      assert View() == s0.(blocks := (s0.blocks - {c})[c := n], flat := s0.flat - gone);
      RecordResize(p, c, n, s0, gone);
    }

    /** The whole alias is invalidated and the new block is shown elsewhere. */
    method MoveAlias(p: nat, original: nat, oldNpages: nat, newSize: nat, c: nat, n: nat, ghost s0: State) returns (q: nat)
      requires Sound() && Inv(s0) && Legal(run) && run.s == s0 && kernelMode && newSize > 0
      requires p in live && live[p].remapped && live[p].c == original && original in s0.blocks && FreshBlock(s0, original, c, n)
      requires oldNpages == NumSpannedPages(original, live[p].n) && original != 0
      requires View() == s0.(blocks := (s0.blocks - {original})[c := n])
      requires Marked(pt.mem, pt.root, AliasPages(live), dead)
      modifies Repr()
      ensures Valid() && fresh(Repr() - old(Repr())) && Earlier(old(run), run)
      ensures kernelMode && hookDepth == old(hookDepth) && blocks == old(blocks) && dead == old(dead) + old(OwnPages(live, p))
      ensures q != 0 && q !in old(live) - {p} && q in live && live == (old(live) - {p})[q := Held(c, n, live[q].remapped)]
      ensures !live[q].remapped ==> q == c && (TableRefused(c) || NoRoom(c))
      ensures q != p
    {
      hide Inv, Step, Marked, PageTables.Valid, VpFreelist.Valid, Flat, Seen, ZeroLow, DataEntries, Used, AliasPages, FreshBlock, NumSpannedPages,
        PageRange, SpannedPages, OwnPages, Unowned, Legal, Earlier, RunAt;
      LeaveAlias(p, original, oldNpages, c, n, s0);
      label Moving:
      hide Valid, Sound;
      q := DoVremap(c, newSize);
      EarlierTrans(old(run), old@Moving(run), run);
      OwnFirst(s0, p);
      ValidInv();
      DeadResolves(View(), p);
    }

    /** The whole alias is invalidated; its old block has given way to the new one. */
    method LeaveAlias(p: nat, original: nat, oldNpages: nat, c: nat, n: nat, ghost s0: State)
      requires Sound() && Inv(s0) && Legal(run) && run.s == s0
      requires p in live && live[p].remapped && live[p].c == original && original in s0.blocks && FreshBlock(s0, original, c, n)
      requires oldNpages == NumSpannedPages(original, live[p].n) && original != 0
      requires View() == s0.(blocks := (s0.blocks - {original})[c := n])
      requires Marked(pt.mem, pt.root, AliasPages(live), dead)
      modifies this`live, this`dead, this`run, pt`mem, pt`tlb
      ensures Valid() && live == old(live) - {p} && dead == old(dead) + old(OwnPages(live, p))
      ensures Unowned(View(), c) && c != 0 && Earlier(old(run), run)
    {
      hide Inv, Step, Marked, PageTables.Valid, VpFreelist.Valid, Flat, Seen, ZeroLow, DataEntries, Used, AliasPages, FreshBlock, NumSpannedPages,
        PageRange, SpannedPages, OwnPages, Unowned, Legal, Earlier;
      InvParts(s0);
      AliasMapped(s0);
      AliasRange(s0, p);
      Invalidate(p, oldNpages, AliasPages(live));
      RecordMove(p, c, n, s0);
    }

    /** The block that the system allocator finds at the pointer `dangless_realloc` passes to it. */
    ghost function PassedOn(p: nat): nat
      reads this
    {
      if IsAlias(p) && Enterable() then live[p].c else p
    }

    /** The held pointer that `dangless_realloc` replaces: 0 if it knows of no block behind p. */
    ghost function Replaced(p: nat): nat
      reads this
    {
      if p in live && (Enterable() || !IsAlias(p)) then p else 0
    }

    /**
     `dangless_realloc`. The answer of the system allocator is the block [c, c + n), or c == 0. An
     alias stays where it is exactly when its block does and needs no more pages; when it moves, it
     never comes back at the same address. For a dangling pointer, or an alias while the hook cannot
     be entered, no block, page or held pointer changes beyond what a new allocation adds.
     */
    method Realloc(p: nat, newSize: nat, c: nat, n: nat) returns (q: nat)
      requires Valid() && newSize > 0 && (p == 0 || p in live || p / PGSIZE in dead)
      requires c != 0 ==> newSize <= n && FreshBlock(View(), PassedOn(p), c, n)
      modifies Repr()
      ensures Valid() && fresh(Repr() - old(Repr())) && Earlier(old(run), run)
      ensures kernelMode == old(kernelMode) && hookDepth == old(hookDepth)
      ensures c == 0 ==> q == 0 && live == old(live) && blocks == old(blocks) && dead == old(dead)
      ensures c != 0 && old(Enterable() && StaysInPlace(p, c, n)) ==> Resized(p, c, n, q)
      ensures c != 0 && !old(Enterable() && StaysInPlace(p, c, n)) ==>
        Moved(old(Replaced(p)), c, n, q) && (old(IsAlias(p)) ==> q != p)
      ensures c != 0 && !old(Enterable() && StaysInPlace(p, c, n)) && old(Enterable()) && !live[q].remapped ==>
        TableRefused(c) || NoRoom(c)
    {
      hide Inv, Step, Marked, PageTables.Valid, VpFreelist.Valid, Flat, Seen, ZeroLow, DataEntries, Used, AliasPages, Unowned, Resolve, FreshBlock,
        Legal, NumSpannedPages, SpannedPages, OwnPages, RunAt, NoRoom, Earlier, Valid, Sound, Foreign, MovedTo;
      ghost var s0 := View();
      ValidInv();
      PointerKind(s0, p);
      var entered := HookEnter();
      if !entered {
        q := ReallocUnhooked(p, c, n);
        return;
      }
      q := ReallocHooked(p, newSize, c, n);
      HookExit();
    }

    /** The body of `dangless_realloc` inside the hook. */
    method ReallocHooked(p: nat, newSize: nat, c: nat, n: nat) returns (q: nat)
      requires Valid() && kernelMode && newSize > 0 && (p == 0 || p in live || p / PGSIZE in dead)
      requires c != 0 ==> newSize <= n && FreshBlock(View(), if IsAlias(p) then live[p].c else p, c, n)
      modifies Repr()
      ensures Valid() && fresh(Repr() - old(Repr())) && Earlier(old(run), run)
      ensures kernelMode && hookDepth == old(hookDepth)
      ensures c == 0 ==> q == 0 && live == old(live) && blocks == old(blocks) && dead == old(dead)
      ensures c != 0 && old(StaysInPlace(p, c, n)) ==> Resized(p, c, n, q)
      ensures c != 0 && !old(StaysInPlace(p, c, n)) ==>
        Moved(if p in old(live) then p else 0, c, n, q) && (old(IsAlias(p)) ==> q != p)
      ensures c != 0 && !old(StaysInPlace(p, c, n)) && !live[q].remapped ==> TableRefused(c) || NoRoom(c)
    {
      hide Inv, Step, Marked, PageTables.Valid, VpFreelist.Valid, Flat, Seen, ZeroLow, DataEntries, Used, AliasPages, Unowned, Resolve, FreshBlock,
        Legal, NumSpannedPages, SpannedPages, OwnPages, RunAt, NoRoom, Earlier, Valid, Sound, Foreign, MovedTo;
      ghost var s0 := View();
      ValidInv();
      PointerKind(s0, p);
      var original, wasRemapped := p, false;
      if p != 0 {
        var result;
        result, original := VremapResolve(p);
        wasRemapped := result == VREM_OK;
      }
      if wasRemapped {
        q := ReallocAlias(p, original, newSize, c, n);
      } else {
        q := ReallocFresh(p, newSize, c, n);
      }
    }

    /** `vremap_resolve`, for a caller that knows the state. */
    method ResolveValue(p: nat, ghost s: State) returns (result: int, original: nat)
      requires Valid() && kernelMode && View() == s && s.lay.Ok() && !Resolve(s.lay, s.flat, p).Aborts?
      modifies this`vremapLastResult
      ensures Valid() && View() == s
      ensures match Resolve(s.lay, s.flat, p)
              case NoBacking => result == EVREM_NO_PHYS_BACK && original == p
              case NotRemapped => result == VREM_NOT_REMAPPED && original == p
              case ResolvedTo(c) => result == VREM_OK && original == c
              case Aborts => false
    {
      hide Inv, Legal, Marked, PageTables.Valid, VpFreelist.Valid, Flat, Seen, ZeroLow, DataEntries, Used, AliasPages, Resolve;
      result, original := VremapResolve(p);
    }

    /**
     Nothing is left of a dead page: its entry holds the dead marker, the processor has no cached
     translation of it, and the page allocator cannot hand it out.
     */
    lemma DeadPage(v: nat)
      requires Valid() && v in dead
      ensures Leaf(pt.mem, pt.root, v) == Some(0xDEAD00) && v !in pt.FlatMap()
      ensures v !in pt.tlb && v !in vp.FreePages()
    {
      hide Flat, Seen, ZeroLow, DataEntries, Legal, Inv, Tree, Pages, Walk, Lookup;
      InvParts(View());
      hide HeapOk, LiveOk, PlacesOk, SlotsOk;
      MarkerUnmapped(pt.mem, pt.root, v);
    }

    /** What the page walk says of every byte of a held block, cached or not. */
    lemma HeldByte(p: nat, i: nat)
      requires Valid() && p in live && i < live[p].n
      ensures lay.Ok() && (p + i) / PGSIZE in pt.FlatMap()
      ensures pt.FlatMap()[(p + i) / PGSIZE].frame * PGSIZE + (p + i) % PGSIZE == VaToPa(lay, live[p].c + i)
      ensures (p + i) / PGSIZE in pt.tlb ==> pt.tlb[(p + i) / PGSIZE] == pt.FlatMap()[(p + i) / PGSIZE]
    {
      hide Flat, Seen, ZeroLow, DataEntries, Legal, Inv, Tree, Pages, VaToPa;
      HeldThrough(View(), pt.mem, pt.root, p, i);
    }

    /** In a slot that was zero at the start, all four entries on the walk to an alias byte let it be written. */
    lemma AliasWritable(p: nat, i: nat, level: nat)
      requires Valid() && IsAlias(p) && i < live[p].n && 1 <= level <= 4
      requires SlotOf((p + i) / PGSIZE) !in startUsed
      ensures Entry(pt.mem, pt.root, (p + i) / PGSIZE, level).Some?
      ensures DataWord(Entry(pt.mem, pt.root, (p + i) / PGSIZE, level).value)
    {
      hide Flat, Seen, ZeroLow, DataEntries, DataWord, Legal, Inv, VpFreelist.Valid, PageTables.Valid;
      AliasBytePage(View(), p, i);
      AllEntries(pt.mem, pt.root, startUsed, (p + i) / PGSIZE, level);
    }

    /** `dangless_get_canonical`: the block behind a held pointer, NULL for a dead one. */
    method GetCanonical(p: nat) returns (original: nat)
      requires Valid() && kernelMode && lay.Ok() && !Resolve(lay, pt.SeenMap(), p).Aborts?
      modifies this`vremapLastResult
      ensures Valid() && View() == old(View()) && run == old(run)
      ensures match Resolve(lay, pt.SeenMap(), p)
              case NoBacking => original == 0
              case NotRemapped => original == p
              case ResolvedTo(c) => original == c
              case Aborts => false
      ensures p in live ==> original == live[p].c
      ensures p / PGSIZE in dead ==> original == 0
    {
      hide Inv, Step, Marked, PageTables.Valid, VpFreelist.Valid, Flat, Seen, ZeroLow, DataEntries, Used, AliasPages, Resolve, Legal;
      if p in live { HeldResolves(View(), p); }
      if p / PGSIZE in dead { DeadResolves(View(), p); }
      var result;
      result, original := VremapResolve(p);
      if result < 0 {
        return 0;
      }
    }
  }
}

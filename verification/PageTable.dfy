/**
 The page-table code over one table memory, with the TLB of the processor running it. Frames for new
 tables come from the host's page allocator, which may refuse at any call.
 */
module PageTable {
  import opened Options
  import opened Words
  import opened PageMath
  import opened PageTree
  import opened PageUnits
  import opened PageEntries

  /** The permission bits of a mapping made with the given flags. */
  function MapFlags(flags: nat): nat {
    if Present(flags) then FlagBits(flags) else FlagBits(flags) + PTE_V
  }

  /** The mappings of n consecutive pages from `vpn` to n consecutive frames from `frame`. */
  ghost function Ramp(vpn: nat, frame: nat, n: nat, flags: nat): (r: map<nat, Mapping>)
    ensures r.Keys == PageRange(vpn, n)
    ensures forall v: nat :: v in r ==> r[v] == Mapping(frame + (v - vpn), flags)
  {
    map v: nat | v in PageRange(vpn, n) :: Mapping(frame + (v - vpn), flags)
  }

  lemma RampStep(f: map<nat, Mapping>, vpn: nat, frame: nat, k: nat, flags: nat)
    ensures f + Ramp(vpn, frame, k + 1, flags) == (f + Ramp(vpn, frame, k, flags))[vpn + k := Mapping(frame + k, flags)]
  {}

  lemma RampDrop(f: map<nat, Mapping>, vpn: nat, frame: nat, k: nat, flags: nat)
    requires k > 0 && vpn !in f
    ensures f + Ramp(vpn + 1, frame + 1, k - 1, flags) == (f + Ramp(vpn, frame, k, flags)) - {vpn}
  {}

  lemma RampEmpty(f: map<nat, Mapping>, vpn: nat, frame: nat, flags: nat)
    ensures f + Ramp(vpn, frame, 0, flags) == f
  {
    assert Ramp(vpn, frame, 0, flags) == map[];
  }

  lemma RangeStep(vpn: nat, k: nat)
    ensures PageRange(vpn, k) + {vpn + k} == PageRange(vpn, k + 1)
  {}

  /** The pages of the region have level-1 entries. */
  ghost predicate HaveLeaves(m: Mem, root: nat, vpn: nat, n: nat) {
    vpn + n <= VPNS && forall v: nat :: vpn <= v < vpn + n ==> Leaf(m, root, v).Some?
  }

  lemma HaveLeavesKept(m: Mem, m': Mem, root: nat, vpn: nat, n: nat, x: nat)
    requires HaveLeaves(m, root, vpn, n) && LeavesKept(m, m', root, {x})
    requires Leaf(m', root, x).Some?
    ensures HaveLeaves(m', root, vpn, n)
  {}

  lemma HaveLeavesKeptOut(m: Mem, m': Mem, root: nat, vpn: nat, n: nat)
    requires HaveLeaves(m, root, vpn, n) && LeavesKept(m, m', root, {vpn + n})
    ensures HaveLeaves(m', root, vpn, n)
    ensures Leaf(m', root, vpn + n).Some? && vpn + n < VPNS ==> HaveLeaves(m', root, vpn, n + 1)
  {}

  /**
   What the processor may have done to its cached translations since they were t0: dropped some, and
   cached some of the translations f of the page table.
   */
  ghost predicate Filled(t0: map<nat, Mapping>, t: map<nat, Mapping>, f: map<nat, Mapping>) {
    forall v :: v in t ==> (v in t0 && t[v] == t0[v]) || (v in f && t[v] == f[v])
  }

  lemma HaveLeavesNone(m: Mem, root: nat, vpn: nat)
    requires vpn <= VPNS
    ensures HaveLeaves(m, root, vpn, 0)
  {}

  /** The pages touched so far grow by the next one. */
  lemma KeptStep(a: Mem, b: Mem, c: Mem, root: nat, vpn: nat, k: nat)
    requires LeavesKept(a, b, root, PageRange(vpn, k)) && LeavesKept(b, c, root, {vpn + k})
    ensures LeavesKept(a, c, root, PageRange(vpn, k + 1))
  {
    RangeStep(vpn, k);
    LeavesKeptTrans(a, b, c, root, PageRange(vpn, k), {vpn + k});
  }

  lemma KeptInside(a: Mem, b: Mem, c: Mem, root: nat, vpn: nat, k: nat, n: nat, x: nat)
    requires LeavesKept(a, b, root, PageRange(vpn, k)) && LeavesKept(b, c, root, {x}) && vpn <= x < vpn + n && k <= n
    ensures LeavesKept(a, c, root, PageRange(vpn, n))
  {
    LeavesKeptTrans(a, b, c, root, PageRange(vpn, k), {x});
    LeavesKeptWeaken(a, c, root, PageRange(vpn, k) + {x}, PageRange(vpn, n));
  }

  class PageTables {
    var mem: Mem
    const root: nat
    /** Frames the host can still give to the page allocator. */
    var avail: set<nat>
    /** Whether the host's page allocator may refuse a table page although it has frames left. */
    const mayRefuse: bool
    ghost var pos: map<nat, Pos>
    /** Translations cached by the processor. */
    ghost var tlb: map<nat, Mapping>
    /** How often the host's page allocator refused a table page. */
    ghost var refusals: nat

    /** A fresh address space: one zeroed root table, and the frames the host can give. */
    constructor (root: nat, avail: set<nat>, mayRefuse: bool)
      requires 0 < root < FRAMES && forall f :: f in avail ==> 0 < f < FRAMES && f != root
      ensures Valid() && this.root == root && this.avail == avail && this.mayRefuse == mayRefuse
      ensures FlatMap() == map[] && Used(mem, root) == {} && tlb == map[] && refusals == 0
    {
      this.root, this.avail, this.mayRefuse, mem := root, avail, mayRefuse, map[root := ZeroTable()];
      pos, tlb, refusals := map[root := Pos(4, 0)], map[], 0;
      new;
      EmptyFlat(mem, root);
    }

    ghost predicate Sound()
      reads this
    {
      && Tree(mem, root, pos)
      && (forall f :: f in avail ==> f !in mem && f !in pos && 0 < f < FRAMES)
    }

    ghost function FlatMap(): map<nat, Mapping>
      reads this
    {
      Flat(mem, root)
    }

    /**
     A table page was refused exactly if the call failed, which it does only if the host may refuse or
     has not the given number of frames; no more frames than that were used up.
     */
    twostate predicate RefusedIf(failed: bool, frames: nat)
      reads this
    {
      && refusals == old(refusals) + (if failed then 1 else 0)
      && (failed ==> mayRefuse || |old(avail)| < frames)
      && |old(avail)| <= |avail| + frames
    }

    /** Every cached translation, except of the given pages, agrees with the page table. */
    ghost predicate Coherent(except: set<nat>)
      reads this
    {
      forall v :: v in tlb && v !in except ==> v in FlatMap() && tlb[v] == FlatMap()[v]
    }

    ghost predicate Valid()
      reads this
    {
      Sound() && Coherent({})
    }

    /** The processor may cache translations of mapped pages, and drop cached ones, at any time. */
    ghost method ProcessorFills()
      modifies this`tlb
      ensures Filled(old(tlb), tlb, FlatMap())
    {
      var f := FlatMap();
      var t :| Filled(tlb, t, f);
      tlb := t;
      assert FlatMap() == f;
    }

    /** `tlb_flush_one`, and whatever the processor caches before the next instruction. */
    ghost method TlbFlushOne(vpn: nat)
      modifies this`tlb
      ensures Filled(old(tlb) - {vpn}, tlb, FlatMap())
    {
      tlb := tlb - {vpn};
      ProcessorFills();
    }

    /** `pt_walk`, which sees the low 48 bits of the address. */
    method PtWalk(va: nat, requestedLevel: nat) returns (level: nat, frame: nat, index: nat)
      requires Sound()
      ensures Slot(level, frame, index) == Walk(mem, root, 4, WalkedPage(va), requestedLevel)
      ensures 1 <= level <= 4 && frame in mem && |mem[frame]| == PT_NUM_ENTRIES && index < PT_NUM_ENTRIES
      ensures frame in pos && pos[frame] == Pos(level, Prefix(WalkedPage(va), level))
    {
      ghost var vpn := va / PGSIZE;
      WalkIgnoresHighBits(mem, root, 4, vpn, requestedLevel);
      RootCovers(WalkedPage(va));
      WalkPosition(mem, root, pos, root, 4, WalkedPage(va), requestedLevel);
      level, frame := 4, root;
      while true
        invariant 1 <= level <= 4
        invariant Walk(mem, root, 4, vpn, requestedLevel) == Walk(mem, frame, level, vpn, requestedLevel)
        decreases level
      {
        index := PtLevelOffset(va, level);
        var w := Read(mem, frame, index);
        if Stops(w, level, requestedLevel) || level == 1 {
          break;
        }
        frame, level := FrameNo(w), level - 1;
      }
      assert TableOk(mem, pos, frame);
    }

    /** What `pt_resolve` makes of the page table. */
    ghost function SeenMap(): map<nat, Mapping>
      reads this
    {
      Seen(mem, root)
    }

    /**
     `pt_resolve_page`: physical address of the page, and the level of its entry. The answer is 0 both
     for an unmapped page and for one whose entry is at frame 0.
     */
    method PtResolvePage(va: nat) returns (pa: nat, level: nat)
      requires Sound()
      ensures 1 <= level <= 4
      ensures pa == 0 <==> WalkedPage(va) !in SeenMap()
      ensures level == Walk(mem, root, 4, WalkedPage(va), 1).level
      ensures pa % PGSIZE == 0 && pa / PGSIZE % PagesAt(level) == 0
      ensures pa != 0 ==> pa / PGSIZE + WalkedPage(va) % PagesAt(level) == SeenMap()[WalkedPage(va)].frame
    {
      hide Walk, Tree, PagesAt, FrameNo, Flat, Index, Prefix, AtFrameZero;
      var frame, index;
      level, frame, index := PtWalk(va, 1);
      EndOfWalk(mem, root, pos, WalkedPage(va));
      var w := Read(mem, frame, index);
      if !Present(w) {
        return 0, level;
      }
      UnitMultiple(FrameNo(w) / PagesAt(level), level);
      pa := FrameNo(w) / PagesAt(level) * PagesAt(level) * PGSIZE;
    }

    /** `pt_resolve`: the physical address of a byte, or 0. */
    method PtResolve(va: nat) returns (pa: nat)
      requires Sound()
      ensures pa == if WalkedPage(va) in SeenMap() then SeenMap()[WalkedPage(va)].frame * PGSIZE + va % PGSIZE else 0
      ensures pa == 0 <==> WalkedPage(va) !in SeenMap()
    {
      hide Seen, PagesAt;
      var level;
      pa, level := PtResolvePage(va);
      if pa == 0 {
        return 0;
      }
      ByteOffset(va, level);
      UnitIgnoresHighBits(va / PGSIZE, level);
      pa := pa + va % (PagesAt(level) * PGSIZE);
    }

    /** `pt_map_page_create_level`: links a zeroed table in at the entry and steps into it. */
    method PtMapPageCreateLevel(frame: nat, index: nat, va: nat, level: nat, flags: nat)
      returns (r: int, frame': nat, index': nat)
      requires Valid() && va < VIRTMEM_END && OkFlags(flags) && 1 <= level <= 3
      requires Walk(mem, root, 4, va / PGSIZE, 1) == Slot(level + 1, frame, index) && !Present(Read(mem, frame, index))
      modifies this
      ensures Valid() && (r == 0 || r == -1)
      ensures FlatMap() == old(FlatMap()) && avail <= old(avail) && RefusedIf(r == -1, 1)
      ensures EntriesKept(old(mem), mem, root, {}, Some(flags))
      ensures LeavesKept(old(mem), mem, root, {}) && old(Used(mem, root)) <= Used(mem, root)
      ensures r == 0 ==> Walk(mem, root, 4, va / PGSIZE, 1) == Slot(level, frame', index') && Read(mem, frame', index') == 0
    {
      frame', index' := frame, index;
      EntriesRefl(mem, root, {}, Some(flags));
      var ptpa := PpZallocOne();
      if ptpa == 0 {
        return -1, frame', index';
      }
      hide EntriesKept;
      ghost var n := ptpa / PGSIZE;
      var w := MakePte(ptpa, flags);
      MakePteFields(ptpa, flags);
      RootCovers(va / PGSIZE);
      WalkPosition(mem, root, pos, root, 4, va / PGSIZE, 1);
      assert TableOk(mem, pos, frame);
      assert Linkable(mem, root, pos, frame, index, n, w);
      LinkFlat(mem, root, pos, frame, index, n, w);
      MadeGrants(ptpa, flags);
      LinkEntries(mem, root, pos, frame, index, n, w, flags);
      LinkUsed(mem, root, pos, frame, index, n, w);
      LinkWalk(mem, root, pos, frame, index, n, w, root, 4, va / PGSIZE);
      var m := Link(mem, frame, index, ptpa / PGSIZE, w);
      pos := LinkPos(pos, frame, index, n);
      mem := m;
      ProcessorFills();
      frame', index' := ptpa / PGSIZE, PtLevelOffset(va, level);
      r := 0;
    }

    /** `pp_zalloc_one`: the address of a frame nobody holds, or 0. */
    method PpZallocOne() returns (pa: nat)
      requires Valid()
      modifies this`avail, this`refusals
      ensures Valid() && avail <= old(avail) && RefusedIf(pa == 0, 1)
      ensures pa != 0 ==> pa % PGSIZE == 0 && var f := pa / PGSIZE; 0 < f < FRAMES && f !in mem && f !in pos && f !in avail
    {
      hide Tree, Flat;
      if avail == {} {
        refusals := refusals + 1;
        return 0;
      }
      if mayRefuse {
        if * {
          refusals := refusals + 1;
          return 0;
        }
      }
      var f :| f in avail;
      TakeFrame(avail, f);
      avail := avail - {f};
      pa := f * PGSIZE;
    }

    /** The last store of `pt_map_page`, `pt_unmap_page` and `virtual_invalidate_pte`. */
    method StoreLeaf(frame: nat, index: nat, w: nat, ghost vpn: nat, ghost flags: Option<nat>)
      requires Sound() && vpn < VPNS && Walk(mem, root, 4, vpn, 1) == Slot(1, frame, index)
      requires Present(w) ==> flags.Some? && Grants(w, flags.value)
      modifies this`mem, this`tlb
      ensures Sound() && Filled(old(tlb), tlb, FlatMap())
      ensures FlatMap() == if Present(w) then old(FlatMap())[vpn := Mapping(FrameNo(w), FlagBits(w))]
                           else old(FlatMap()) - {vpn}
      ensures EntriesKept(old(mem), mem, root, {vpn}, flags)
      ensures LeavesKept(old(mem), mem, root, {vpn}) && Leaf(mem, root, vpn) == Some(w)
      ensures Used(mem, root) == old(Used(mem, root)) && mem.Keys == old(mem.Keys)
      ensures forall v: nat :: v < VPNS ==> Walk(mem, root, 4, v, 1) == old(Walk(mem, root, 4, v, 1))
    {
      hide EntriesKept, Flat, LeavesKept, Used, Grants;
      LeafWriteFlat(mem, root, pos, vpn, w);
      LeafEntries(mem, root, pos, vpn, w, flags);
      LeafWriteUsed(mem, root, pos, frame, index, w);
      LeafWriteWalks(mem, root, pos, vpn, w);
      mem := Write(mem, frame, index, w);
      ProcessorFills();
    }

    /**
     `pt_map_page`: one page number gains a mapping, or, if a table cannot be allocated on the way
     down, no translation changes. Its assertion, where compiled in, demands that the page is not
     mapped. Without it a 4K mapping is replaced; the flush comes before the store, so that the old
     translation of this one page may stay cached.
     */
    method PtMapPage(pa: nat, va: nat, flags: nat) returns (r: int)
      requires Valid() && pa % PGSIZE == 0 && va % PGSIZE == 0 && va < VIRTMEM_END
      requires pa / PGSIZE < FRAMES && OkFlags(flags)
      requires va / PGSIZE in FlatMap() ==> Leaf(mem, root, va / PGSIZE).Some?
      modifies this
      ensures Sound() && Coherent({va / PGSIZE}) && (r == 0 || r == -1)
      ensures r == -1 || va / PGSIZE !in old(FlatMap()) ==> Valid()
      ensures r == 0 ==> FlatMap() == old(FlatMap())[va / PGSIZE := Mapping(pa / PGSIZE, MapFlags(flags))]
      ensures r == 0 ==> Leaf(mem, root, va / PGSIZE).Some?
      ensures r == -1 ==> FlatMap() == old(FlatMap())
      ensures EntriesKept(old(mem), mem, root, {va / PGSIZE}, Some(flags))
      ensures LeavesKept(old(mem), mem, root, {va / PGSIZE}) && old(Used(mem, root)) <= Used(mem, root)
      ensures avail <= old(avail) && RefusedIf(r == -1, 3)
    {
      hide Walk, Lookup, Tree, Flat, LeavesKept, MakePte, FrameNo, FlagBits, Used, OkFlags, Index, Prefix, EntriesKept, Grants;
      var level, frame, index := PtWalk(va, 1);
      ghost var vpn := va / PGSIZE;
      EndOfWalk(mem, root, pos, vpn);
      ghost var m0 := mem;
      r, frame, index := CreateLevels(level, frame, index, va, flags);
      if r < 0 {
        LeavesKeptWeaken(m0, mem, root, {}, {vpn});
        EntriesWeaken(m0, mem, root, {}, {vpn}, Some(flags), Some(flags));
        return;
      }
      ghost var m1 := mem;
      MakePteFields(pa, flags);
      MadeGrants(pa, flags);
      if Present(Read(mem, frame, index)) {
        TlbFlushOne(vpn);
      }
      StoreLeaf(frame, index, MakePte(pa, flags), vpn, Some(flags));
      LeavesKeptTrans(m0, m1, mem, root, {}, {vpn});
      EntriesTrans(m0, m1, mem, root, {}, {vpn}, Some(flags));
      assert {} + {vpn} == {vpn};
    }

    /** The fall-through switch of `pt_map_page`: every missing level, top down. */
    method CreateLevels(level: nat, frame: nat, index: nat, va: nat, flags: nat)
      returns (r: int, frame': nat, index': nat)
      requires Valid() && va < VIRTMEM_END && OkFlags(flags) && 1 <= level <= 4
      requires Walk(mem, root, 4, va / PGSIZE, 1) == Slot(level, frame, index)
      requires level > 1 ==> !Present(Read(mem, frame, index))
      modifies this
      ensures Valid() && (r == 0 || r == -1)
      ensures FlatMap() == old(FlatMap()) && avail <= old(avail) && RefusedIf(r == -1, level - 1)
      ensures EntriesKept(old(mem), mem, root, {}, Some(flags))
      ensures LeavesKept(old(mem), mem, root, {}) && old(Used(mem, root)) <= Used(mem, root)
      ensures r == 0 ==> Walk(mem, root, 4, va / PGSIZE, 1) == Slot(1, frame', index')
      ensures r == 0 ==> (Present(Read(mem, frame', index')) <==> va / PGSIZE in FlatMap())
    {
      hide Walk, Lookup, Tree, Flat, Leaf, LeavesKept, Used, OkFlags, Index, EntriesKept;
      LeavesKeptRefl(mem, root, {});
      EntriesRefl(mem, root, {}, Some(flags));
      r, frame', index' := 0, frame, index;
      ghost var m0 := mem;
      if level == 4 {
        r, frame', index' := PtMapPageCreateLevel(frame', index', va, 3, flags);
        if r < 0 { return; }
      }
      ghost var m1 := mem;
      if level >= 3 {
        r, frame', index' := PtMapPageCreateLevel(frame', index', va, 2, flags);
        LeavesKeptTrans0(m0, m1, mem, root);
        EntriesTrans0(m0, m1, mem, root, Some(flags));
        if r < 0 { return; }
      }
      ghost var m2 := mem;
      if level >= 2 {
        r, frame', index' := PtMapPageCreateLevel(frame', index', va, 1, flags);
        LeavesKeptTrans0(m0, m2, mem, root);
        EntriesTrans0(m0, m2, mem, root, Some(flags));
      }
      EndOfWalk(mem, root, pos, va / PGSIZE);
    }

    /** The store of `pt_unmap_page`. */
    method ClearEntry(frame: nat, index: nat, ghost vpn: nat, ghost level: nat)
      requires Sound() && vpn < VPNS && 1 <= level <= 4 && Walk(mem, root, 4, vpn, level) == Slot(level, frame, index)
      modifies this`mem, this`tlb
      ensures Sound() && Filled(old(tlb), tlb, FlatMap())
      ensures FlatMap() == old(FlatMap()) - Unit(vpn, level) && mem.Keys == old(mem.Keys)
      ensures level == 1 ==> EntriesKept(old(mem), mem, root, {vpn}, None)
      ensures level == 1 ==> LeavesKept(old(mem), mem, root, {vpn}) && Leaf(mem, root, vpn) == Some(0)
      ensures level == 1 ==> Used(mem, root) == old(Used(mem, root))
    {
      hide Lookup, Flat, LeavesKept, Used, Walk, Leaf, Unit, EntriesKept;
      CutFlat(mem, root, pos, vpn, level);
      if level == 1 {
        LeafEntries(mem, root, pos, vpn, 0, None);
        LeafWriteFlat(mem, root, pos, vpn, 0);
        LeafWriteUsed(mem, root, pos, frame, index, 0);
      }
      mem := Write(mem, frame, index, 0);
      ProcessorFills();
    }

    /**
     `pt_unmap_page`: the unit of pages that the entry covers loses its translations, but only one of
     its pages is flushed. Nothing stale is left if no other page of the unit was mapped; otherwise a
     translation cached before may stay (`TlbOrder.UnmapUnitExact`).
     */
    method PtUnmapPage(va: nat, onLevel: nat) returns (r: int)
      requires Valid() && va < VIRTMEM_END && 1 <= onLevel <= 4
      modifies this
      ensures r == if old(Walk(mem, root, 4, va / PGSIZE, onLevel)).level == onLevel then 0 else -1
      ensures r == 0 ==> FlatMap() == old(FlatMap()) - Unit(va / PGSIZE, onLevel)
      ensures r == -1 ==> mem == old(mem) && Valid()
      ensures Sound() && Coherent(Unit(va / PGSIZE, onLevel) - {va / PGSIZE})
      ensures (forall w :: w in Unit(va / PGSIZE, onLevel) && w != va / PGSIZE ==> w !in old(FlatMap())) ==> Valid()
      ensures onLevel == 1 ==> Valid() && LeavesKept(old(mem), mem, root, {va / PGSIZE})
      ensures onLevel == 1 ==> EntriesKept(old(mem), mem, root, {va / PGSIZE}, None)
      ensures onLevel == 1 ==> Used(mem, root) == old(Used(mem, root))
      ensures onLevel == 1 && r == 0 ==> Leaf(mem, root, va / PGSIZE) == Some(0)
      ensures avail == old(avail) && refusals == old(refusals)
    {
      hide Walk, Lookup, Tree, Flat, LeavesKept, Used, Index, Prefix, EntriesKept;
      ghost var vpn := va / PGSIZE;
      var level, frame, index := PtWalk(va, onLevel);
      LeavesKeptRefl(mem, root, {vpn});
      EntriesRefl(mem, root, {vpn}, None);
      if level != onLevel {
        return -1;
      }
      var oldPte := Read(mem, frame, index);
      if !Present(oldPte) { AbsentUnmapped(mem, root, vpn, onLevel); }
      UnitOfOne(vpn);
      ClearEntry(frame, index, vpn, onLevel);
      if Present(oldPte) {
        TlbFlushOne(vpn);
      }
      r := 0;
    }

    /**
     `pt_map_region`: all or nothing. Either every page of the region is mapped to the frame at the
     same distance, or, whichever allocation of a table page failed, no translation has changed.
     */
    method PtMapRegion(pa: nat, va: nat, size: nat, flags: nat) returns (r: int)
      requires Valid() && pa % PGSIZE == 0 && va % PGSIZE == 0 && size % PGSIZE == 0
      requires va + size <= VIRTMEM_END && pa / PGSIZE + size / PGSIZE <= FRAMES && OkFlags(flags)
      requires FlatMap().Keys !! PageRange(va / PGSIZE, size / PGSIZE)
      modifies this
      ensures Valid() && (r == 0 || r == -1)
      ensures r == 0 ==> FlatMap() == old(FlatMap()) + Ramp(va / PGSIZE, pa / PGSIZE, size / PGSIZE, MapFlags(flags))
      ensures r == 0 ==> HaveLeaves(mem, root, va / PGSIZE, size / PGSIZE)
      ensures r == -1 ==> FlatMap() == old(FlatMap())
      ensures EntriesKept(old(mem), mem, root, PageRange(va / PGSIZE, size / PGSIZE), Some(flags))
      ensures LeavesKept(old(mem), mem, root, PageRange(va / PGSIZE, size / PGSIZE))
      ensures old(Used(mem, root)) <= Used(mem, root) && avail <= old(avail) && RefusedIf(r == -1, 3 * (size / PGSIZE))
    {
      hide Flat, Lookup, Walk, Leaf, Used, LeavesKept, Tree, OkFlags, Ramp, FlagBits, HaveLeaves, PageRange, MapFlags,
        Sound, Coherent, EntriesKept;
      ghost var vpn, frame, n := va / PGSIZE, pa / PGSIZE, size / PGSIZE;
      ghost var m0, f0, fl, k := mem, FlatMap(), MapFlags(flags), 0;
      RampEmpty(f0, vpn, frame, fl);
      LeavesKeptRefl(mem, root, PageRange(vpn, 0));
      EntriesRefl(mem, root, PageRange(vpn, 0), Some(flags));
      HaveLeavesNone(mem, root, vpn);
      var offset := 0;
      while offset < size
        invariant Valid() && offset == k * PGSIZE && k <= n
        invariant FlatMap() == f0 + Ramp(vpn, frame, k, fl)
        invariant HaveLeaves(mem, root, vpn, k)
        invariant EntriesKept(m0, mem, root, PageRange(vpn, k), Some(flags))
        invariant LeavesKept(m0, mem, root, PageRange(vpn, k))
        invariant old(Used(mem, root)) <= Used(mem, root) && avail <= old(avail) && RefusedIf(false, 3 * k)
      {
        ghost var m := mem;
        r := MapOne(pa + offset, va + offset, flags, vpn, frame, k, f0);
        KeptStep(m0, m, mem, root, vpn, k);
        RangeStep(vpn, k);
        EntriesTrans(m0, m, mem, root, PageRange(vpn, k), {vpn + k}, Some(flags));
        if r < 0 {
          ghost var m1 := mem;
          UnmapFirst(va, offset, vpn, k, n, frame, fl, f0, m0);
          RangeGrows(vpn, k + 1, n);
          RangeGrows(vpn, k, n);
          EntriesInside(m0, m1, mem, root, PageRange(vpn, k + 1), PageRange(vpn, k), PageRange(vpn, n), Some(flags), None);
          return -1;
        }
        offset, k := offset + PGSIZE, k + 1;
      }
      r := 0;
    }

    /** One iteration of the mapping loop, at a page that is not mapped yet. */
    method MapOne(pa: nat, va: nat, flags: nat, ghost vpn: nat, ghost frame: nat, ghost k: nat, ghost f0: map<nat, Mapping>)
      returns (r: int)
      requires Valid() && va == (vpn + k) * PGSIZE && pa == (frame + k) * PGSIZE
      requires vpn + k < VPNS && frame + k < FRAMES && OkFlags(flags)
      requires FlatMap() == f0 + Ramp(vpn, frame, k, MapFlags(flags))
      requires vpn + k !in f0
      requires HaveLeaves(mem, root, vpn, k)
      modifies this
      ensures Valid() && (r == 0 || r == -1)
      ensures r == 0 ==> FlatMap() == f0 + Ramp(vpn, frame, k + 1, MapFlags(flags))
      ensures r == 0 ==> HaveLeaves(mem, root, vpn, k + 1)
      ensures r == -1 ==> FlatMap() == old(FlatMap()) && HaveLeaves(mem, root, vpn, k)
      ensures EntriesKept(old(mem), mem, root, {vpn + k}, Some(flags))
      ensures LeavesKept(old(mem), mem, root, {vpn + k})
      ensures old(Used(mem, root)) <= Used(mem, root) && avail <= old(avail) && RefusedIf(r == -1, 3)
    {
      hide Flat, Lookup, Walk, Leaf, Used, Tree, OkFlags, Ramp, FlagBits, PageRange, HaveLeaves, LeavesKept, MapFlags, EntriesKept;
      assert va / PGSIZE == vpn + k && pa / PGSIZE == frame + k;
      RampStep(f0, vpn, frame, k, MapFlags(flags));
      ghost var m := mem;
      r := PtMapPage(pa, va, flags);
      HaveLeavesKeptOut(m, mem, root, vpn, k);
    }

    /** The cleanup of `pt_map_region`: the pages mapped before the failure are unmapped again. */
    method UnmapFirst(va: nat, maxOffset: nat, ghost vpn: nat, ghost n: nat, ghost all: nat, ghost frame: nat,
                      ghost flags: nat, ghost f0: map<nat, Mapping>, ghost m0: Mem)
      requires Valid() && va == vpn * PGSIZE && maxOffset == n * PGSIZE && vpn + n <= VPNS && n < all
      requires FlatMap() == f0 + Ramp(vpn, frame, n, flags)
      requires forall v :: vpn <= v < vpn + n ==> v !in f0
      requires HaveLeaves(mem, root, vpn, n) && LeavesKept(m0, mem, root, PageRange(vpn, n + 1))
      modifies this
      ensures Valid() && FlatMap() == f0
      ensures EntriesKept(old(mem), mem, root, PageRange(vpn, n), None)
      ensures LeavesKept(m0, mem, root, PageRange(vpn, all))
      ensures old(Used(mem, root)) == Used(mem, root) && avail == old(avail) && refusals == old(refusals)
    {
      hide Flat, Lookup, Walk, Leaf, Used, LeavesKept, Tree, Ramp, HaveLeaves, PageRange, Sound, Coherent, EntriesKept;
      var offset := 0;
      ghost var x, y, j, m1 := vpn, frame, n, mem;
      EntriesRefl(mem, root, PageRange(vpn, n), None);
      while offset < maxOffset
        invariant Valid() && va + offset == x * PGSIZE && x + j == vpn + n
        invariant FlatMap() == f0 + Ramp(x, y, j, flags)
        invariant EntriesKept(old(mem), mem, root, PageRange(vpn, n), None)
        invariant HaveLeaves(mem, root, vpn, n) && LeavesKept(m0, mem, root, PageRange(vpn, n + 1))
        invariant old(Used(mem, root)) == Used(mem, root) && avail == old(avail) && refusals == old(refusals)
      {
        ghost var m := mem;
        UnmapNext(va + offset, vpn, n, x, y, j, flags, f0, m0);
        RangeHolds(vpn, n, x);
        EntriesInside(m1, m, mem, root, PageRange(vpn, n), {x}, PageRange(vpn, n), None, None);
        offset, x, y, j := offset + PGSIZE, x + 1, y + 1, j - 1;
      }
      RampEmpty(f0, x, y, flags);
      RangeGrows(vpn, n + 1, all);
      LeavesKeptWeaken(m0, mem, root, PageRange(vpn, n + 1), PageRange(vpn, all));
    }

    method UnmapNext(va: nat, ghost vpn: nat, ghost n: nat, ghost x: nat, ghost y: nat, ghost j: nat, ghost flags: nat,
                     ghost f0: map<nat, Mapping>, ghost m0: Mem)
      requires Valid() && va == x * PGSIZE && j > 0 && vpn <= x && x + j == vpn + n
      requires FlatMap() == f0 + Ramp(x, y, j, flags) && x !in f0
      requires HaveLeaves(mem, root, vpn, n) && LeavesKept(m0, mem, root, PageRange(vpn, n + 1))
      modifies this
      ensures Valid() && FlatMap() == f0 + Ramp(x + 1, y + 1, j - 1, flags)
      ensures EntriesKept(old(mem), mem, root, {x}, None)
      ensures HaveLeaves(mem, root, vpn, n) && LeavesKept(m0, mem, root, PageRange(vpn, n + 1))
      ensures old(Used(mem, root)) == Used(mem, root) && avail == old(avail) && refusals == old(refusals)
    {
      hide Flat, Lookup, Walk, Leaf, Used, LeavesKept, Tree, Ramp, HaveLeaves, PageRange, Sound, Coherent, EntriesKept;
      ghost var m := mem;
      LeafInRange(mem, root, vpn, n, x);
      UnmapOne(va, x, y, j, flags, f0);
      HaveLeavesKept(m, mem, root, vpn, n, x);
      KeptInside(m0, m, mem, root, vpn, n + 1, n + 1, x);
    }

    method UnmapOne(va: nat, ghost x: nat, ghost y: nat, ghost j: nat, ghost flags: nat, ghost f0: map<nat, Mapping>)
      requires Valid() && va == x * PGSIZE && j > 0 && x < VPNS
      requires FlatMap() == f0 + Ramp(x, y, j, flags) && x !in f0
      requires Leaf(mem, root, x).Some?
      modifies this
      ensures Valid() && FlatMap() == f0 + Ramp(x + 1, y + 1, j - 1, flags)
      ensures EntriesKept(old(mem), mem, root, {x}, None)
      ensures LeavesKept(old(mem), mem, root, {x}) && Leaf(mem, root, x).Some?
      ensures old(Used(mem, root)) == Used(mem, root) && avail == old(avail) && refusals == old(refusals)
    {
      hide Flat, Lookup, Walk, Used, Tree, LeavesKept, PageRange, Ramp, Sound, Coherent, EntriesKept;
      assert va / PGSIZE == x;
      RampDrop(f0, x, y, j, flags);
      UnitOfOne(x);
      var _ := PtUnmapPage(va, 1);
    }

    /** `virtual_invalidate_pte` and the flush that follows it. */
    method InvalidatePte(frame: nat, index: nat, ghost vpn: nat)
      requires Valid() && vpn < VPNS && Walk(mem, root, 4, vpn, 1) == Slot(1, frame, index)
      modifies this`mem, this`tlb
      ensures Valid()
      ensures FlatMap() == old(FlatMap()) - {vpn}
      ensures EntriesKept(old(mem), mem, root, {vpn}, None)
      ensures LeavesKept(old(mem), mem, root, {vpn}) && Leaf(mem, root, vpn) == Some(PTE_INVALIDATED)
      ensures Used(mem, root) == old(Used(mem, root)) && mem.Keys == old(mem.Keys)
      ensures forall v: nat :: v < VPNS ==> Walk(mem, root, 4, v, 1) == old(Walk(mem, root, 4, v, 1))
    {
      hide Flat, Lookup, Tree, Leaf, Used, LeavesKept, EntriesKept;
      StoreLeaf(frame, index, PTE_INVALIDATED, vpn, None);
      TlbFlushOne(vpn);
    }

    /** The first page of each level-1 table the range enters has a valid entry there. */
    ghost predicate BatchStartsMapped(vpn: nat, n: nat)
      reads this
    {
      forall v: nat :: vpn <= v < vpn + n && (v == vpn || v % PT_NUM_ENTRIES == 0) ==>
        v in FlatMap() && Leaf(mem, root, v).Some?
    }

    /** Pages vpn .. vpn + k carry the dead marker; everything else is as in the earlier state. */
    ghost predicate Invalidated(m0: Mem, f0: map<nat, Mapping>, vpn: nat, k: nat)
      reads this
    {
      && FlatMap() == f0 - PageRange(vpn, k)
      && LeavesKept(m0, mem, root, PageRange(vpn, k)) && EntriesKept(m0, mem, root, PageRange(vpn, k), None)
      && (forall v: nat :: vpn <= v < vpn + k ==> Leaf(mem, root, v) == Some(PTE_INVALIDATED))
      && (forall v: nat :: v < VPNS ==> Walk(mem, root, 4, v, 1) == Walk(m0, root, 4, v, 1))
      && Used(mem, root) == Used(m0, root) && mem.Keys == m0.Keys
    }

    /** The inner loop of `virtual_invalidate`: consecutive entries of one level-1 table. */
    method InvalidateBatch(frame: nat, index: nat, nptes: nat, ghost vpn: nat, ghost done: nat,
                           ghost m0: Mem, ghost f0: map<nat, Mapping>)
      requires Valid() && vpn + done + nptes <= VPNS
      requires Invalidated(m0, f0, vpn, done)
      requires Walk(mem, root, 4, vpn + done, 1) == Slot(1, frame, index) && index + nptes <= PT_NUM_ENTRIES
      modifies this`mem, this`tlb
      ensures Valid() && Invalidated(m0, f0, vpn, done + nptes)
    {
      hide Flat, Lookup, Tree, Leaf, Used, LeavesKept, Walk, PageRange, Invalidated, Sound, Coherent, EntriesKept;
      var pteOffset := 0;
      while pteOffset < nptes
        invariant pteOffset <= nptes && Valid()
        invariant Invalidated(m0, f0, vpn, done + pteOffset)
        invariant Walk(mem, root, 4, vpn + done, 1) == Slot(1, frame, index)
      {
        NeighbourSlot(mem, root, vpn + done, pteOffset);
        InvalidateNext(frame, index + pteOffset, vpn, done + pteOffset, m0, f0);
        pteOffset := pteOffset + 1;
      }
    }

    method InvalidateNext(frame: nat, index: nat, ghost vpn: nat, ghost k: nat,
                          ghost m0: Mem, ghost f0: map<nat, Mapping>)
      requires Valid() && vpn + k < VPNS && Walk(mem, root, 4, vpn + k, 1) == Slot(1, frame, index)
      requires Invalidated(m0, f0, vpn, k)
      modifies this`mem, this`tlb
      ensures Valid() && Invalidated(m0, f0, vpn, k + 1)
      ensures forall v: nat :: v < VPNS ==> Walk(mem, root, 4, v, 1) == old(Walk(mem, root, 4, v, 1))
    {
      hide Flat, Lookup, Tree, Used, LeavesKept, Walk, PageRange, Sound, Coherent, EntriesKept;
      ghost var m := mem;
      InvalidatePte(frame, index, vpn + k);
      KeptStep(m0, m, mem, root, vpn, k);
      RangeStep(vpn, k);
      EntriesTrans(m0, m, mem, root, PageRange(vpn, k), {vpn + k}, None);
      LeavesSurvive(m, mem, root, vpn + k);
    }

    /**
     `virtual_invalidate`: one walk per level-1 table, yet every page of the range ends up with the
     dead marker and no cached translation, and nothing else changes.
     */
    method VirtualInvalidate(p: nat, npages: nat)
      requires Valid() && p / PGSIZE + npages <= VPNS
      requires BatchStartsMapped(p / PGSIZE, npages)
      modifies this`mem, this`tlb
      ensures Valid()
      ensures FlatMap() == old(FlatMap()) - PageRange(p / PGSIZE, npages)
      ensures tlb.Keys !! PageRange(p / PGSIZE, npages)
      ensures forall v: nat :: v in PageRange(p / PGSIZE, npages) ==> Leaf(mem, root, v) == Some(PTE_INVALIDATED)
      ensures LeavesKept(old(mem), mem, root, PageRange(p / PGSIZE, npages))
      ensures EntriesKept(old(mem), mem, root, PageRange(p / PGSIZE, npages), None)
      ensures Used(mem, root) == old(Used(mem, root))
    {
      hide Flat, Lookup, Tree, Used, LeavesKept, Walk, PageRange, Sound, Coherent, Leaf, EntriesKept;
      var pageOffset := 0;
      ghost var vpn, m0, f0 := p / PGSIZE, mem, FlatMap();
      InvalidatedNone(vpn);
      while pageOffset < npages
        invariant Valid() && pageOffset <= npages
        invariant Invalidated(m0, f0, vpn, pageOffset)
        invariant pageOffset == 0 || pageOffset == npages || (vpn + pageOffset) % PT_NUM_ENTRIES == 0
      {
        var nptes := InvalidateTable(p, npages, pageOffset, vpn, m0, f0);
        pageOffset := pageOffset + nptes;
      }
      UncachedPages(PageRange(vpn, npages));
    }

    /** What is not mapped is not cached. */
    lemma UncachedPages(pages: set<nat>)
      requires Valid() && FlatMap().Keys !! pages
      ensures tlb.Keys !! pages
    {
      hide Flat, Sound;
    }

    lemma InvalidatedNone(vpn: nat)
      ensures Invalidated(mem, FlatMap(), vpn, 0)
    {
      hide Flat, Lookup, Used, Walk;
      LeavesKeptRefl(mem, root, PageRange(vpn, 0));
      EntriesRefl(mem, root, PageRange(vpn, 0), None);
    }

    lemma MappedEntryPresent(v: nat)
      requires Valid() && v in FlatMap()
      ensures Present(Word(mem, Walk(mem, root, 4, v, 1)))
    {
      hide Walk, Tree, Lookup;
      EndOfWalk(mem, root, pos, v);
    }

    /** One iteration of the outer loop of `virtual_invalidate`. */
    method InvalidateTable(p: nat, npages: nat, pageOffset: nat, ghost vpn: nat,
                           ghost m0: Mem, ghost f0: map<nat, Mapping>)
      returns (nptes: nat)
      requires Valid() && vpn == p / PGSIZE && vpn + npages <= VPNS && pageOffset < npages
      requires Invalidated(m0, f0, vpn, pageOffset)
      requires Leaf(m0, root, vpn + pageOffset).Some? && vpn + pageOffset in f0
      modifies this`mem, this`tlb
      ensures 0 < nptes <= npages - pageOffset
      ensures pageOffset + nptes == npages || (vpn + pageOffset + nptes) % PT_NUM_ENTRIES == 0
      ensures Valid() && Invalidated(m0, f0, vpn, pageOffset + nptes)
    {
      hide Flat, Lookup, Tree, Used, LeavesKept, Walk, PageRange, Sound, Coherent, Index, EntriesKept;
      var page := RoundDown(p) + pageOffset * PGSIZE;
      PagesOn(p, pageOffset);
      BatchEnd(vpn + pageOffset);
      var level, frame, index := PtWalk(page, 1);
      assert level == 1;
      MappedEntryPresent(vpn + pageOffset);
      assert Present(Read(mem, frame, index));
      var pteBaseOffset := PtLevelOffset(page, 1);
      nptes := if PT_NUM_ENTRIES - pteBaseOffset < npages - pageOffset
               then PT_NUM_ENTRIES - pteBaseOffset else npages - pageOffset;
      InvalidateBatch(frame, index, nptes, vpn, pageOffset, m0, f0);
    }
  }

  lemma LeavesSurvive(m: Mem, m': Mem, root: nat, x: nat)
    requires LeavesKept(m, m', root, {x})
    ensures forall v: nat :: v < VPNS && v != x && Leaf(m, root, v).Some? ==> Leaf(m', root, v) == Leaf(m, root, v)
  {
    hide Leaf, AtFrameZero;
  }

  lemma PagesOn(p: nat, k: nat)
    ensures (RoundDown(p) + k * PGSIZE) / PGSIZE == p / PGSIZE + k
  {
    assert RoundDown(p) == p / PGSIZE * PGSIZE;
  }

  /** The entries from a page's to the last of its level-1 table lead to the first page of the next. */
  lemma BatchEnd(v: nat)
    ensures (v + (PT_NUM_ENTRIES - Index(v, 1))) % PT_NUM_ENTRIES == 0
  {
    PageSplit(v);
    assert v + (PT_NUM_ENTRIES - Index(v, 1)) == (Prefix(v, 1) + 1) * PT_NUM_ENTRIES;
  }

  /** The entry j places on in the same table is where the walk of the page j further on ends. */
  lemma NeighbourSlot(m: Mem, root: nat, vpn: nat, j: nat)
    requires Walk(m, root, 4, vpn, 1).level == 1 && Index(vpn, 1) + j < PT_NUM_ENTRIES
    ensures var s := Walk(m, root, 4, vpn, 1); Walk(m, root, 4, vpn + j, 1) == Slot(1, s.frame, s.index + j)
  {
    SameTable(m, root, 4, vpn, vpn + j);
  }

  lemma EmptyFlat(m: Mem, root: nat)
    requires forall i: nat :: Read(m, root, i) == 0
    ensures Flat(m, root) == map[] && Used(m, root) == {}
  {
    forall v: nat | v < VPNS ensures Lookup(m, root, v) == None {
      assert !Present(Read(m, root, Index(v, 4)));
      InvalidRootEntry(m, root, v);
    }
  }

  lemma LeafInRange(m: Mem, root: nat, vpn: nat, n: nat, v: nat)
    requires HaveLeaves(m, root, vpn, n) && vpn <= v < vpn + n
    ensures Leaf(m, root, v).Some? && v < VPNS
  {}

  lemma RangeGrows(vpn: nat, k: nat, n: nat)
    requires k <= n
    ensures PageRange(vpn, k) <= PageRange(vpn, n)
  {}

  lemma UnitMultiple(k: nat, level: nat)
    requires 1 <= level <= 4
    ensures var base := k * PagesAt(level);
            base % PagesAt(level) == 0 && base * PGSIZE / PGSIZE == base && base * PGSIZE % PGSIZE == 0
  {
    if level == 1 {} else if level == 2 {} else if level == 3 {} else {}
  }

  lemma RangeHolds(vpn: nat, n: nat, x: nat)
    requires vpn <= x < vpn + n
    ensures {x} <= PageRange(vpn, n)
  {}

  lemma TakeFrame(avail: set<nat>, f: nat)
    requires f in avail
    ensures |avail - {f}| == |avail| - 1 && f !in avail - {f} && avail - {f} <= avail
    ensures f * PGSIZE % PGSIZE == 0 && f * PGSIZE / PGSIZE == f
  {}

  lemma LeavesKeptRefl(m: Mem, root: nat, s: set<nat>)
    ensures LeavesKept(m, m, root, s)
  {}

  lemma LeavesKeptTrans0(a: Mem, b: Mem, c: Mem, root: nat)
    requires LeavesKept(a, b, root, {}) && LeavesKept(b, c, root, {})
    ensures LeavesKept(a, c, root, {})
  {
    hide Leaf, AtFrameZero;
  }

  lemma LeavesKeptWeaken(m: Mem, m': Mem, root: nat, s: set<nat>, t: set<nat>)
    requires LeavesKept(m, m', root, s) && s <= t
    ensures LeavesKept(m, m', root, t)
  {
    hide Leaf, AtFrameZero;
  }

  lemma LeafWriteWalks(m: Mem, root: nat, pos: map<nat, Pos>, target: nat, w: nat)
    requires Tree(m, root, pos) && target < VPNS
    requires var s := Walk(m, root, 4, target, 1); s.level == 1 && s.frame in m && s.index < |m[s.frame]|
    ensures var s := Walk(m, root, 4, target, 1);
            forall v: nat :: v < VPNS ==> Walk(Write(m, s.frame, s.index, w), root, 4, v, 1) == Walk(m, root, 4, v, 1)
  {
    forall v: nat | v < VPNS
      ensures var s := Walk(m, root, 4, target, 1);
              Walk(Write(m, s.frame, s.index, w), root, 4, v, 1) == Walk(m, root, 4, v, 1)
    {
      LeafWriteLookup(m, root, pos, target, w, v);
    }
  }

  lemma {:induction false} LeafEnds(m: Mem, frame: nat, level: nat, vpn: nat)
    requires 1 <= level <= 4
    ensures var s := Walk(m, frame, level, vpn, 1); Present(Word(m, s)) ==> s.level == 1 || Huge(Word(m, s))
    decreases level
  {
    var w := Read(m, frame, Index(vpn, level));
    if level > 1 && !Stops(w, level, 1) { LeafEnds(m, FrameNo(w), level - 1, vpn); }
  }

  /** What the entry at the end of a walk says about the page. */
  lemma EndOfWalk(m: Mem, root: nat, pos: map<nat, Pos>, vpn: nat)
    requires Tree(m, root, pos) && vpn < VPNS
    ensures var s := Walk(m, root, 4, vpn, 1);
            var w := Word(m, s);
            && (vpn in Flat(m, root) <==> Present(w))
            && (AtFrameZero(m, root, vpn) <==> Present(w) && FrameNo(w) / PagesAt(s.level) == 0)
            && (Present(w) ==>
                 && FrameNo(w) / PagesAt(s.level) * PagesAt(s.level) == FrameNo(w)
                 && Flat(m, root)[vpn].frame == FrameNo(w) + vpn % PagesAt(s.level))
  {
    RootCovers(vpn);
    WalkPosition(m, root, pos, root, 4, vpn, 1);
    var s := Walk(m, root, 4, vpn, 1);
    LeafEnds(m, root, 4, vpn);
    assert EntryOk(m, pos, s.frame, s.index);
    hide Walk, Tree, PagesAt, Index, FrameNo;
    if Present(Word(m, s)) { FrameBase(FrameNo(Word(m, s)), PagesAt(s.level)); }
  }

  /** The offset of an address in the mapping unit of a level, split into pages and bytes. */
  lemma ByteOffset(va: nat, level: nat)
    requires 1 <= level <= 4
    ensures va % (PagesAt(level) * PGSIZE) == va / PGSIZE % PagesAt(level) * PGSIZE + va % PGSIZE
  {
    if level == 2 {
      ByteOffset2(va);
    } else if level == 3 {
      ByteOffset3(va);
    } else if level == 4 {
      ByteOffset4(va);
    }
  }

  /** The place of a page in its mapping unit does not depend on the bits above the 48th. */
  lemma UnitIgnoresHighBits(vpn: nat, level: nat)
    requires 1 <= level <= 4
    ensures vpn % VPNS % PagesAt(level) == vpn % PagesAt(level)
  {
    if level == 2 {
      HighBits2(vpn);
    } else if level == 3 {
      HighBits3(vpn);
    } else if level == 4 {
      HighBits4(vpn);
    }
  }

  lemma HighBits2(v: nat)
    ensures v % VPNS % 0x200 == v % 0x200
  {
    var r := v % VPNS;
    assert v == 0x200 * (v / VPNS * 0x800_0000 + r / 0x200) + r % 0x200;
  }

  lemma HighBits3(v: nat)
    ensures v % VPNS % 0x4_0000 == v % 0x4_0000
  {
    var r := v % VPNS;
    assert v == 0x4_0000 * (v / VPNS * 0x4_0000 + r / 0x4_0000) + r % 0x4_0000;
  }

  lemma HighBits4(v: nat)
    ensures v % VPNS % 0x800_0000 == v % 0x800_0000
  {
    var r := v % VPNS;
    assert v == 0x800_0000 * (v / VPNS * 0x200 + r / 0x800_0000) + r % 0x800_0000;
  }

  lemma ByteOffset2(va: nat)
    ensures va % 0x20_0000 == va / PGSIZE % 0x200 * PGSIZE + va % PGSIZE
  {
    var v := va / PGSIZE;
    assert va == v / 0x200 * 0x20_0000 + (v % 0x200 * PGSIZE + va % PGSIZE);
  }

  lemma ByteOffset3(va: nat)
    ensures va % 0x4000_0000 == va / PGSIZE % 0x4_0000 * PGSIZE + va % PGSIZE
  {
    var v := va / PGSIZE;
    assert va == v / 0x4_0000 * 0x4000_0000 + (v % 0x4_0000 * PGSIZE + va % PGSIZE);
  }

  lemma ByteOffset4(va: nat)
    ensures va % 0x80_0000_0000 == va / PGSIZE % 0x800_0000 * PGSIZE + va % PGSIZE
  {
    var v := va / PGSIZE;
    assert va == v / 0x800_0000 * 0x80_0000_0000 + (v % 0x800_0000 * PGSIZE + va % PGSIZE);
  }
}

/**
 The address space that the repository has on record, as `virtmem_chart_layout` printed it, before the
 allocator added its first aliases: the allocator can start on any page table with that chart.
 */
module RecordedStart {
  import opened Options
  import opened Words
  import opened PageMath
  import opened PageTree
  import opened PageTable
  import opened SeenPages
  import opened Chart
  import opened DuneMem
  import opened Machine
  import opened Runs
  import opened Steps

  const MMAP_AT := 0x7f9d_0000_0000
  const STACK_AT := 0x7fff_8000_0000
  const RECORDED := Layout(MMAP_AT, STACK_AT)

  const DATA := PTE_V + PTE_W + PTE_U
  const SUPER := PTE_V + PTE_W + PTE_NX
  const READ := PTE_V + PTE_U

  /** Addresses and lengths in pages. */
  const REGIONS: seq<Region> := [
    Region(0, 0, 0x10_0000, DATA),
    Region(0x10_0000, 0, 0x10_0000, 0),
    Region(0x20_0000, 0x20_0000, 0x10_0000, SUPER),
    Region(0x30_0000, 0, 0x7_f9a0_0000, 0),
    Region(0x7_f9d0_0000, 0x700_0000, 0xfa_5a00, DATA),
    Region(0x7_faca_5a00, 0x7fa_5a00, 0x401, SUPER),
    Region(0x7_faca_5e01, 0x7fa_5e01, 0x19e1, DATA),
    Region(0x7_faca_77e2, 0x7fa_77e2, 1, SUPER),
    Region(0x7_faca_77e3, 0x7fa_77e3, 0x1_881d, DATA),
    Region(0x7_facc_0000, 0, 0x52c_0000, 0),
    Region(0x7_fff8_0000, 0x7fc_0000, 0x6711, DATA),
    Region(0x7_fff8_6711, 0x7fc_6711, 0x22, SUPER),
    Region(0x7_fff8_6733, 0x7fc_6733, 0x13, DATA),
    Region(0x7_fff8_6746, 0x7fc_6746, 2, READ + PTE_NX),
    Region(0x7_fff8_6748, 0x7fc_6748, 2, READ),
    Region(0x7_fff8_674a, 0x7fc_674a, 0x3_98b6, DATA),
    Region(0x7_fffc_0000, 0, 0x7_fffc_183c, 0),
    Region(0xf_fff8_183c, 0x7fa_77e3, 2, PTE_V),
    Region(0xf_fff8_183e, 0, 0x7_ddc2, 0),
    Region(0xf_ffff_f600, 0x62d, 1, READ),
    Region(0xf_ffff_f601, 0, 0x9ff, 0)]

  /** Which frame the regions give to a page: the mmap region, the stack, two system pages and the vsyscall page. */
  function FrameAt(v: nat): Option<nat> {
    if v < 0x10_0000 || 0x20_0000 <= v < 0x30_0000 then Some(v)
    else if 0x7_f9d0_0000 <= v < 0x7_facc_0000 then Some(v - 0x7_f9d0_0000 + 0x700_0000)
    else if 0x7_fff8_0000 <= v < 0x7_fffc_0000 then Some(v - 0x7_fff8_0000 + 0x7fc_0000)
    else if 0xf_fff8_183c <= v < 0xf_fff8_183e then Some(v - 0xf_fff8_183c + 0x7fa_77e3)
    else if v == 0xf_ffff_f600 then Some(0x62d)
    else None
  }

  /** The region a page lies in. */
  function RegionOf(v: nat): (i: nat)
    requires v < VPNS
    ensures i < |REGIONS| && REGIONS[i].vaStart <= v < REGIONS[i].End()
  {
    if v < 0x7_f9d0_0000 then
      if v < 0x10_0000 then 0 else if v < 0x20_0000 then 1 else if v < 0x30_0000 then 2 else 3
    else if v < 0x7_fff8_0000 then
      if v < 0x7_faca_5a00 then 4 else if v < 0x7_faca_5e01 then 5 else if v < 0x7_faca_77e2 then 6
      else if v < 0x7_faca_77e3 then 7 else if v < 0x7_facc_0000 then 8 else 9
    else if v < 0x7_fffc_0000 then
      if v < 0x7_fff8_6711 then 10 else if v < 0x7_fff8_6733 then 11 else if v < 0x7_fff8_6746 then 12
      else if v < 0x7_fff8_6748 then 13 else if v < 0x7_fff8_674a then 14 else 15
    else if v < 0xf_fff8_183c then 16 else if v < 0xf_fff8_183e then 17 else if v < 0xf_ffff_f600 then 18
    else if v < 0xf_ffff_f601 then 19 else 20
  }

  lemma RegionFrame(v: nat)
    requires v < VPNS
    ensures var r := REGIONS[RegionOf(v)];
            FrameAt(v) == if r.Mapped() then Some(r.paStart + (v - r.vaStart)) else None
  {}

  /** What such a chart says of each page. */
  lemma ChartedFrame(m: Mem, root: nat, v: nat)
    requires Charts(REGIONS, m, root, VPNS) && v < VPNS
    ensures v in Flat(m, root) <==> FrameAt(v).Some?
    ensures v in Flat(m, root) ==> Flat(m, root)[v].frame == FrameAt(v).value
  {
    assert Describes(REGIONS[RegionOf(v)], m, root);
    RegionFrame(v);
    hide FrameAt, Lookup;
  }

  lemma RegionKind(i: nat)
    requires i < |REGIONS|
    ensures REGIONS[i].length > 0 && (!REGIONS[i].Mapped() ==> REGIONS[i].paStart == 0 && REGIONS[i].mappedFlags == 0)
    ensures REGIONS[i].Mapped() <==> i !in {1, 3, 9, 16, 18, 20}
  {
    if i < 7 {} else if i < 14 {} else {}
  }

  lemma RegionsTidy()
    ensures Tidy(REGIONS) && NoneEmpty(REGIONS)
  {
    hide Region.Mapped;
    forall i: nat | i < |REGIONS|
      ensures REGIONS[i].length > 0 && (!REGIONS[i].Mapped() ==> REGIONS[i].paStart == 0 && REGIONS[i].mappedFlags == 0)
      ensures REGIONS[i].Mapped() <==> i !in {1, 3, 9, 16, 18, 20}
    {
      RegionKind(i);
    }
  }

  /** On a table with that chart, `virtmem_chart_layout` can answer nothing else. */
  lemma OnlyRecorded(rs: seq<Region>, m: Mem, root: nat)
    requires Charts(REGIONS, m, root, VPNS) && Charts(rs, m, root, VPNS) && Tidy(rs) && NoneEmpty(rs)
    ensures rs == REGIONS
  {
    RegionsTidy();
    hide Charts, Tidy, NoneEmpty;
    ChartUnique(rs, REGIONS, m, root);
  }

  // ---- the allocator starts on it

  /** Pages the heap may lie on: low memory that no entry at frame 0 covers, and the mmap region. */
  predicate HeapPage(v: nat) {
    0x200 <= v < 0x10_0000 || 0x7_f9d0_0000 <= v < 0x7_facc_0000
  }

  /** The pages that the vsyscall page and the two system pages show. */
  const SHOWN: set<nat> := {0x62d, 0x7_faca_77e3, 0x7_faca_77e4}

  /** The entry of page 0 is that of a 4K or a 2M page, and there is no other at frame 0. */
  ghost predicate ZeroSmall(m: Mem, root: nat) {
    forall v: nat :: v < VPNS && AtFrameZero(m, root, v) ==> v < 0x200
  }

  lemma ZeroSmallLow(m: Mem, root: nat)
    requires ZeroSmall(m, root)
    ensures ZeroLow(m, root)
  {}

  ghost function StartState(m: Mem, root: nat, canon: set<nat>): State {
    State(RECORDED, canon, {}, Seen(m, root), Used(m, root), false, map[], map[], {})
  }

  lemma FrameKinds(v: nat, canon: set<nat>, flags: nat)
    requires 0 < v < VPNS && FrameAt(v).Some? && SHOWN <= canon
    ensures RECORDED.Ok() && PlainPage(RECORDED, canon, v, Mapping(FrameAt(v).value, flags))
    ensures HeapPage(v) ==> FrameAt(v).value == DuneFrame(RECORDED, v) && RECORDED.Canonical(v * PGSIZE)
  {
    if v >= 0xf_ffff_f600 {
      assert PaddrToVaddr(RECORDED, 0x62d * PGSIZE) / PGSIZE == 0x62d;
    } else if v >= 0xf_fff8_183c {
      var f := v - 0xf_fff8_183c + 0x7fa_77e3;
      assert PaddrToVaddr(RECORDED, f * PGSIZE) / PGSIZE == v - 0xf_fff8_183c + 0x7_faca_77e3;
    }
  }

  lemma StartHeapOk(m: Mem, root: nat, canon: set<nat>)
    requires Charts(REGIONS, m, root, VPNS) && ZeroSmall(m, root) && SHOWN <= canon && forall v :: v in canon ==> HeapPage(v)
    ensures HeapOk(StartState(m, root, canon))
  {
    hide Flat, AtFrameZero, Charts;
    forall v | v in canon ensures CanonPage(StartState(m, root, canon), v) {
      ChartedFrame(m, root, v);
      FrameKinds(v, canon, 0);
    }
  }

  lemma StartPlaces(m: Mem, root: nat, canon: set<nat>)
    requires Charts(REGIONS, m, root, VPNS) && SHOWN <= canon && 0 !in Seen(m, root)
    ensures RECORDED.Ok() && PlacesOk(StartState(m, root, canon))
  {
    hide Charts, AtFrameZero, Lookup;
    var f := Seen(m, root);
    forall v | v in f ensures RECORDED.Ok() && PlainPage(RECORDED, canon, v, f[v]) {
      ChartedFrame(m, root, v);
      FrameKinds(v, canon, f[v].flags);
    }
  }

  lemma StackFrames(v: nat)
    ensures RECORDED.InStack(v * PGSIZE) ==> v < VPNS && FrameAt(v).Some?
    ensures FrameAt(1).Some? && SlotOf(1) == 0
  {}

  lemma StartSlots(m: Mem, root: nat, canon: set<nat>)
    requires Charts(REGIONS, m, root, VPNS)
    ensures SlotsOk(StartState(m, root, canon))
  {
    hide Charts, AtFrameZero, Flat, Used, FrameAt, SlotOf, Layout.InStack;
    MappedSlots(m, root);
    FlatBelow(m, root);
    StackFrames(1);
    ChartedFrame(m, root, 1);
    forall v: nat | RECORDED.InStack(v * PGSIZE) ensures SlotOf(v) in Used(m, root) {
      StackFrames(v);
      ChartedFrame(m, root, v);
    }
  }

  /** Page 0 is mapped to frame 0. */
  lemma PageZeroUnseen(m: Mem, root: nat)
    requires Charts(REGIONS, m, root, VPNS)
    ensures 0 in Flat(m, root) && 0 !in Seen(m, root)
  {
    ChartedFrame(m, root, 0);
    FrameZeroUnseen(m, root, 0);
  }

  lemma StartEmpty(m: Mem, root: nat, canon: set<nat>)
    ensures RECORDED.Ok() && LiveOk(StartState(m, root, canon)) && PagesApart(StartState(m, root, canon))
  {
    NothingMarked(m, root);
    hide AliasPages;
  }

  /**
   The condition of the allocator's constructor holds for every page table with the recorded chart, as
   long as the heap avoids pages that `pt_resolve` does not see and the pages shown above the stack count
   as mapped for good.
   */
  lemma RecordedStartInv(m: Mem, root: nat, canon: set<nat>)
    requires Charts(REGIONS, m, root, VPNS) && ZeroSmall(m, root) && SHOWN <= canon && forall v :: v in canon ==> HeapPage(v)
    ensures Inv(State(RECORDED, canon, {}, Seen(m, root), Used(m, root), false, map[], map[], {})) && ZeroLow(m, root)
  {
    PageZeroUnseen(m, root);
    StartHeapOk(m, root, canon);
    StartPlaces(m, root, canon);
    StartSlots(m, root, canon);
    StartEmpty(m, root, canon);
    ZeroSmallLow(m, root);
    hide HeapOk, LiveOk, PagesApart, PlacesOk, SlotsOk, Charts, ZeroSmall, ZeroLow;
    InvFromParts(StartState(m, root, canon));
  }
}

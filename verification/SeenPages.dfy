/**
 What `pt_resolve` makes of the page table: every mapped page, except those of an entry at frame 0, for
 which it answers 0 as for pages that are not mapped. The lemmas carry changes of the flat map over.
 */
module SeenPages {
  import opened Options
  import opened Words
  import opened PageMath
  import opened PageTree
  import opened PageTable

  /** Entries at frame 0 cover pages of PML4 slot 0 only. */
  ghost predicate ZeroLow(m: Mem, root: nat) {
    forall v: nat :: v < VPNS && AtFrameZero(m, root, v) ==> v < PagesAt(4)
  }

  /** A page of an entry at frame 0 is mapped; if the entry is a level-1 entry, it is mapped to frame 0. */
  lemma ZeroIsMapped(m: Mem, root: nat, v: nat)
    requires v < VPNS && AtFrameZero(m, root, v)
    ensures v in Flat(m, root) && (Leaf(m, root, v).Some? ==> Flat(m, root)[v].frame == 0)
  {
    var s := Walk(m, root, 4, v, 1);
    assert Lookup(m, root, v) == Meaning(Word(m, s), s.level, v);
    if s.level == 1 { LeafMeaning(Word(m, s), v); }
  }

  /** A page mapped to frame 0 is one of an entry at frame 0. */
  lemma FrameZeroUnseen(m: Mem, root: nat, v: nat)
    requires v in Flat(m, root) && Flat(m, root)[v].frame == 0
    ensures AtFrameZero(m, root, v)
  {
    var s := Walk(m, root, 4, v, 1);
    assert Lookup(m, root, v) == Meaning(Word(m, s), s.level, v);
    hide Walk, Flat, Lookup;
    MeaningZero(Word(m, s), s.level, v);
  }

  lemma MeaningZero(w: nat, level: nat, v: nat)
    requires 1 <= level <= 4 && Meaning(w, level, v).Some? && Meaning(w, level, v).value.frame == 0
    ensures Present(w) && FrameNo(w) / PagesAt(level) == 0
  {
    hide FrameNo;
  }

  /** An entry with the dead marker maps nothing. */
  lemma MarkerUnmapped(m: Mem, root: nat, v: nat)
    requires Leaf(m, root, v) == Some(PTE_INVALIDATED)
    ensures v !in Flat(m, root)
  {
    DeadMarkerIsInvalid();
    var s := Walk(m, root, 4, v, 1);
    assert Lookup(m, root, v) == Meaning(Word(m, s), s.level, v);
  }

  /** Above slot 0, what is not seen is not mapped. */
  lemma UnseenUnmapped(m: Mem, root: nat, pages: set<nat>)
    requires ZeroLow(m, root) && Seen(m, root).Keys !! pages && forall v :: v in pages ==> PagesAt(4) <= v < VPNS
    ensures Flat(m, root).Keys !! pages
  {
    hide Flat, AtFrameZero;
  }

  lemma ZeroLowKept(m: Mem, m': Mem, root: nat, pages: set<nat>)
    requires ZeroLow(m, root) && LeavesKept(m, m', root, pages)
    requires forall v: nat :: v in pages ==> !AtFrameZero(m', root, v)
    ensures ZeroLow(m', root)
  {
    hide AtFrameZero, Leaf;
  }

  /** Pages that were not mapped are mapped to frames other than 0. */
  lemma SeenAfterMap(m: Mem, m': Mem, root: nat, vpn: nat, frame: nat, n: nat, flags: nat)
    requires Flat(m', root) == Flat(m, root) + Ramp(vpn, frame, n, flags) && frame > 0 && HaveLeaves(m', root, vpn, n)
    requires Flat(m, root).Keys !! PageRange(vpn, n) && LeavesKept(m, m', root, PageRange(vpn, n)) && ZeroLow(m, root)
    ensures Seen(m', root) == Seen(m, root) + Ramp(vpn, frame, n, flags) && ZeroLow(m', root)
  {
    hide Flat, Leaf, AtFrameZero, PageRange, Ramp;
    forall v: nat | v in PageRange(vpn, n) ensures !AtFrameZero(m', root, v) {
      RangeMember(vpn, n, v);
      if AtFrameZero(m', root, v) { ZeroIsMapped(m', root, v); }
    }
    ZeroLowKept(m, m', root, PageRange(vpn, n));
    Untouched(Flat(m, root), PageRange(vpn, n));
    Untouched(Seen(m, root), PageRange(vpn, n));
    hide ZeroLow, LeavesKept, HaveLeaves, Seen;
    SeenUpdate(m, m', root, PageRange(vpn, n), Ramp(vpn, frame, n, flags));
  }

  lemma SeenAfterOne(m: Mem, m': Mem, root: nat, v: nat, x: Mapping)
    requires Flat(m', root) == Flat(m, root)[v := x] && x.frame != 0 && v < VPNS && Leaf(m', root, v).Some?
    requires v !in Flat(m, root) && LeavesKept(m, m', root, {v}) && ZeroLow(m, root)
    ensures Seen(m', root) == Seen(m, root)[v := x] && ZeroLow(m', root)
  {
    hide Flat, Leaf, AtFrameZero;
    if AtFrameZero(m', root, v) { ZeroIsMapped(m', root, v); }
    ZeroLowKept(m, m', root, {v});
    PutOne(Flat(m, root), v, x);
    PutOne(Seen(m, root), v, x);
    hide ZeroLow, LeavesKept, Seen;
    SeenUpdate(m, m', root, {v}, map[v := x]);
  }

  lemma PutOne(f: map<nat, Mapping>, v: nat, x: Mapping)
    ensures f[v := x] == f - {v} + map[v := x]
  {}

  lemma NothingSeen(m: Mem, root: nat)
    requires Flat(m, root) == map[]
    ensures Seen(m, root) == map[] && ZeroLow(m, root)
  {
    forall v: nat | v < VPNS ensures !AtFrameZero(m, root, v) {
      if AtFrameZero(m, root, v) { ZeroIsMapped(m, root, v); }
    }
  }

  lemma RangeMember(vpn: nat, n: nat, v: nat)
    ensures v in PageRange(vpn, n) <==> vpn <= v < vpn + n
  {}

  lemma Untouched(f: map<nat, Mapping>, pages: set<nat>)
    requires f.Keys !! pages
    ensures f - pages == f && f - pages + map[] == f
  {}

  lemma SeenMember(m: Mem, m': Mem, root: nat, pages: set<nat>, change: map<nat, Mapping>, v: nat)
    requires LeavesKept(m, m', root, pages) && change.Keys <= pages && Flat(m', root) == Flat(m, root) - pages + change
    requires forall v: nat :: v in pages ==> !AtFrameZero(m', root, v)
    ensures v in Seen(m', root) <==> v in change || (v in Seen(m, root) && v !in pages)
    ensures v in Seen(m', root) ==> Seen(m', root)[v] == if v in change then change[v] else Seen(m, root)[v]
  {
    hide Leaf, AtFrameZero;
    FlatBelow(m, root);
    hide Flat, Seen;
  }

  lemma SeenUpdate(m: Mem, m': Mem, root: nat, pages: set<nat>, change: map<nat, Mapping>)
    requires LeavesKept(m, m', root, pages) && change.Keys <= pages && Flat(m', root) == Flat(m, root) - pages + change
    requires forall v: nat :: v in pages ==> !AtFrameZero(m', root, v)
    ensures Seen(m', root) == Seen(m, root) - pages + change
  {
    hide Leaf, AtFrameZero, Flat, Seen, LeavesKept;
    var f, f' := Seen(m, root), Seen(m', root);
    forall v: nat
      ensures v in f' <==> v in change || (v in f && v !in pages)
      ensures v in f' ==> f'[v] == if v in change then change[v] else f[v]
    {
      SeenMember(m, m', root, pages, change, v);
    }
    MapChanged(f, f', pages, change);
  }

  lemma MapChanged(f: map<nat, Mapping>, f': map<nat, Mapping>, pages: set<nat>, change: map<nat, Mapping>)
    requires forall v: nat :: v in f' <==> v in change || (v in f && v !in pages)
    requires forall v: nat :: v in f' ==> f'[v] == if v in change then change[v] else f[v]
    ensures f' == f - pages + change
  {
    var g := f - pages + change;
    assert f'.Keys == g.Keys;
  }

  lemma FlatBelow(m: Mem, root: nat)
    ensures forall v :: v in Flat(m, root) ==> v < VPNS
  {}

  /** The mapping of unmapped pages was given up again. */
  lemma SeenSame(m: Mem, m': Mem, root: nat, pages: set<nat>)
    requires Flat(m', root) == Flat(m, root) && Flat(m, root).Keys !! pages && LeavesKept(m, m', root, pages) && ZeroLow(m, root)
    requires forall v :: v in pages ==> v < VPNS
    ensures Seen(m', root) == Seen(m, root) && ZeroLow(m', root)
  {
    hide Flat, Leaf, AtFrameZero;
    forall v: nat | v in pages ensures !AtFrameZero(m', root, v) {
      if AtFrameZero(m', root, v) { ZeroIsMapped(m', root, v); }
    }
    ZeroLowKept(m, m', root, pages);
    Untouched(Flat(m, root), pages);
    Untouched(Seen(m, root), pages);
    SeenUpdate(m, m', root, pages, map[]);
  }

  /** Pages lose their mapping. */
  lemma SeenAfterKill(m: Mem, m': Mem, root: nat, pages: set<nat>)
    requires Flat(m', root) == Flat(m, root) - pages && LeavesKept(m, m', root, pages) && ZeroLow(m, root)
    requires forall v :: v in pages ==> v < VPNS
    ensures Seen(m', root) == Seen(m, root) - pages && ZeroLow(m', root)
  {
    hide Flat, Leaf, AtFrameZero;
    forall v: nat | v in pages ensures !AtFrameZero(m', root, v) {
      if AtFrameZero(m', root, v) { ZeroIsMapped(m', root, v); }
    }
    ZeroLowKept(m, m', root, pages);
    assert Flat(m, root) - pages + map[] == Flat(m, root) - pages;
    assert Seen(m, root) - pages + map[] == Seen(m, root) - pages;
    SeenUpdate(m, m', root, pages, map[]);
  }
}

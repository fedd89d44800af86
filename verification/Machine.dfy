/**
 The allocator as a state machine over pages. A state says which pages are free, which are mapped to
 what, which blocks the system allocator has handed out, which pointers the program holds, and which
 alias pages are dead. `Inv` is kept by every step, and so holds in every reachable state.
 */
module Machine {
  import opened PageMath
  import opened PageTree
  import opened PageTable
  import opened DuneMem

  /** A pointer held by the program: its canonical block, that block's usable size, and whether it is an alias. */
  datatype Held = Held(c: nat, n: nat, remapped: bool)

  datatype State = State(
    lay: Layout,
    /** pages mapped for good as Dune maps them: those that back the system heap, and those system pages show */
    canon: set<nat>,
    /** pages the virtual page allocator can hand out */
    free: set<nat>,
    /** the page table, without pages that an entry at frame 0 maps: `pt_resolve` does not see those */
    flat: map<nat, Mapping>,
    /** PML4 slots with a nonzero root entry */
    used: set<nat>,
    /** whether auto-dedication has happened */
    dedicated: bool,
    /** the system allocator's blocks, with their usable sizes */
    blocks: map<nat, nat>,
    live: map<nat, Held>,
    dead: set<nat>)

  ghost predicate InAlias(live: map<nat, Held>, p: nat, v: nat) {
    p in live && live[p].remapped && v in SpannedPages(p, live[p].n)
  }

  /** The alias pages of all live pointers. */
  ghost function AliasPages(live: map<nat, Held>): (r: set<nat>)
    ensures forall v: nat :: v in r <==> exists p: nat :: InAlias(live, p, v)
  {
    set p: nat, v: nat | p in live && v in SpannedPages(p, live[p].n) && InAlias(live, p, v) :: v
  }

  /** A page the allocator may ever hand out: above PML4 slot 0, inside the address space, not a stack page. */
  ghost predicate Placeable(lay: Layout, v: nat) {
    PagesAt(4) <= v < VPNS && !lay.InStack(v * PGSIZE)
  }

  /** The frame Dune's own mapping gives to a page. */
  ghost function DuneFrame(lay: Layout, v: nat): nat
    requires lay.Ok()
  {
    VaToPa(lay, v * PGSIZE) / PGSIZE
  }

  predicate AboveStack(lay: Layout, v: nat) { v * PGSIZE >= lay.stackBase + GPA_STACK_SIZE }

  /**
   A page mapped as Dune maps it: by its translation, but neither page 0 nor a page of the identity
   image of mmap()ed memory, since Dune maps only low memory to itself.
   */
  ghost predicate DunePage(lay: Layout, v: nat, m: Mapping)
    requires lay.Ok()
  {
    0 < v < VPNS && !AboveStack(lay, v) && m.frame == DuneFrame(lay, v) && !(MMAP_PA_BASE <= v * PGSIZE < STACK_PA_BASE)
  }

  /** A page Dune maps above the stack, such as the vsyscall page: it shows memory that is mapped elsewhere too. */
  ghost predicate SystemPage(lay: Layout, canon: set<nat>, v: nat, m: Mapping)
    requires lay.Ok()
  {
    && v < VPNS && AboveStack(lay, v) && 0 < m.frame && BelowStack(m.frame * PGSIZE)
    && PaddrToVaddr(lay, m.frame * PGSIZE) / PGSIZE in canon
  }

  ghost predicate PlainPage(lay: Layout, canon: set<nat>, v: nat, m: Mapping)
    requires lay.Ok()
  {
    DunePage(lay, v, m) || SystemPage(lay, canon, v, m)
  }

  ghost predicate CanonPage(s: State, v: nat)
    requires s.lay.Ok()
  {
    && v in s.flat && s.flat[v].frame == DuneFrame(s.lay, v)
    && 0 < v < VPNS && s.lay.Canonical(v * PGSIZE)
  }

  /** What the system allocator promises of a block. */
  ghost predicate BlockOk(lay: Layout, canon: set<nat>, c: nat, n: nat) {
    PGSIZE <= c && OneRegion(lay, c, n) && SpannedPages(c, n) <= canon
  }

  predicate Apart(c: nat, n: nat, d: nat, k: nat) { c + n <= d || d + k <= c }

  ghost predicate HeapOk(s: State) {
    && s.lay.Ok()
    && (forall v :: v in s.canon ==> CanonPage(s, v))
    && (forall c :: c in s.blocks ==> BlockOk(s.lay, s.canon, c, s.blocks[c]))
    && (forall c, d :: c in s.blocks && d in s.blocks && c != d ==> Apart(c, s.blocks[c], d, s.blocks[d]))
  }

  /** The alias pages of p show the frames of its canonical block, in order. */
  ghost predicate AliasOk(s: State, p: nat)
    requires p in s.live && s.lay.Ok()
  {
    var h := s.live[p];
    && p % PGSIZE == h.c % PGSIZE
    && (forall v: nat :: v in SpannedPages(p, h.n) ==>
         Placeable(s.lay, v) && v in s.flat && s.flat[v].frame == VaToPa(s.lay, h.c) / PGSIZE + (v - p / PGSIZE))
  }

  ghost predicate HeldOk(s: State, p: nat)
    requires p in s.live && s.lay.Ok()
  {
    var h := s.live[p];
    && h.c in s.blocks && s.blocks[h.c] == h.n
    && (if h.remapped then AliasOk(s, p) else p == h.c)
  }

  /** Two pointers held at once have different blocks and share no alias page. */
  ghost predicate Separate(live: map<nat, Held>, p: nat, q: nat)
    requires p in live && q in live
  {
    && live[p].c != live[q].c
    && (live[p].remapped && live[q].remapped ==> SpannedPages(p, live[p].n) !! SpannedPages(q, live[q].n))
  }

  ghost predicate LiveOk(s: State)
    requires s.lay.Ok()
  {
    && (forall p :: p in s.live ==> HeldOk(s, p))
    && (forall p, q :: p in s.live && q in s.live && p != q ==> Separate(s.live, p, q))
  }

  /** Free, mapped and dead pages are kept apart. */
  ghost predicate PagesApart(s: State) {
    && (forall v :: v in s.free ==> v !in s.flat && v !in s.dead)
    && (forall v :: v in s.dead ==> v !in s.flat)
    && (forall v :: v in AliasPages(s.live) ==> v !in s.canon)
  }

  ghost predicate PlacesOk(s: State)
    requires s.lay.Ok()
  {
    && (forall v :: v in s.free ==> Placeable(s.lay, v))
    && (forall v :: v in s.flat && v !in AliasPages(s.live) ==> PlainPage(s.lay, s.canon, v, s.flat[v]))
  }

  /** Page tables are never torn down, so a page that is or was mapped lies in a used PML4 slot. */
  ghost predicate SlotsOk(s: State) {
    && (forall v :: v in s.flat || v in s.dead ==> v < VPNS && SlotOf(v) in s.used)
    && 0 in s.used
    && (forall v: nat :: s.lay.InStack(v * PGSIZE) ==> SlotOf(v) in s.used)
    && (!s.dedicated ==> forall v :: v in s.free ==> SlotOf(v) in s.used)
  }

  ghost predicate Inv(s: State) {
    HeapOk(s) && LiveOk(s) && PagesApart(s) && PlacesOk(s) && SlotsOk(s)
  }

  /** No pointer held by the program has this block. */
  ghost predicate Unowned(s: State, c: nat) {
    forall p :: p in s.live ==> s.live[p].c != c
  }

  datatype Event =
    /** `dangless_dedicate_vmem` on pages of a used slot, or of any slot once auto-dedication is over */
    | Dedicate(pages: set<nat>)
    /** auto-dedication of pages in PML4 slots whose root entry is zero */
    | AutoDedicate(pages: set<nat>)
    /** the system allocator hands out, resizes in place, or takes back a block */
    | SysAlloc(c: nat, n: nat)
    | SysResize(p: nat, n: nat)
    | SysFree(c: nat)
    /** a block becomes visible to the program, through an alias or, as a fallback, directly */
    | Remap(p: nat, c: nat, n: nat, flags: nat, used: set<nat>)
    | Fallback(c: nat)
    /** pages handed out by the page allocator whose mapping failed and that could not be given back */
    | Lose(pages: set<nat>, used: set<nat>)
    /** the program gives up a pointer; the pages of an alias die */
    | Release(p: nat)

  ghost predicate Step(a: State, e: Event, b: State) {
    match e
    case Dedicate(pages) =>
      && (forall v :: v in pages ==> Placeable(a.lay, v) && (!a.dedicated ==> SlotOf(v) in a.used))
      && (forall v :: v in pages ==> v !in a.free && v !in a.flat && v !in a.dead)
      && b == a.(free := a.free + pages)
    case AutoDedicate(pages) =>
      && !a.dedicated && (forall v :: v in pages ==> v < VPNS && SlotOf(v) !in a.used)
      && b == a.(free := a.free + pages, dedicated := true)
    case SysAlloc(c, n) =>
      && c !in a.blocks && BlockOk(a.lay, a.canon, c, n)
      && (forall d :: d in a.blocks ==> Apart(c, n, d, a.blocks[d]))
      && b == a.(blocks := a.blocks[c := n])
    case SysResize(p, n) =>
      && p in a.live && a.live[p].remapped && n > 0
      && NumSpannedPages(p, n) <= NumSpannedPages(p, a.live[p].n)
      && var c := a.live[p].c;
      && BlockOk(a.lay, a.canon, c, n)
      && (forall d :: d in a.blocks && d != c ==> Apart(c, n, d, a.blocks[d]))
      && var gone := SpannedPages(p, a.live[p].n) - SpannedPages(p, n);
      && b == a.(blocks := a.blocks[c := n], live := a.live[p := Held(c, n, true)],
                 flat := a.flat - gone, dead := a.dead + gone)
    case SysFree(c) =>
      && c in a.blocks && Unowned(a, c)
      && b == a.(blocks := a.blocks - {c})
    case Remap(p, c, n, flags, used) =>
      && c in a.blocks && a.blocks[c] == n && Unowned(a, c) && a.lay.Ok()
      && p % PGSIZE == c % PGSIZE && SpannedPages(p, n) <= a.free
      && (forall i :: i in a.used ==> i in used) && (forall v :: v in SpannedPages(p, n) ==> SlotOf(v) in used)
      && b == a.(free := a.free - SpannedPages(p, n), live := a.live[p := Held(c, n, true)], used := used,
                 flat := a.flat + Ramp(p / PGSIZE, VaToPa(a.lay, c) / PGSIZE, NumSpannedPages(p, n), flags))
    case Fallback(c) =>
      && c in a.blocks && Unowned(a, c) && c !in a.live
      && b == a.(live := a.live[c := Held(c, a.blocks[c], false)])
    case Lose(pages, used) =>
      && pages <= a.free && (forall i :: i in a.used ==> i in used)
      && b == a.(free := a.free - pages, used := used)
    case Release(p) =>
      && p in a.live
      && var gone := if a.live[p].remapped then SpannedPages(p, a.live[p].n) else {};
      && b == a.(live := a.live - {p}, flat := a.flat - gone, dead := a.dead + gone)
  }

  lemma HeldKept(a: State, b: State, p: nat)
    requires a.lay.Ok() && b.lay == a.lay && p in a.live && HeldOk(a, p)
    requires p in b.live && b.live[p] == a.live[p]
    requires a.live[p].c in b.blocks && b.blocks[a.live[p].c] == a.blocks[a.live[p].c]
    requires a.live[p].remapped ==> forall v: nat :: v in SpannedPages(p, a.live[p].n) && v in a.flat ==> v in b.flat && b.flat[v] == a.flat[v]
    ensures HeldOk(b, p)
  {
    hide SpannedPages, Placeable;
  }

  /** Facts about any state that satisfies the invariant. */
  lemma Basics(s: State)
    requires Inv(s)
    ensures s.lay.Ok() && forall v :: v in s.canon ==> v in s.flat
    ensures forall p :: p in s.live ==> s.live[p].c in s.blocks && s.blocks[s.live[p].c] == s.live[p].n
  {
    forall v | v in s.canon ensures v in s.flat { assert CanonPage(s, v); }
    forall p | p in s.live ensures s.live[p].c in s.blocks && s.blocks[s.live[p].c] == s.live[p].n { assert HeldOk(s, p); }
  }

  /** Every held pointer stays as it was. */
  lemma AllHeldKept(a: State, b: State)
    requires a.lay.Ok() && b.lay == a.lay && LiveOk(a) && b.live == a.live && b.flat == a.flat
    requires forall p :: p in a.live ==> a.live[p].c in b.blocks && b.blocks[a.live[p].c] == a.blocks[a.live[p].c]
    ensures LiveOk(b)
  {
    forall p | p in b.live ensures HeldOk(b, p) {
      assert HeldOk(a, p);
      HeldKept(a, b, p);
    }
  }

  lemma CanonKept(a: State, b: State)
    requires HeapOk(a) && b.lay == a.lay && b.canon == a.canon
    requires forall v :: v in a.canon ==> v in b.flat && b.flat[v] == a.flat[v]
    ensures forall v :: v in b.canon ==> CanonPage(b, v)
  {
    forall v | v in b.canon ensures CanonPage(b, v) { assert CanonPage(a, v); }
  }

  /** The heap is untouched and its pages keep their mapping. */
  lemma HeapKept(a: State, b: State)
    requires HeapOk(a) && b.lay == a.lay && b.canon == a.canon && b.blocks == a.blocks
    requires forall v :: v in a.canon ==> v in b.flat && b.flat[v] == a.flat[v]
    ensures HeapOk(b)
  {
    hide CanonPage, BlockOk, Apart;
    CanonKept(a, b);
  }

  lemma InvParts(s: State)
    requires Inv(s)
    ensures HeapOk(s) && s.lay.Ok() && LiveOk(s) && PagesApart(s) && PlacesOk(s) && SlotsOk(s)
  {}

  lemma InvFromParts(s: State)
    requires HeapOk(s) && LiveOk(s) && PagesApart(s) && PlacesOk(s) && SlotsOk(s)
    ensures Inv(s)
  {}

  /** Fresh pages join the free ones: one lemma for each part of the invariant about pages. */
  lemma ApartGrow(a: State, b: State, pages: set<nat>)
    requires PagesApart(a) && b.flat == a.flat && b.dead == a.dead && b.live == a.live && b.canon == a.canon
    requires b.free == a.free + pages && forall v :: v in pages ==> v !in a.flat && v !in a.dead
    ensures PagesApart(b)
  {
    hide AliasPages;
  }

  lemma PlacesGrow(a: State, b: State, pages: set<nat>)
    requires a.lay.Ok() && PlacesOk(a) && b.lay == a.lay && b.canon == a.canon && b.flat == a.flat && b.live == a.live
    requires b.free == a.free + pages && forall v :: v in pages ==> Placeable(a.lay, v)
    ensures PlacesOk(b)
  {
    hide AliasPages, Placeable, PlainPage;
  }

  lemma SlotsGrow(a: State, b: State, pages: set<nat>)
    requires SlotsOk(a) && b.lay == a.lay && b.flat == a.flat && b.dead == a.dead && b.used == a.used
    requires b.free == a.free + pages
    requires !b.dedicated ==> !a.dedicated && forall v :: v in pages ==> SlotOf(v) in a.used
    ensures SlotsOk(b)
  {
    hide SlotOf;
  }

  lemma FreeGrows(a: State, b: State, pages: set<nat>)
    requires Inv(a) && b == a.(free := a.free + pages, dedicated := b.dedicated)
    requires forall v :: v in pages ==> v !in a.flat && v !in a.dead && a.lay.Ok() && Placeable(a.lay, v)
    requires !b.dedicated ==> !a.dedicated && forall v :: v in pages ==> SlotOf(v) in a.used
    ensures Inv(b)
  {
    InvParts(a);
    Basics(a);
    HeapKept(a, b);
    AllHeldKept(a, b);
    hide Inv, HeapOk, LiveOk, PagesApart, PlacesOk, SlotsOk, Placeable, SlotOf;
    ApartGrow(a, b, pages);
    PlacesGrow(a, b, pages);
    SlotsGrow(a, b, pages);
    InvFromParts(b);
  }

  lemma DedicateKeeps(a: State, pages: set<nat>, b: State)
    requires Inv(a) && Step(a, Dedicate(pages), b)
    ensures Inv(b)
  {
    InvParts(a);
    hide Inv, Placeable, SlotOf, HeapOk, LiveOk, PagesApart, PlacesOk, SlotsOk;
    FreeGrows(a, b, pages);
  }

  lemma UnusedSlotIsFresh(a: State, v: nat)
    requires Inv(a) && !a.dedicated && v < VPNS && SlotOf(v) !in a.used
    ensures v !in a.free && v !in a.flat && v !in a.dead && Placeable(a.lay, v)
  {}

  lemma UnusedSlotsAreFresh(a: State, pages: set<nat>)
    requires Inv(a) && !a.dedicated && forall v :: v in pages ==> v < VPNS && SlotOf(v) !in a.used
    ensures forall v :: v in pages ==> v !in a.free && v !in a.flat && v !in a.dead && Placeable(a.lay, v)
  {
    hide Inv, Placeable, SlotOf;
    forall v | v in pages ensures v !in a.free && v !in a.flat && v !in a.dead && Placeable(a.lay, v) {
      UnusedSlotIsFresh(a, v);
    }
  }

  lemma AutoDedicateKeeps(a: State, pages: set<nat>, b: State)
    requires Inv(a) && Step(a, AutoDedicate(pages), b)
    ensures Inv(b)
  {
    InvParts(a);
    UnusedSlotsAreFresh(a, pages);
    hide Inv, Placeable, SlotOf, HeapOk, LiveOk, PagesApart, PlacesOk, SlotsOk;
    FreeGrows(a, b, pages);
  }

  /** Pages stay what they are, except that some are no longer free and more slots are used. */
  lemma ApartShrink(a: State, b: State)
    requires PagesApart(a) && b.flat == a.flat && b.dead == a.dead && b.canon == a.canon
    requires b.free <= a.free && AliasPages(b.live) == AliasPages(a.live)
    ensures PagesApart(b)
  {
    hide AliasPages;
  }

  lemma PlacesShrink(a: State, b: State)
    requires a.lay.Ok() && PlacesOk(a) && b.lay == a.lay && b.canon == a.canon && b.flat == a.flat
    requires b.free <= a.free && AliasPages(b.live) == AliasPages(a.live)
    ensures PlacesOk(b)
  {
    hide AliasPages, Placeable, PlainPage;
  }

  lemma SlotsShrink(a: State, b: State)
    requires SlotsOk(a) && b.lay == a.lay && b.flat == a.flat && b.dead == a.dead && b.dedicated == a.dedicated
    requires b.free <= a.free && a.used <= b.used
    ensures SlotsOk(b)
  {
    hide SlotOf;
  }

  lemma PagesShrink(a: State, b: State)
    requires Inv(a) && b == a.(free := b.free, used := b.used, blocks := b.blocks, live := b.live)
    requires b.free <= a.free && a.used <= b.used && AliasPages(b.live) == AliasPages(a.live)
    requires HeapOk(b) && LiveOk(b)
    ensures Inv(b)
  {
    InvParts(a);
    hide Inv, HeapOk, LiveOk, PagesApart, PlacesOk, SlotsOk, AliasPages;
    ApartShrink(a, b);
    PlacesShrink(a, b);
    SlotsShrink(a, b);
    InvFromParts(b);
  }

  /** A block that is new, or new in its size, stays apart from the others. */
  lemma BlocksApart(blocks: map<nat, nat>, c: nat, n: nat, d: nat, e: nat)
    requires forall i, j :: i in blocks && j in blocks && i != j ==> Apart(i, blocks[i], j, blocks[j])
    requires forall i :: i in blocks && i != c ==> Apart(c, n, i, blocks[i])
    requires (d in blocks || d == c) && (e in blocks || e == c) && d != e
    ensures Apart(d, blocks[c := n][d], e, blocks[c := n][e])
  {
    if d == c { assert Apart(c, n, e, blocks[e]); }
    else if e == c { assert Apart(c, n, d, blocks[d]); }
    else { assert Apart(d, blocks[d], e, blocks[e]); }
  }

  /** A block of the heap is set. */
  lemma HeapSet(a: State, c: nat, n: nat, b: State)
    requires HeapOk(a) && BlockOk(a.lay, a.canon, c, n) && b.blocks == a.blocks[c := n]
    requires forall d :: d in a.blocks && d != c ==> Apart(c, n, d, a.blocks[d])
    requires b.lay == a.lay && b.canon == a.canon
    requires forall v :: v in a.canon ==> v in b.flat && b.flat[v] == a.flat[v]
    ensures HeapOk(b)
  {
    hide CanonPage, BlockOk, Apart;
    CanonKept(a, b);
    forall d, e | d in b.blocks && e in b.blocks && d != e ensures Apart(d, b.blocks[d], e, b.blocks[e]) {
      BlocksApart(a.blocks, c, n, d, e);
    }
  }

  lemma HeapDrop(a: State, c: nat, b: State)
    requires HeapOk(a) && Step(a, SysFree(c), b)
    ensures HeapOk(b)
  {
    hide BlockOk, Apart, Unowned;
    CanonKept(a, b);
    hide CanonPage;
  }

  lemma SysAllocKeeps(a: State, c: nat, n: nat, b: State)
    requires Inv(a) && Step(a, SysAlloc(c, n), b)
    ensures Inv(b)
  {
    InvParts(a);
    Basics(a);
    hide Inv, HeapOk, LiveOk, PagesApart, PlacesOk, SlotsOk, AliasPages, BlockOk, Apart;
    HeapSet(a, c, n, b);
    AllHeldKept(a, b);
    PagesShrink(a, b);
  }

  lemma SysFreeKeeps(a: State, c: nat, b: State)
    requires Inv(a) && Step(a, SysFree(c), b)
    ensures Inv(b)
  {
    InvParts(a);
    Basics(a);
    hide Inv, HeapOk, LiveOk, PagesApart, PlacesOk, SlotsOk, AliasPages;
    HeapDrop(a, c, b);
    AllHeldKept(a, b);
    PagesShrink(a, b);
  }

  lemma LoseMeans(a: State, pages: set<nat>, used: set<nat>, b: State)
    requires Step(a, Lose(pages, used), b)
    ensures b == a.(free := a.free - pages, used := used) && b.free <= a.free && a.used <= b.used
  {}

  lemma LoseKeeps(a: State, pages: set<nat>, used: set<nat>, b: State)
    requires Inv(a) && Step(a, Lose(pages, used), b)
    ensures Inv(b)
  {
    hide Step, Inv;
    InvParts(a);
    Basics(a);
    LoseMeans(a, pages, used, b);
    hide  HeapOk, LiveOk, PagesApart, PlacesOk, SlotsOk, AliasPages;
    HeapKept(a, b);
    AllHeldKept(a, b);
    PagesShrink(a, b);
  }

  /** A pointer that is not an alias adds no alias pages. */
  lemma AliasPagesPlain(live: map<nat, Held>, c: nat, n: nat)
    requires c !in live
    ensures AliasPages(live[c := Held(c, n, false)]) == AliasPages(live)
  {
    var live' := live[c := Held(c, n, false)];
    forall p: nat, v: nat ensures InAlias(live', p, v) <==> InAlias(live, p, v) {}
    forall v: nat ensures v in AliasPages(live') <==> v in AliasPages(live) {
      SameMembers(live, live', v);
      SameMembers(live', live, v);
    }
  }

  lemma SameMembers(live: map<nat, Held>, live': map<nat, Held>, v: nat)
    requires forall p: nat :: InAlias(live, p, v) ==> InAlias(live', p, v)
    ensures v in AliasPages(live) ==> v in AliasPages(live')
  {}

  lemma FallbackLive(a: State, c: nat, b: State)
    requires a.lay.Ok() && LiveOk(a) && Step(a, Fallback(c), b)
    ensures LiveOk(b)
  {
    forall p | p in b.live ensures HeldOk(b, p) {
      if p != c {
        assert HeldOk(a, p);
        HeldKept(a, b, p);
      }
    }
    forall p, q | p in b.live && q in b.live && p != q ensures Separate(b.live, p, q) {
      if p != c && q != c { assert Separate(a.live, p, q); }
    }
  }

  lemma FallbackKeeps(a: State, c: nat, b: State)
    requires Inv(a) && Step(a, Fallback(c), b)
    ensures Inv(b)
  {
    InvParts(a);
    Basics(a);
    hide Inv, HeapOk, LiveOk, PagesApart, PlacesOk, SlotsOk, AliasPages;
    AliasPagesPlain(a.live, c, a.blocks[c]);
    FallbackLive(a, c, b);
    HeapKept(a, b);
    PagesShrink(a, b);
  }

  /** The alias pages that belong to pointer p. */
  ghost function OwnPages(live: map<nat, Held>, p: nat): set<nat>
    requires p in live
  {
    if live[p].remapped then SpannedPages(p, live[p].n) else {}
  }

  lemma ReleasedMember(s: State, p: nat, v: nat)
    requires s.lay.Ok() && LiveOk(s) && p in s.live
    ensures v in AliasPages(s.live - {p}) <==> v in AliasPages(s.live) && v !in OwnPages(s.live, p)
  {
    var live' := s.live - {p};
    if v in AliasPages(live') {
      var q: nat :| InAlias(live', q, v);
      assert InAlias(s.live, q, v) && Separate(s.live, p, q);
    }
    if v in AliasPages(s.live) && v !in OwnPages(s.live, p) {
      var q: nat :| InAlias(s.live, q, v);
      assert InAlias(live', q, v);
    }
  }

  /** Giving up pointer p removes exactly its own pages from the alias pages. */
  lemma AliasPagesRelease(s: State, p: nat)
    requires s.lay.Ok() && LiveOk(s) && p in s.live
    ensures AliasPages(s.live - {p}) == AliasPages(s.live) - OwnPages(s.live, p)
    ensures OwnPages(s.live, p) <= AliasPages(s.live)
  {
    forall v: nat ensures v in AliasPages(s.live - {p}) <==> v in AliasPages(s.live) && v !in OwnPages(s.live, p) {
      ReleasedMember(s, p, v);
    }
    forall v: nat | v in OwnPages(s.live, p) ensures v in AliasPages(s.live) {
      assert InAlias(s.live, p, v);
    }
  }

  /** Alias pages are mapped. */
  lemma AliasMapped(s: State)
    requires s.lay.Ok() && LiveOk(s)
    ensures forall v: nat :: v in AliasPages(s.live) ==> v in s.flat && Placeable(s.lay, v)
  {
    forall v: nat | v in AliasPages(s.live) ensures v in s.flat && Placeable(s.lay, v) {
      var p: nat :| InAlias(s.live, p, v);
      assert HeldOk(s, p);
    }
  }

  /** Page 0 is neither an alias page nor seen otherwise. */
  lemma NoPageZero(s: State)
    requires Inv(s)
    ensures 0 !in s.flat
  {
    AliasMapped(s);
  }

  lemma ReleaseLive(a: State, p: nat, b: State)
    requires a.lay.Ok() && LiveOk(a) && Step(a, Release(p), b)
    ensures LiveOk(b)
  {
    forall q | q in b.live ensures HeldOk(b, q) {
      assert HeldOk(a, q) && Separate(a.live, p, q);
      HeldKept(a, b, q);
    }
    forall q, r | q in b.live && r in b.live && q != r ensures Separate(b.live, q, r) {
      assert Separate(a.live, q, r);
    }
  }

  /** Alias pages die: one lemma for each part of the invariant about pages. */
  lemma ApartKill(a: State, b: State, gone: set<nat>)
    requires PagesApart(a) && b.canon == a.canon && b.free == a.free
    requires b.flat == a.flat - gone && b.dead == a.dead + gone && AliasPages(b.live) == AliasPages(a.live) - gone
    requires forall v :: v in gone ==> v in a.flat
    ensures PagesApart(b)
  {
    hide AliasPages;
  }

  lemma PlacesKill(a: State, b: State, gone: set<nat>)
    requires a.lay.Ok() && PlacesOk(a) && b.lay == a.lay && b.canon == a.canon && b.free == a.free
    requires b.flat == a.flat - gone && AliasPages(b.live) == AliasPages(a.live) - gone
    ensures PlacesOk(b)
  {
    hide AliasPages, Placeable, PlainPage;
  }

  lemma SlotsKill(a: State, b: State, gone: set<nat>)
    requires SlotsOk(a) && b.lay == a.lay && b.free == a.free && b.used == a.used && b.dedicated == a.dedicated
    requires b.flat == a.flat - gone && b.dead == a.dead + gone && forall v :: v in gone ==> v in a.flat
    ensures SlotsOk(b)
  {
    hide SlotOf;
  }

  lemma PagesKill(a: State, b: State, gone: set<nat>)
    requires Inv(a) && b == a.(flat := a.flat - gone, dead := a.dead + gone, blocks := b.blocks, live := b.live)
    requires gone <= AliasPages(a.live) && AliasPages(b.live) == AliasPages(a.live) - gone
    requires HeapOk(b) && LiveOk(b)
    ensures Inv(b)
  {
    InvParts(a);
    AliasMapped(a);
    hide Inv, HeapOk, LiveOk, PagesApart, PlacesOk, SlotsOk, AliasPages, Placeable;
    ApartKill(a, b, gone);
    PlacesKill(a, b, gone);
    SlotsKill(a, b, gone);
    InvFromParts(b);
  }

  lemma CanonOutlivesAliases(a: State, b: State, gone: set<nat>)
    requires Inv(a) && b.flat == a.flat - gone && gone <= AliasPages(a.live)
    ensures forall v :: v in a.canon ==> v in b.flat && b.flat[v] == a.flat[v]
  {
    hide AliasPages, LiveOk, PlacesOk, SlotsOk;
    Basics(a);
  }

  lemma ReleaseKeeps(a: State, p: nat, b: State)
    requires Inv(a) && Step(a, Release(p), b)
    ensures Inv(b)
  {
    InvParts(a);
    hide Inv, HeapOk, LiveOk, PagesApart, PlacesOk, SlotsOk, AliasPages, SpannedPages;
    ReleaseLive(a, p, b);
    AliasPagesRelease(a, p);
    CanonOutlivesAliases(a, b, OwnPages(a.live, p));
    HeapKept(a, b);
    PagesKill(a, b, OwnPages(a.live, p));
  }

  lemma AddedMember(live: map<nat, Held>, p: nat, c: nat, n: nat, v: nat)
    requires p !in live
    ensures v in AliasPages(live[p := Held(c, n, true)]) <==> v in AliasPages(live) || v in SpannedPages(p, n)
  {
    var live' := live[p := Held(c, n, true)];
    if v in AliasPages(live') {
      var q: nat :| InAlias(live', q, v);
      assert q != p ==> InAlias(live, q, v);
    }
    if v in AliasPages(live) {
      var q: nat :| InAlias(live, q, v);
      assert InAlias(live', q, v);
    }
    if v in SpannedPages(p, n) { assert InAlias(live', p, v); }
  }

  lemma AliasPagesAdd(live: map<nat, Held>, p: nat, c: nat, n: nat)
    requires p !in live
    ensures AliasPages(live[p := Held(c, n, true)]) == AliasPages(live) + SpannedPages(p, n)
  {
    forall v: nat
      ensures v in AliasPages(live[p := Held(c, n, true)]) <==> v in AliasPages(live) || v in SpannedPages(p, n)
    {
      AddedMember(live, p, c, n, v);
    }
  }

  /** The first page of a held pointer is mapped. */
  lemma HeldPageMapped(s: State, p: nat)
    requires Inv(s) && p in s.live
    ensures p / PGSIZE in s.flat
  {
    assert HeldOk(s, p);
    var h := s.live[p];
    assert BlockOk(s.lay, s.canon, h.c, h.n);
    SpannedPagesBounds(p, h.n);
    assert p / PGSIZE in SpannedPages(p, h.n);
    assert !h.remapped ==> CanonPage(s, p / PGSIZE);
  }

  /** A pointer into free pages is not held. */
  lemma FreePointerIsNew(s: State, p: nat, n: nat)
    requires Inv(s) && n > 0 && SpannedPages(p, n) <= s.free
    ensures p !in s.live
  {
    SpannedPagesBounds(p, n);
    assert p / PGSIZE in s.free;
    if p in s.live { HeldPageMapped(s, p); }
  }

  lemma RemapLive(a: State, p: nat, c: nat, n: nat, flags: nat, used: set<nat>, b: State)
    requires a.lay.Ok() && LiveOk(a) && Step(a, Remap(p, c, n, flags, used), b) && p !in a.live
    requires forall v :: v in a.free ==> v !in a.flat && Placeable(a.lay, v)
    ensures LiveOk(b)
  {
    AliasMapped(a);
    forall q | q in b.live ensures HeldOk(b, q) {
      if q != p {
        assert HeldOk(a, q);
        HeldKept(a, b, q);
      }
    }
    forall q, r | q in b.live && r in b.live && q != r ensures Separate(b.live, q, r) {
      if q != p && r != p { assert Separate(a.live, q, r); }
      else { NewIsSeparate(a, p, n, if q == p then r else q); }
    }
  }

  lemma NewIsSeparate(a: State, p: nat, n: nat, q: nat)
    requires a.lay.Ok() && LiveOk(a) && q in a.live
    requires forall v :: v in a.free ==> v !in a.flat
    requires SpannedPages(p, n) <= a.free
    ensures a.live[q].remapped ==> SpannedPages(p, n) !! SpannedPages(q, a.live[q].n)
  {
    assert HeldOk(a, q);
  }

  lemma RemapKeeps(a: State, p: nat, c: nat, n: nat, flags: nat, used: set<nat>, b: State)
    requires Inv(a) && Step(a, Remap(p, c, n, flags, used), b)
    ensures Inv(b)
  {
    InvParts(a);
    BlockFacts(a, c);
    RemapHeapAndLive(a, p, c, n, flags, used, b);
    hide HeapOk, LiveOk, PagesApart, PlacesOk, SlotsOk, AliasPages, SpannedPages;
    RemapPages(a, p, c, n, flags, used, b);
    InvFromParts(b);
  }

  lemma RemapHeapAndLive(a: State, p: nat, c: nat, n: nat, flags: nat, used: set<nat>, b: State)
    requires Inv(a) && Step(a, Remap(p, c, n, flags, used), b) && n > 0
    ensures p !in a.live && HeapOk(b) && LiveOk(b)
  {
    FreePointerIsNew(a, p, n);
    FreeFacts(a);
    Basics(a);
    hide CanonPage, BlockOk, HeldOk, Placeable, AliasPages, SlotOf, SpannedPages;
    RemapLive(a, p, c, n, flags, used, b);
    HeapKept(a, b);
  }

  lemma FreeFacts(s: State)
    requires Inv(s)
    ensures s.lay.Ok() && forall v :: v in s.free ==> v !in s.flat && v !in s.dead && Placeable(s.lay, v) && v < VPNS
  {
    hide AliasPages, LiveOk, SlotsOk, HeapOk;
    InvParts(s);
  }

  /** Free pages become mapped aliases: one lemma for each part of the invariant about pages. */
  ghost predicate PagesMove(a: State, b: State, pages: set<nat>) {
    && b.lay == a.lay && b.canon == a.canon && b.dead == a.dead && b.dedicated == a.dedicated
    && b.free == a.free - pages && pages <= a.free && a.used <= b.used
    && (forall v :: v in b.flat <==> v in a.flat || v in pages)
    && (forall v :: v in a.flat && v !in pages ==> b.flat[v] == a.flat[v])
    && (forall v :: v in pages ==> SlotOf(v) in b.used)
    && AliasPages(b.live) == AliasPages(a.live) + pages
  }

  lemma ApartMove(a: State, b: State, pages: set<nat>)
    requires PagesApart(a) && PagesMove(a, b, pages) && forall v :: v in a.canon ==> v in a.flat
    ensures PagesApart(b)
  {
    hide AliasPages, SlotOf;
  }

  lemma PlacesMove(a: State, b: State, pages: set<nat>)
    requires a.lay.Ok() && PlacesOk(a) && PagesMove(a, b, pages)
    ensures PlacesOk(b)
  {
    hide AliasPages, SlotOf, Placeable, PlainPage;
  }

  lemma SlotsMove(a: State, b: State, pages: set<nat>)
    requires SlotsOk(a) && PagesMove(a, b, pages) && forall v :: v in a.free ==> v < VPNS
    ensures SlotsOk(b)
  {
    hide AliasPages, SlotOf;
  }

  lemma RampPages(p: nat, frame: nat, n: nat, flags: nat)
    ensures Ramp(p / PGSIZE, frame, NumSpannedPages(p, n), flags).Keys == SpannedPages(p, n)
  {}

  lemma RemapMoves(a: State, p: nat, c: nat, n: nat, flags: nat, used: set<nat>, b: State)
    requires Step(a, Remap(p, c, n, flags, used), b) && p !in a.live
    ensures PagesMove(a, b, SpannedPages(p, n))
  {
    hide AliasPages, SlotOf, Unowned, VaToPa, SpannedPages, Ramp;
    RampPages(p, VaToPa(a.lay, c) / PGSIZE, n, flags);
    AliasPagesAdd(a.live, p, c, n);
  }

  lemma RemapPages(a: State, p: nat, c: nat, n: nat, flags: nat, used: set<nat>, b: State)
    requires Inv(a) && Step(a, Remap(p, c, n, flags, used), b) && p !in a.live
    ensures PagesApart(b) && PlacesOk(b) && SlotsOk(b)
  {
    InvParts(a);
    FreeFacts(a);
    Basics(a);
    RemapMoves(a, p, c, n, flags, used, b);
    hide Inv, Step, HeapOk, LiveOk, PagesApart, PlacesOk, SlotsOk, PagesMove, Placeable, SpannedPages;
    ApartMove(a, b, SpannedPages(p, n));
    PlacesMove(a, b, SpannedPages(p, n));
    SlotsMove(a, b, SpannedPages(p, n));
  }

  /** Fewer spanned pages from the same address are a subset of the pages. */
  lemma FewerPages(p: nat, n: nat, k: nat)
    requires NumSpannedPages(p, k) <= NumSpannedPages(p, n)
    ensures SpannedPages(p, k) <= SpannedPages(p, n)
  {}

  /** An alias page of the resized pointer was one before, and is not gone. */
  lemma ResizedKeeps(s: State, p: nat, n: nat, v: nat)
    requires s.lay.Ok() && LiveOk(s) && p in s.live && s.live[p].remapped
    requires NumSpannedPages(p, n) <= NumSpannedPages(p, s.live[p].n)
    requires v in AliasPages(s.live[p := Held(s.live[p].c, n, true)])
    ensures v in AliasPages(s.live) && v !in SpannedPages(p, s.live[p].n) - SpannedPages(p, n)
  {
    hide HeldOk, NumSpannedPages;
    var live' := s.live[p := Held(s.live[p].c, n, true)];
    FewerPages(p, s.live[p].n, n);
    var q: nat :| InAlias(live', q, v);
    hide SpannedPages;
    assert InAlias(s.live, q, v);
    if q != p { assert Separate(s.live, p, q); }
  }

  lemma ResizedMember(s: State, p: nat, n: nat, v: nat)
    requires s.lay.Ok() && LiveOk(s) && p in s.live && s.live[p].remapped
    requires NumSpannedPages(p, n) <= NumSpannedPages(p, s.live[p].n)
    ensures v in AliasPages(s.live[p := Held(s.live[p].c, n, true)])
       <==> v in AliasPages(s.live) && v !in SpannedPages(p, s.live[p].n) - SpannedPages(p, n)
  {
    hide LiveOk, NumSpannedPages, SpannedPages;
    var live' := s.live[p := Held(s.live[p].c, n, true)];
    if v in AliasPages(live') { ResizedKeeps(s, p, n, v); }
    if v in AliasPages(s.live) && v !in SpannedPages(p, s.live[p].n) - SpannedPages(p, n) {
      var q: nat :| InAlias(s.live, q, v);
      assert InAlias(live', q, v);
    }
  }

  lemma AliasPagesResize(s: State, p: nat, n: nat)
    requires s.lay.Ok() && LiveOk(s) && p in s.live && s.live[p].remapped
    requires NumSpannedPages(p, n) <= NumSpannedPages(p, s.live[p].n)
    ensures AliasPages(s.live[p := Held(s.live[p].c, n, true)])
         == AliasPages(s.live) - (SpannedPages(p, s.live[p].n) - SpannedPages(p, n))
  {
    forall v: nat
      ensures v in AliasPages(s.live[p := Held(s.live[p].c, n, true)])
         <==> v in AliasPages(s.live) && v !in SpannedPages(p, s.live[p].n) - SpannedPages(p, n)
    {
      ResizedMember(s, p, n, v);
    }
  }

  /** The resized alias itself. */
  lemma ResizedHeld(a: State, p: nat, n: nat, b: State)
    requires a.lay.Ok() && LiveOk(a) && Step(a, SysResize(p, n), b)
    ensures HeldOk(b, p)
  {
    assert HeldOk(a, p);
    FewerPages(p, a.live[p].n, n);
    hide SpannedPages, NumSpannedPages, Placeable, VaToPa;
  }

  /** Any other held pointer. */
  lemma ResizeKeepsOther(a: State, p: nat, n: nat, b: State, q: nat)
    requires a.lay.Ok() && LiveOk(a) && Step(a, SysResize(p, n), b) && q in a.live && q != p
    ensures HeldOk(b, q) && Separate(b.live, p, q) && Separate(b.live, q, p)
  {
    assert HeldOk(a, q) && Separate(a.live, p, q);
    FewerPages(p, a.live[p].n, n);
    hide SpannedPages, NumSpannedPages, HeldOk, Placeable, VaToPa;
    HeldKept(a, b, q);
  }

  lemma ResizeLive(a: State, p: nat, n: nat, b: State)
    requires a.lay.Ok() && LiveOk(a) && Step(a, SysResize(p, n), b)
    ensures LiveOk(b)
  {
    hide SpannedPages, HeldOk;
    ResizedHeld(a, p, n, b);
    forall q | q in b.live && q != p ensures HeldOk(b, q) && Separate(b.live, p, q) && Separate(b.live, q, p) {
      ResizeKeepsOther(a, p, n, b, q);
    }
    forall q, r | q in b.live && r in b.live && q != r ensures Separate(b.live, q, r) {
      if q != p && r != p { assert Separate(a.live, q, r); }
    }
  }

  lemma SysResizeKeeps(a: State, p: nat, n: nat, b: State)
    requires Inv(a) && Step(a, SysResize(p, n), b)
    ensures Inv(b)
  {
    InvParts(a);
    hide Inv, HeapOk, LiveOk, PagesApart, PlacesOk, SlotsOk, AliasPages, SpannedPages, NumSpannedPages, BlockOk, Apart;
    var gone := SpannedPages(p, a.live[p].n) - SpannedPages(p, n);
    ResizeLive(a, p, n, b);
    AliasPagesResize(a, p, n);
    AliasPagesRelease(a, p);
    CanonOutlivesAliases(a, b, gone);
    HeapSet(a, a.live[p].c, n, b);
    PagesKill(a, b, gone);
  }

  /** Every step keeps the invariant. */
  lemma StepKeepsInv(a: State, e: Event, b: State)
    requires Inv(a) && Step(a, e, b)
    ensures Inv(b)
  {
    hide Inv, Step;
    match e
    case Dedicate(pages) => DedicateKeeps(a, pages, b);
    case AutoDedicate(pages) => AutoDedicateKeeps(a, pages, b);
    case SysAlloc(c, n) => SysAllocKeeps(a, c, n, b);
    case SysResize(p, n) => SysResizeKeeps(a, p, n, b);
    case SysFree(c) => SysFreeKeeps(a, c, b);
    case Remap(p, c, n, flags, used) => RemapKeeps(a, p, c, n, flags, used, b);
    case Fallback(c) => FallbackKeeps(a, c, b);
    case Lose(pages, used) => LoseKeeps(a, pages, used, b);
    case Release(p) => ReleaseKeeps(a, p, b);
  }

  /** What holding a pointer says about its block. */
  lemma HeldFacts(s: State, p: nat)
    requires Inv(s) && p in s.live
    ensures var h := s.live[p];
            && s.lay.Ok() && h.c in s.blocks && s.blocks[h.c] == h.n && BlockOk(s.lay, s.canon, h.c, h.n)
            && p % PGSIZE == h.c % PGSIZE && (!h.remapped ==> p == h.c)
  {
    assert HeldOk(s, p);
  }

  /** What holding a pointer says about each of its pages. */
  lemma HeldPage(s: State, p: nat, v: nat)
    requires Inv(s) && p in s.live && v in SpannedPages(p, s.live[p].n)
    ensures var h := s.live[p];
            && s.lay.Ok() && v in s.flat
            && (h.remapped ==> Placeable(s.lay, v) && s.flat[v].frame == VaToPa(s.lay, h.c) / PGSIZE + (v - p / PGSIZE))
            && (!h.remapped ==> CanonPage(s, v))
  {
    assert HeldOk(s, p) && BlockOk(s.lay, s.canon, s.live[p].c, s.live[p].n);
    assert !s.live[p].remapped ==> CanonPage(s, v);
  }

  /** What the invariant says about a heap page, a block, and the pages that are not aliases. */
  lemma CanonFacts(s: State, v: nat)
    requires Inv(s) && v in s.canon
    ensures s.lay.Ok() && CanonPage(s, v) && v !in AliasPages(s.live)
  {}

  lemma BlockFacts(s: State, c: nat)
    requires Inv(s) && c in s.blocks
    ensures s.lay.Ok() && BlockOk(s.lay, s.canon, c, s.blocks[c])
  {}

  lemma PlainFacts(s: State, v: nat)
    requires Inv(s) && v in s.flat && v !in AliasPages(s.live)
    ensures s.lay.Ok() && PlainPage(s.lay, s.canon, v, s.flat[v])
  {}
}

/** What every run of the allocator guarantees, for any sequence of steps. */
module Runs {
  import opened Options
  import opened PageMath
  import opened PageTree
  import opened PageTable
  import opened DuneMem
  import opened Machine

  /** The physical address a virtual address translates to. */
  ghost function Translate(flat: map<nat, Mapping>, a: nat): Option<nat> {
    if a / PGSIZE in flat then Some(flat[a / PGSIZE].frame * PGSIZE + a % PGSIZE) else None
  }

  /**
   `vremap_resolve` on a 64-bit value: success with the canonical address, not remapped, no physical
   backing, or a failed assertion of `pt_paddr2vaddr`.
   */
  datatype Resolution = ResolvedTo(canonical: nat) | NotRemapped | NoBacking | Aborts

  /** The walk sees the low 48 bits of the value, the comparison with Dune's translation all of it. */
  ghost function Resolve(lay: Layout, flat: map<nat, Mapping>, a: nat): Resolution
    requires lay.Ok()
  {
    if WalkedPage(a) !in flat then NoBacking
    else
      var pa := flat[WalkedPage(a)].frame * PGSIZE + a % PGSIZE;
      if VaToPa(lay, a) == pa then NotRemapped
      else if BelowStack(pa) then ResolvedTo(PaddrToVaddr(lay, pa))
      else Aborts
  }

  /** A run: the states passed through and the steps between them. */
  datatype Run = Begin(s: State) | Then(past: Run, e: Event, s: State)

  ghost predicate Legal(r: Run) {
    match r
    case Begin(s) => Inv(s)
    case Then(past, e, s) => Legal(past) && Step(past.s, e, s)
  }

  /** u is r or an earlier part of it. */
  ghost predicate Earlier(u: Run, r: Run) {
    u == r || (r.Then? && Earlier(u, r.past))
  }

  lemma {:induction false} EarlierTrans(u: Run, v: Run, r: Run)
    requires Earlier(u, v) && Earlier(v, r)
    ensures Earlier(u, r)
  {
    if v != r { EarlierTrans(u, v, r.past); }
  }

  /** The invariant holds in every reachable state. */
  lemma {:induction false} ReachableInv(r: Run)
    requires Legal(r)
    ensures Inv(r.s)
  {
    hide Inv, Step;
    match r
    case Begin(_) =>
    case Then(past, e, s) =>
      ReachableInv(past);
      StepKeepsInv(past.s, e, s);
  }

  /** The dead stay dead, and an alias page stays with its pointer until it dies. */
  lemma StepKeepsOwner(a: State, e: Event, b: State, p: nat, v: nat)
    requires Inv(a) && Step(a, e, b)
    ensures v in a.dead ==> v in b.dead
    ensures InAlias(a.live, p, v) ==> InAlias(b.live, p, v) || v in b.dead
  {
    hide Inv, HeapOk, LiveOk, PagesApart, PlacesOk, SlotsOk;
    match e
    case Remap(q, c, n, flags, used) =>
      RemapPointerIsNew(a, q, c, n);
    case _ =>
  }

  lemma RemapPointerIsNew(a: State, q: nat, c: nat, n: nat)
    requires Inv(a) && c in a.blocks && a.blocks[c] == n && SpannedPages(q, n) <= a.free
    ensures q !in a.live
  {
    assert BlockOk(a.lay, a.canon, c, n);
    FreePointerIsNew(a, q, n);
  }

  lemma {:induction false} OwnerForever(u: Run, r: Run, p: nat, v: nat)
    requires Legal(r) && Earlier(u, r)
    ensures v in u.s.dead ==> v in r.s.dead
    ensures InAlias(u.s.live, p, v) ==> InAlias(r.s.live, p, v) || v in r.s.dead
  {
    hide Inv, Step;
    if u != r {
      OwnerForever(u, r.past, p, v);
      ReachableInv(r.past);
      StepKeepsOwner(r.past.s, r.e, r.s, p, v);
    }
  }

  /** Temporal safety: a page once dead is never mapped, free or held again. */
  lemma DeadForever(u: Run, r: Run, v: nat)
    requires Legal(r) && Earlier(u, r) && v in u.s.dead
    ensures v in r.s.dead && v !in r.s.flat && v !in r.s.free && v !in AliasPages(r.s.live)
  {
    OwnerForever(u, r, 0, v);
    ReachableInv(r);
    AliasMapped(r.s);
  }

  /** Use after free faults: no byte of an alias the program has given up is ever translated again. */
  lemma UseAfterFreeFaults(u: Run, r: Run, p: nat, i: nat)
    requires Legal(r) && Earlier(u, r)
    requires p in u.s.live && u.s.live[p].remapped && i < u.s.live[p].n && p !in r.s.live
    ensures Translate(r.s.flat, p + i) == None
  {
    var v := (p + i) / PGSIZE;
    SpannedPagesBounds(p, u.s.live[p].n);
    assert InAlias(u.s.live, p, v);
    OwnerForever(u, r, p, v);
    ReachableInv(r);
  }

  /** No virtual page is issued twice: a new alias avoids every page that was ever held or dead before. */
  lemma NeverReissued(u: Run, r: Run, v: nat)
    requires Legal(r) && r.Then? && r.e.Remap? && Earlier(u, r.past)
    requires v in u.s.dead || v in AliasPages(u.s.live)
    ensures v !in SpannedPages(r.e.p, r.e.n)
  {
    ReachableInv(r.past);
    assert SpannedPages(r.e.p, r.e.n) <= r.past.s.free;
    FreeFacts(r.past.s);
    assert Legal(r.past);
    hide Inv, Step, Legal, Earlier, SpannedPages, AliasPages, InAlias;
    if v in u.s.dead {
      OwnerForever(u, r.past, 0, v);
    } else {
      var p: nat :| InAlias(u.s.live, p, v);
      OwnerForever(u, r.past, p, v);
    }
    Basics(r.past.s);
    InvParts(r.past.s);
    AliasMapped(r.past.s);
  }

  /** Every byte of a block lies on one of its spanned pages. */
  lemma BytePage(p: nat, n: nat, i: nat)
    requires i < n
    ensures (p + i) / PGSIZE in SpannedPages(p, n)
  {
    SpannedPagesBounds(p, n);
  }

  /** Alias correctness: every byte of a held block is the byte of its canonical block. */
  lemma HeldBytes(s: State, p: nat, i: nat)
    requires Inv(s) && p in s.live && i < s.live[p].n
    ensures s.lay.Ok() && s.lay.Canonical(s.live[p].c + i) && p + i < VIRTMEM_END
    ensures Translate(s.flat, p + i) == Some(VaToPa(s.lay, s.live[p].c + i))
  {
    hide Inv, VaToPa, OneRegion, SpannedPages;
    var h := s.live[p];
    HeldFacts(s, p);
    BytePage(p, h.n, i);
    HeldPage(s, p, (p + i) / PGSIZE);
    Contiguous(s.lay, h.c, h.n, i);
    if h.remapped {
      SameBytes(p, h.c, VaToPa(s.lay, h.c), i, s.lay);
    } else {
      KeepsOffset(s.lay, p + i);
    }
  }

  /** Page and offset arithmetic of an alias that agrees with its block in page offset. */
  lemma SameBytes(p: nat, c: nat, pa: nat, i: nat, lay: Layout)
    requires lay.Ok() && p % PGSIZE == c % PGSIZE && pa == VaToPa(lay, c)
    ensures (pa / PGSIZE + ((p + i) / PGSIZE - p / PGSIZE)) * PGSIZE + (p + i) % PGSIZE == pa + i
  {
    KeepsOffset(lay, c);
    assert pa == pa / PGSIZE * PGSIZE + pa % PGSIZE && p == p / PGSIZE * PGSIZE + p % PGSIZE;
    assert p + i == (p + i) / PGSIZE * PGSIZE + (p + i) % PGSIZE;
  }

  /** Alias correctness over whole runs. */
  lemma ReachableBytes(r: Run, p: nat, i: nat)
    requires Legal(r) && p in r.s.live && i < r.s.live[p].n
    ensures r.s.lay.Ok()
    ensures Translate(r.s.flat, p + i) == Some(VaToPa(r.s.lay, r.s.live[p].c + i))
  {
    hide Inv, Legal, VaToPa;
    ReachableInv(r);
    HeldBytes(r.s, p, i);
  }

  /** Isolation: bytes of two different held blocks are never the same physical byte. */
  lemma HeldBlocksIsolated(r: Run, p: nat, i: nat, q: nat, j: nat)
    requires Legal(r) && p in r.s.live && q in r.s.live && p != q
    requires i < r.s.live[p].n && j < r.s.live[q].n
    ensures Translate(r.s.flat, p + i) != Translate(r.s.flat, q + j)
  {
    hide Inv, Legal, VaToPa;
    ReachableInv(r);
    DifferentBytes(r.s, p, i, q, j);
    HeldBytes(r.s, p, i);
    HeldBytes(r.s, q, j);
    var x: nat, y: nat := r.s.live[p].c + i, r.s.live[q].c + j;
    if VaToPa(r.s.lay, x) == VaToPa(r.s.lay, y) { CanonicalInjective(r.s.lay, x, y); }
  }

  lemma DifferentBytes(s: State, p: nat, i: nat, q: nat, j: nat)
    requires Inv(s) && p in s.live && q in s.live && p != q && i < s.live[p].n && j < s.live[q].n
    ensures s.live[p].c + i != s.live[q].c + j
  {
    HeldFacts(s, p);
    HeldFacts(s, q);
    var c: nat, d: nat := s.live[p].c, s.live[q].c;
    assert Separate(s.live, p, q);
    assert Apart(c, s.blocks[c], d, s.blocks[d]);
  }

  /** On addresses the processor can translate, the walk and the processor agree. */
  lemma ResolveByTranslation(s: State, a: nat)
    requires Inv(s) && a < VIRTMEM_END
    ensures s.lay.Ok()
    ensures Resolve(s.lay, s.flat, a) == match Translate(s.flat, a) {
              case None => NoBacking
              case Some(pa) => if VaToPa(s.lay, a) == pa then NotRemapped
                               else if BelowStack(pa) then ResolvedTo(PaddrToVaddr(s.lay, pa)) else Aborts
            }
  {
    hide Inv, VaToPa, PaddrToVaddr;
    Basics(s);
    WalkedLow(a);
  }

  /** Resolving any byte of a held alias gives the canonical byte: the remap/resolve round trip. */
  lemma ResolveHeldAlias(s: State, p: nat, i: nat)
    requires Inv(s) && p in s.live && s.live[p].remapped && i < s.live[p].n
    ensures Resolve(s.lay, s.flat, p + i) == ResolvedTo(s.live[p].c + i)
  {
    hide Inv, Resolve;
    var c := s.live[p].c + i;
    HeldBytes(s, p, i);
    ResolveByTranslation(s, p + i);
    AliasAboveHeap(s, p, i);
    AliasRecognised(s.lay, p + i, c);
    InverseExactlyOnCanonical(s.lay, c);
  }

  /** An alias byte is outside PML4 slot 0 and is not its own canonical byte. */
  lemma AliasAboveHeap(s: State, p: nat, i: nat)
    requires Inv(s) && p in s.live && s.live[p].remapped && i < s.live[p].n
    ensures p + i >= PHYS_LIMIT && p + i != s.live[p].c + i
  {
    hide Inv, SpannedPages;
    var h := s.live[p];
    HeldFacts(s, p);
    BytePage(p, h.n, 0);
    BytePage(h.c, h.n, 0);
    HeldPage(s, p, p / PGSIZE);
    assert InAlias(s.live, p, p / PGSIZE);
    CanonFacts(s, h.c / PGSIZE);
  }

  /** A system page: mapped above the stack, and no alias. */
  ghost predicate SystemAt(s: State, v: nat) {
    v in s.flat && v !in AliasPages(s.live) && AboveStack(s.lay, v)
  }

  /** What a system page shows lies on a canonical page, and Dune's own translation of it differs. */
  lemma SystemFacts(s: State, a: nat)
    requires Inv(s) && a < VIRTMEM_END && SystemAt(s, a / PGSIZE)
    ensures s.lay.Ok() && !s.lay.InStack(a)
    ensures var pa := s.flat[a / PGSIZE].frame * PGSIZE + a % PGSIZE;
            && BelowStack(pa) && VaToPa(s.lay, a) != pa
            && PaddrToVaddr(s.lay, pa) / PGSIZE in s.canon && PaddrToVaddr(s.lay, pa) >= PGSIZE
  {
    hide Inv, AliasPages;
    PlainFacts(s, a / PGSIZE);
    var f := s.flat[a / PGSIZE].frame;
    PhysicalPage(s.lay, f, a % PGSIZE);
    CanonFacts(s, PaddrToVaddr(s.lay, f * PGSIZE) / PGSIZE);
  }

  /** On a page outside all aliases: system pages resolve to what they show, other mapped pages to themselves. */
  lemma ResolvePlain(s: State, a: nat)
    requires Inv(s) && a < VIRTMEM_END && a / PGSIZE !in AliasPages(s.live)
    ensures s.lay.Ok()
    ensures Resolve(s.lay, s.flat, a) ==
              if a / PGSIZE !in s.flat then NoBacking
              else if AboveStack(s.lay, a / PGSIZE) then
                ResolvedTo(PaddrToVaddr(s.lay, s.flat[a / PGSIZE].frame * PGSIZE + a % PGSIZE))
              else NotRemapped
    ensures a / PGSIZE in s.flat && !AboveStack(s.lay, a / PGSIZE) ==> Translate(s.flat, a) == Some(VaToPa(s.lay, a))
  {
    hide Inv, Resolve, VaToPa, PaddrToVaddr, AliasPages;
    ResolveByTranslation(s, a);
    if a / PGSIZE in s.flat {
      PlainFacts(s, a / PGSIZE);
      if AboveStack(s.lay, a / PGSIZE) { SystemFacts(s, a); }
    }
    KeepsOffset(s.lay, a);
  }

  /** Resolving an address on a page that backs the system heap reports it as not remapped. */
  lemma ResolveCanonical(s: State, a: nat)
    requires Inv(s) && a / PGSIZE in s.canon
    ensures a < VIRTMEM_END && Resolve(s.lay, s.flat, a) == NotRemapped
  {
    hide Inv, Resolve, VaToPa, AliasPages;
    CanonFacts(s, a / PGSIZE);
    WalkedLow(a);
    ResolvePlain(s, a);
  }

  /**
   Below 2^48 resolve succeeds exactly on alias pages and system pages, never on the stack, never fails
   its assertion, and its answer lies on a canonical page other than page 0.
   */
  lemma ResolveSound(s: State, a: nat)
    requires Inv(s) && a < VIRTMEM_END
    ensures s.lay.Ok() && !Resolve(s.lay, s.flat, a).Aborts?
    ensures Resolve(s.lay, s.flat, a).ResolvedTo? <==> a / PGSIZE in AliasPages(s.live) || SystemAt(s, a / PGSIZE)
    ensures Resolve(s.lay, s.flat, a).ResolvedTo? ==>
      !s.lay.InStack(a) && var c := Resolve(s.lay, s.flat, a).canonical; c / PGSIZE in s.canon && c >= PGSIZE
  {
    hide Inv, Resolve, VaToPa, PaddrToVaddr, SpannedPages, AliasPages;
    ResolveByTranslation(s, a);
    if a / PGSIZE !in AliasPages(s.live) {
      ResolvePlain(s, a);
      if SystemAt(s, a / PGSIZE) { SystemFacts(s, a); }
    } else {
      var p := AliasOwner(s, a / PGSIZE);
      ResolveOnAlias(s, p, a);
    }
  }

  lemma AliasOwner(s: State, v: nat) returns (p: nat)
    requires v in AliasPages(s.live)
    ensures InAlias(s.live, p, v)
  {
    p :| InAlias(s.live, p, v);
  }

  /**
   From 2^48 up the walk drops the high bits of the value and the comparison keeps them, so nothing is
   ever found not remapped: the answer is that of the low 48 bits for an alias or a system page, those
   bits themselves for other mapped memory below the stack, and a failed assertion for the stack.
   */
  lemma ResolveHigh(s: State, a: nat)
    requires Inv(s) && a >= VIRTMEM_END
    ensures s.lay.Ok()
    ensures var low := a % VIRTMEM_END;
            Resolve(s.lay, s.flat, a) ==
              if low / PGSIZE !in s.flat then NoBacking
              else if low / PGSIZE in AliasPages(s.live) || SystemAt(s, low / PGSIZE) then Resolve(s.lay, s.flat, low)
              else if VaToPa(s.lay, low) < STACK_PA_BASE then ResolvedTo(low)
              else Aborts
  {
    hide Inv, AliasPages;
    var low := a % VIRTMEM_END;
    WalkedLow(a);
    WalkedLow(low);
    ResolveSound(s, low);
    if low / PGSIZE in s.flat {
      AboveEverything(s, a);
      if low / PGSIZE !in AliasPages(s.live) && !SystemAt(s, low / PGSIZE) {
        PlainFacts(s, low / PGSIZE);
        ResolvePlain(s, low);
        if VaToPa(s.lay, low) < STACK_PA_BASE { PlainBack(s.lay, low, s.flat[low / PGSIZE]); }
      }
    }
  }

  /** Dune's translation of a value from 2^48 up lies above all that its low bits can be mapped to. */
  lemma AboveEverything(s: State, a: nat)
    requires Inv(s) && a >= VIRTMEM_END && WalkedPage(a) in s.flat
    ensures s.lay.Ok() && VaToPa(s.lay, a) != s.flat[WalkedPage(a)].frame * PGSIZE + a % PGSIZE
  {
    hide Inv, AliasPages;
    var low := a % VIRTMEM_END;
    WalkedLow(a);
    Basics(s);
    if low / PGSIZE in AliasPages(s.live) {
      var p := AliasOwner(s, low / PGSIZE);
      ResolveOnAlias(s, p, low);
    } else if SystemAt(s, low / PGSIZE) {
      SystemFacts(s, low);
    } else {
      ResolvePlain(s, low);
    }
  }

  /** The inverse translation brings a plain address below the stack's physical memory back. */
  lemma PlainBack(lay: Layout, a: nat, m: Mapping)
    requires lay.Ok() && DunePage(lay, a / PGSIZE, m) && VaToPa(lay, a) < STACK_PA_BASE
    ensures PaddrToVaddr(lay, VaToPa(lay, a)) == a
  {
    SameSide(a, 0);
  }

  lemma ResolveOnAlias(s: State, p: nat, a: nat)
    requires Inv(s) && a < VIRTMEM_END && InAlias(s.live, p, a / PGSIZE)
    ensures !s.lay.InStack(a)
    ensures a / PGSIZE in s.flat
    ensures var pa := s.flat[a / PGSIZE].frame * PGSIZE + a % PGSIZE;
            && BelowStack(pa) && VaToPa(s.lay, a) != pa
            && PaddrToVaddr(s.lay, pa) / PGSIZE in s.canon && PaddrToVaddr(s.lay, pa) >= PGSIZE
  {
    hide Inv, VaToPa, PaddrToVaddr;
    var h := s.live[p];
    var v, k := a / PGSIZE, a / PGSIZE - p / PGSIZE;
    HeldFacts(s, p);
    HeldPage(s, p, v);
    StackByPage(s.lay, a);
    SpanDependsOnOffset(p, h.c, h.n);
    assert h.c / PGSIZE + k in SpannedPages(h.c, h.n);
    CanonicalPageBack(s, h.c, h.n, k, a % PGSIZE);
    var x := PaddrToVaddr(s.lay, s.flat[v].frame * PGSIZE + a % PGSIZE);
    CanonFacts(s, x / PGSIZE);
    assert a / PGSIZE in AliasPages(s.live);
    AliasRecognised(s.lay, a, x);
  }

  /** Below 2^48, resolve answers with an address of the same byte of physical memory. */
  lemma ResolvedSameByte(s: State, a: nat)
    requires Inv(s) && a < VIRTMEM_END && s.lay.Ok() && Resolve(s.lay, s.flat, a).ResolvedTo?
    ensures Translate(s.flat, Resolve(s.lay, s.flat, a).canonical) == Translate(s.flat, a) != None
  {
    hide Inv, Resolve, VaToPa, PaddrToVaddr, AliasPages, SpannedPages;
    ResolveByTranslation(s, a);
    ResolveSound(s, a);
    var c := Resolve(s.lay, s.flat, a).canonical;
    ResolveCanonical(s, c);
    CanonFacts(s, c / PGSIZE);
    ResolvePlain(s, c);
    PhysicalBack(s.lay, s.flat[a / PGSIZE].frame * PGSIZE + a % PGSIZE);
  }

  lemma StackByPage(lay: Layout, a: nat)
    requires lay.Ok()
    ensures lay.InStack(a) ==> lay.InStack(a / PGSIZE * PGSIZE)
  {
    if lay.InStack(a) { SameSide(a, lay.stackBase); }
  }

  /** The inverse translation maps the frame of a heap page back to that page. */
  lemma CanonicalPageBack(s: State, c: nat, n: nat, k: nat, o: nat)
    requires Inv(s) && c in s.blocks && s.blocks[c] == n && c / PGSIZE + k in SpannedPages(c, n) && o < PGSIZE
    ensures var pa := (VaToPa(s.lay, c) / PGSIZE + k) * PGSIZE + o;
            var x := PaddrToVaddr(s.lay, pa);
            && BelowStack(pa) && x / PGSIZE == c / PGSIZE + k && x / PGSIZE in s.canon && x >= PGSIZE
            && s.lay.Canonical(x) && VaToPa(s.lay, x) == pa
  {
    hide Inv, VaToPa, PaddrToVaddr, SpannedPages;
    BlockFacts(s, c);
    var x := (c / PGSIZE + k) * PGSIZE + o;
    assert x / PGSIZE == c / PGSIZE + k;
    CanonFacts(s, x / PGSIZE);
    PageStaysInRegion(s.lay, c, n, k, o);
    InverseExactlyOnCanonical(s.lay, x);
  }

  lemma PageStaysInRegion(lay: Layout, c: nat, n: nat, k: nat, o: nat)
    requires lay.Ok() && OneRegion(lay, c, n) && o < PGSIZE && c / PGSIZE + k in SpannedPages(c, n)
    ensures var x := (c / PGSIZE + k) * PGSIZE + o;
            lay.Canonical(x) && VaToPa(lay, x) == (VaToPa(lay, c) / PGSIZE + k) * PGSIZE + o
  {
    SpannedPagesBounds(c, n);
    KeepsOffset(lay, c);
    var x := (c / PGSIZE + k) * PGSIZE + o;
    var base := c / PGSIZE * PGSIZE;
    if c >= lay.mmapBase { SameSide(c, lay.mmapBase); }
    RegionEnd(c + n, if c >= lay.mmapBase then lay.mmapBase + GPA_MAP_SIZE else MMAP_PA_BASE);
    assert VaToPa(lay, base) == VaToPa(lay, c) / PGSIZE * PGSIZE;
  }

  lemma RegionEnd(e: nat, limit: nat)
    requires e <= limit && limit % PGSIZE == 0
    ensures (e + PGSIZE - 1) / PGSIZE * PGSIZE <= limit
  {}

  /** A block nobody holds is not itself a held address. */
  lemma UnownedNotHeld(s: State, c: nat)
    requires Inv(s) && c in s.blocks && Unowned(s, c)
    ensures c !in s.live
  {
    hide Inv, SpannedPages, AliasPages;
    if c in s.live {
      HeldFacts(s, c);
      BlockFacts(s, c);
      BytePage(c, s.live[c].n, 0);
      BytePage(c, s.blocks[c], 0);
      assert InAlias(s.live, c, c / PGSIZE);
      CanonFacts(s, c / PGSIZE);
    }
  }

  /** A state to start from: one heap page, one free page, the heap and the stack in used slots. */
  ghost function SmallStart(): State {
    State(Layout(PHYS_LIMIT, 0x7000_0000_0000), {1}, {PagesAt(4)}, map[1 := Mapping(1, 0)], {0, 224}, true, map[], map[], {})
  }

  lemma SmallStartInv()
    ensures Inv(SmallStart())
  {
    var s := SmallStart();
    assert AliasPages(s.live) == {};
    assert SlotOf(1) == 0 && CanonPage(s, 1);
    assert forall v: nat :: s.lay.InStack(v * PGSIZE) ==> SlotOf(v) == 224;
  }

  lemma OnePage(p: nat)
    requires p % PGSIZE == 0
    ensures NumSpannedPages(p, 16) == 1 && SpannedPages(p, 16) == {p / PGSIZE}
  {
    SpannedPagesBounds(p, 16);
    assert PageRange(p / PGSIZE, 1) == {p / PGSIZE};
  }

  /** A block on the heap page, and its alias on the free one. */
  ghost function SmallHeld(): State {
    var s := SmallStart();
    s.(blocks := map[PGSIZE := 16], free := {}, live := map[PagesAt(4) * PGSIZE := Held(PGSIZE, 16, true)], used := {0, 1, 224},
       flat := map[1 := Mapping(1, 0), PagesAt(4) := Mapping(1, 0)])
  }

  lemma SmallSteps()
    ensures var s, c, p := SmallStart(), PGSIZE, PagesAt(4) * PGSIZE;
            var s1, s2 := s.(blocks := map[c := 16]), SmallHeld();
            && Step(s, SysAlloc(c, 16), s1) && Step(s1, Remap(p, c, 16, 0, {0, 1, 224}), s2)
  {
    var s, c, p := SmallStart(), PGSIZE, PagesAt(4) * PGSIZE;
    OnePage(c);
    OnePage(p);
    assert p / PGSIZE == PagesAt(4) && p % PGSIZE == 0 && VaToPa(s.lay, c) / PGSIZE == 1;
    assert s.blocks[c := 16] == map[c := 16];
    assert s.flat + Ramp(PagesAt(4), 1, 1, 0) == SmallHeld().flat;
    assert s.free - {PagesAt(4)} == {};
    assert s.live[p := Held(c, 16, true)] == SmallHeld().live;
  }

  /** The guarantees are not empty: some run creates an alias and lets it die. */
  lemma SomeAliasLivesAndDies() returns (r: Run)
    ensures Legal(r) && r.Then? && r.e.Release?
    ensures r.e.p in r.past.s.live && r.past.s.live[r.e.p].remapped && r.s.dead != {}
  {
    hide Inv, Step, SpannedPages;
    var s, c, p := SmallStart(), PGSIZE, PagesAt(4) * PGSIZE;
    SmallStartInv();
    SmallSteps();
    var r2 := Then(Then(Begin(s), SysAlloc(c, 16), s.(blocks := map[c := 16])), Remap(p, c, 16, 0, {0, 1, 224}), SmallHeld());
    assert Legal(Begin(s)) && Legal(r2.past) && Legal(r2);
    r := SmallRelease(r2, p);
  }

  lemma SmallRelease(r2: Run, p: nat) returns (r: Run)
    requires Legal(r2) && r2.s == SmallHeld() && p == PagesAt(4) * PGSIZE
    ensures Legal(r) && r.Then? && r.past == r2 && r.e == Release(p) && r.s.dead != {}
  {
    hide Inv, SpannedPages;
    OnePage(p);
    var a, gone := r2.s, SpannedPages(p, 16);
    var b := a.(live := a.live - {p}, flat := a.flat - gone, dead := a.dead + gone);
    assert Step(a, Release(p), b);
    assert p / PGSIZE in b.dead;
    r := Then(r2, Release(p), b);
  }
}

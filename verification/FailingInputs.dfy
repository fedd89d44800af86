/** Inputs on which the code does what its comments rule out. */
module FailingInputs {
  import opened PageMath
  import opened PageTree
  import opened DuneMem
  import opened Machine
  import opened Runs
  import opened Steps
  import opened Chart
  import opened SeenPages
  import opened RecordedStart
  import opened FirstUse
  import opened Fixup
  import opened ByteLog

  /** A canonical heap address with bit 48 set is rewritten, although no alias exists. */
  lemma HighBitsRewritten()
    ensures var s, v := SmallStart(), VIRTMEM_END + PGSIZE;
            s.lay.Ok() && s.live == map[] && Remapped(s, v) && Canon(s, v) == PGSIZE
  {
    hide Inv, Resolve;
    var s := SmallStart();
    SmallStartInv();
    assert AliasPages(s.live) == {};
    assert (VIRTMEM_END + PGSIZE) % VIRTMEM_END == PGSIZE;
    ResolveHigh(s, VIRTMEM_END + PGSIZE);
  }

  /** A stack address with bit 48 set makes the fix-up fail its assertion, although it is no valid pointer. */
  lemma HighStackAborts(flat: map<nat, Mapping>, used: set<nat>, flags: nat)
    requires flat == map[1 := Mapping(1, flags), STACK / PGSIZE := Mapping(STACK_PA_BASE / PGSIZE, flags)]
    requires forall v :: v in flat ==> SlotOf(v) in used
    ensures var s := State(LAYOUT, {1}, {}, flat, used, false, map[], map[], {});
            Inv(s) && s.lay.Ok() && !Resolvable(s, VIRTMEM_END + STACK)
  {
    hide Inv;
    var s := State(LAYOUT, {1}, {}, flat, used, false, map[], map[], {});
    StartInv(flat, used, flags);
    assert AliasPages(s.live) == {};
    RewrittenExactly(s, VIRTMEM_END + STACK);
  }

  const VSYSCALL := 0xffff_ffff_ff60_0000

  /**
   On the recorded address space, where there is no alias yet, the vsyscall address is rewritten to the
   low address of the memory that page shows; so are its low 48 bits.
   */
  lemma VsyscallRewritten(m: Mem, root: nat, canon: set<nat>)
    requires Charts(REGIONS, m, root, VPNS) && ZeroSmall(m, root) && SHOWN <= canon && forall v :: v in canon ==> HeapPage(v)
    ensures var s := StartState(m, root, canon);
            && Inv(s) && s.lay.Ok() && s.live == map[]
            && Remapped(s, VSYSCALL % VIRTMEM_END) && Canon(s, VSYSCALL % VIRTMEM_END) == 0x62_d000
            && Remapped(s, VSYSCALL) && Canon(s, VSYSCALL) == 0x62_d000
  {
    hide Inv, Resolve, Charts, ZeroSmall, PageTree.Flat, AtFrameZero;
    var s, low := StartState(m, root, canon), VSYSCALL % VIRTMEM_END;
    RecordedStartInv(m, root, canon);
    VsyscallSeen(m, root);
    NothingMarked(m, root);
    assert low == 0xffff_ff60_0000 && low / PGSIZE == 0xf_ffff_f600;
    ResolvePlain(s, low);
    ResolveHigh(s, VSYSCALL);
  }

  lemma VsyscallSeen(m: Mem, root: nat)
    requires Charts(REGIONS, m, root, VPNS) && ZeroSmall(m, root)
    ensures 0xf_ffff_f600 in Seen(m, root) && Seen(m, root)[0xf_ffff_f600].frame == 0x62d
  {
    hide Charts, PageTree.Flat, AtFrameZero;
    ChartedFrame(m, root, 0xf_ffff_f600);
  }

  // ---- words that share bytes

  /** The blocks at 0x5000 and 0x1010, seen through 0x80_0000_0000 and 0x80_0000_1010. */
  ghost function TwoAliases(): State {
    var f := PagesAt(4);
    State(Layout(PHYS_LIMIT, 0x7000_0000_0000), {1, 5}, {},
      map[1 := Mapping(1, 0), 5 := Mapping(5, 0), f := Mapping(5, 0), f + 1 := Mapping(1, 0)], {0, 1, 224}, true,
      map[0x5000 := 16, 0x1010 := 16], map[0x80_0000_0000 := Held(0x5000, 16, true), 0x80_0000_1010 := Held(0x1010, 16, true)], {})
  }

  lemma TwoAliasesHeap()
    ensures HeapOk(TwoAliases())
  {
    SmallSpans();
    hide SpannedPages;
    assert CanonPage(TwoAliases(), 1) && CanonPage(TwoAliases(), 5);
  }

  lemma TwoAliasesLive()
    ensures TwoAliases().lay.Ok() && LiveOk(TwoAliases())
  {
    SmallSpans();
    hide SpannedPages;
    assert HeldOk(TwoAliases(), 0x80_0000_0000) && HeldOk(TwoAliases(), 0x80_0000_1010);
  }

  lemma TwoAliasesApart()
    ensures PagesApart(TwoAliases())
  {
    TwoAliasPages();
    hide AliasPages;
  }

  lemma TwoAliasesPlaces()
    ensures TwoAliases().lay.Ok() && PlacesOk(TwoAliases())
  {
    TwoAliasPages();
    hide AliasPages;
  }

  lemma TwoAliasesSlots()
    ensures SlotsOk(TwoAliases())
  {
    var s, f := TwoAliases(), PagesAt(4);
    assert SlotOf(1) == SlotOf(5) == 0 && SlotOf(f) == SlotOf(f + 1) == 1;
    assert forall v: nat :: s.lay.InStack(v * PGSIZE) ==> SlotOf(v) == 224;
  }

  lemma TwoAliasesInv()
    ensures Inv(TwoAliases())
  {
    TwoAliasesHeap();
    TwoAliasesLive();
    TwoAliasesApart();
    TwoAliasesPlaces();
    TwoAliasesSlots();
    hide HeapOk, LiveOk, PagesApart, PlacesOk, SlotsOk, TwoAliases;
    InvFromParts(TwoAliases());
  }

  lemma SmallSpans()
    ensures SpannedPages(0x5000, 16) == {5} && SpannedPages(0x1010, 16) == {1}
    ensures SpannedPages(0x80_0000_0000, 16) == {PagesAt(4)} && SpannedPages(0x80_0000_1010, 16) == {PagesAt(4) + 1}
  {}

  lemma TwoAliasPages()
    ensures AliasPages(TwoAliases().live) == {PagesAt(4), PagesAt(4) + 1}
  {
    SmallSpans();
    var live := TwoAliases().live;
    assert InAlias(live, 0x80_0000_0000, PagesAt(4)) && InAlias(live, 0x80_0000_1010, PagesAt(4) + 1);
  }

  lemma TwoAliasesCanon()
    ensures var s := TwoAliases();
            s.lay.Ok() && Canon(s, 0x80_0000_0000) == 0x5000 && Canon(s, 0x80_0000_1010) == 0x1010
  {
    hide Inv, Resolve;
    var s := TwoAliases();
    TwoAliasesInv();
    ResolveHeldAlias(s, 0x80_0000_0000, 0);
    ResolveHeldAlias(s, 0x80_0000_1010, 0);
  }

  const ALIAS_1010 := [0x10, 0x10, 0, 0, 0x80, 0, 0, 0]
  const ALIAS_0 := [0, 0, 0, 0, 0x80, 0, 0, 0]
  const CANONICAL_1010 := [0x10, 0x10, 0, 0, 0, 0, 0, 0]

  lemma ExampleValues()
    ensures Value(ALIAS_1010) == 0x80_0000_1010 && Value(ALIAS_0) == 0x80_0000_0000
    ensures Value(CANONICAL_1010) == 0x1010 && Value(SECOND.word) == 0x5000
  {
    hide Value;
    ValueOfEight(0x10, 0x10, 0, 0, 0x80, 0, 0, 0);
    ValueOfEight(0, 0, 0, 0, 0x80, 0, 0, 0);
    ValueOfEight(0x10, 0x10, 0, 0, 0, 0, 0, 0);
    ValueOfEight(0, 0x50, 0, 0, 0, 0, 0, 0);
  }

  /** Twelve bytes at 0x2000: the alias 0x80_0000_1010, and 0x80 behind it. */
  const STRADDLING: Bytes := map[
    0x2000 := 0x10, 0x2001 := 0x10, 0x2002 := 0, 0x2003 := 0, 0x2004 := 0x80, 0x2005 := 0,
    0x2006 := 0, 0x2007 := 0, 0x2008 := 0x80, 0x2009 := 0, 0x200A := 0, 0x200B := 0]

  /** The fix-up of the word at 0x2000, and then of the one at 0x2004. */
  const FIRST := Store(0x2000, CANONICAL_1010)
  const SECOND := Store(0x2004, [0, 0x50, 0, 0, 0, 0, 0, 0])

  /** What the two rewrites log: the second word as the first rewrite left it. */
  lemma StraddlingLog()
    ensures var m, stores := STRADDLING, [FIRST, SECOND];
            AllFit(m, stores) && Log(m, stores) == [Store(0x2000, ALIAS_1010), Store(0x2004, ALIAS_0)]
  {
    var m, m1 := STRADDLING, Put(STRADDLING, FIRST);
    StraddlingRead();
    LogTwo(m, FIRST, SECOND);
  }

  lemma LogTwo(m: Bytes, s: Store, t: Store)
    requires Fits(m, s.loc) && Fits(m, t.loc) && |s.word| == |t.word| == WORD
    ensures AllFit(m, [s, t])
    ensures Log(m, [s, t]) == [Store(s.loc, WordAt(m, s.loc)), Store(t.loc, WordAt(Put(m, s), t.loc))]
  {
    assert [s, t][1..] == [t] && [t][1..] == [];
    assert Log(Put(m, s), [t])[1..] == Log(Put(Put(m, s), t), []);
  }

  lemma AfterTwo(m: Bytes, s: Store, t: Store)
    requires AllFit(m, [s, t])
    ensures |s.word| == |t.word| == WORD && After(m, [s, t]) == Put(Put(m, s), t)
  {
    assert s in [s, t] && t in [s, t];
    assert [s, t][1..] == [t] && [t][1..] == [];
    assert After(Put(m, s), [t]) == After(Put(Put(m, s), t), []);
  }

  /** A fix-up that rewrites two words, the second as the first rewrite left it. */
  lemma FixTwo(s: State, m: Bytes, x: Store, y: Store)
    requires s.lay.Ok() && Fits(m, x.loc) && Fits(m, y.loc) && |x.word| == |y.word| == WORD
    requires var v := Value(WordAt(m, x.loc)); Canon(s, v) != v && x.word == Encode(Canon(s, v), WORD)
    requires var v := Value(WordAt(Put(m, x), y.loc)); Canon(s, v) != v && y.word == Encode(Canon(s, v), WORD)
    ensures AllWords(m, [x.loc, y.loc]) && FixStores(s, m, [x.loc, y.loc]) == [x, y]
  {
    assert [x.loc, y.loc][1..] == [y.loc] && [y.loc][1..] == [];
    FixStoresFirst(s, m, [x.loc, y.loc], x);
    FixStoresFirst(s, Put(m, x), [y.loc], y);
    hide Canon, Value, WordAt, Put, Encode;
    assert FixStores(s, Put(Put(m, x), y), []) == [];
  }

  /** The fix-up of the words at 0x2000 and 0x2004, with the two aliases in existence. */
  lemma StraddlingFixed()
    ensures var s, m, locs := TwoAliases(), STRADDLING, [0x2000, 0x2004];
            s.lay.Ok() && AllWords(m, locs) && FixStores(s, m, locs) == [FIRST, SECOND]
  {
    TwoAliasesCanon();
    StraddlingRead();
    ExampleValues();
    hide Canon, Value, WordAt, Put, Encode, TwoAliases, Fits;
    EncodeOfValue(FIRST.word);
    EncodeOfValue(SECOND.word);
    FixTwo(TwoAliases(), STRADDLING, FIRST, SECOND);
  }

  /**
   Less than a word apart the restore fails on what the fix-up stores: once the first word is rewritten
   the second reads 0x80_0000_0000, an alias too, and is logged so; written back last, it leaves the
   canonical 0x1010 at 0x2000, where the program had the alias 0x80_0000_1010.
   */
  lemma ForwardRestoreFails()
    ensures Inv(TwoAliases()) && TwoAliases().lay.Ok() && AllWords(STRADDLING, [0x2000, 0x2004])
    ensures var m, stores := STRADDLING, FixStores(TwoAliases(), STRADDLING, [0x2000, 0x2004]);
            && AllFit(After(m, stores), Log(m, stores)) && Fits(m, 0x2000)
            && Value(WordAt(m, 0x2000)) == 0x80_0000_1010
            && Value(WordAt(After(After(m, stores), Log(m, stores)), 0x2000)) == 0x1010
  {
    var m, stores := STRADDLING, [FIRST, SECOND];
    TwoAliasesInv();
    StraddlingFixed();
    StraddlingLog();
    LogFits(m, stores);
    ExampleValues();
    StraddlingRead();
    RestoredInOrder(After(m, stores));
    hide Inv, Value, WordAt, Put, After, Log, FixStores;
  }

  lemma StraddlingRead()
    ensures Fits(STRADDLING, 0x2000) && WordAt(STRADDLING, 0x2000) == ALIAS_1010
    ensures Fits(STRADDLING, 0x2004) && WordAt(Put(STRADDLING, FIRST), 0x2004) == ALIAS_0
  {}

  /** The second record written back last clears the upper half of the first word. */
  lemma RestoredInOrder(host: Bytes)
    requires host.Keys == STRADDLING.Keys
    ensures var log := [Store(0x2000, ALIAS_1010), Store(0x2004, ALIAS_0)];
            && AllFit(host, log) && Fits(After(host, log), 0x2000) && WordAt(After(host, log), 0x2000) == CANONICAL_1010
  {
    var x, y := Store(0x2000, ALIAS_1010), Store(0x2004, ALIAS_0);
    StraddlingRead();
    assert Fits(host, 0x2000) && Fits(host, 0x2004);
    AfterTwo(host, x, y);
    TwoPuts(host, x, y);
  }

  lemma TwoPuts(host: Bytes, x: Store, y: Store)
    requires |x.word| == |y.word| == WORD && y.loc == x.loc + 4 && Fits(host, x.loc)
    ensures var m := Put(Put(host, x), y); Fits(m, x.loc) && WordAt(m, x.loc) == x.word[..4] + y.word[..4]
  {
    var m := Put(Put(host, x), y);
    forall i | 0 <= i < WORD ensures WordAt(m, x.loc)[i] == (x.word[..4] + y.word[..4])[i] {}
  }
}

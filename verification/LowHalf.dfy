/**
 Addresses from 2^47 up are not canonical on x86-64: the processor faults on them whatever the page
 table says. Auto-dedication asks only whether a PML4 slot is zero, so whether aliases stay below
 depends on the upper half of the root table.
 */
module LowHalf {
  import opened PageMath
  import opened PageTree
  import opened Machine
  import opened Runs
  import opened Steps

  /** The number of pages below 2^47. */
  const LOW_VPNS := VPNS / 2

  /** PML4 slots 256 to 511 are in use. */
  ghost predicate UpperUsed(used: set<nat>) {
    forall i: nat :: PT_NUM_ENTRIES / 2 <= i < PT_NUM_ENTRIES ==> i in used
  }

  lemma HalfOfSlot(v: nat)
    ensures v < LOW_VPNS <==> SlotOf(v) < PT_NUM_ENTRIES / 2
  {}

  /** What auto-dedication hands out lies below 2^47 exactly when the upper slots are in use. */
  lemma ZeroSlotsLow(m: Mem, root: nat)
    ensures UpperUsed(Used(m, root)) <==> forall v :: v in ZeroSlots(m, root) ==> v < LOW_VPNS
  {
    hide Used, SlotOf;
    if UpperUsed(Used(m, root)) {
      forall v | v in ZeroSlots(m, root) ensures v < LOW_VPNS {
        SlotIsIndex(v);
        HalfOfSlot(v);
      }
    } else {
      var i: nat :| PT_NUM_ENTRIES / 2 <= i < PT_NUM_ENTRIES && i !in Used(m, root);
      var v := i * PagesAt(4);
      SlotPages(i, v);
      assert v in PageRange(i * PagesAt(4), PagesAt(4));
      HalfOfSlot(v);
      assert v in ZeroSlots(m, root);
    }
  }

  /** Free pages and alias pages lie below 2^47. */
  ghost predicate Low(s: State) {
    && (forall v :: v in s.free ==> v < LOW_VPNS)
    && (forall p: nat, v: nat :: InAlias(s.live, p, v) ==> v < LOW_VPNS)
  }

  /** Explicit dedications lie below 2^47. */
  ghost predicate LowEvent(e: Event) {
    e.Dedicate? ==> forall v :: v in e.pages ==> v < LOW_VPNS
  }

  ghost predicate LowDedications(r: Run) {
    r.Then? ==> LowEvent(r.e) && LowDedications(r.past)
  }

  function Start(r: Run): State { if r.Then? then Start(r.past) else r.s }

  lemma StepStaysLow(a: State, e: Event, b: State)
    requires Step(a, e, b) && Low(a) && UpperUsed(a.used) && LowEvent(e)
    ensures Low(b) && UpperUsed(b.used)
  {
    hide SpannedPages, SlotOf;
    match e
    case AutoDedicate(pages) =>
      forall v | v in pages ensures v < LOW_VPNS {
        SlotIsIndex(v);
        HalfOfSlot(v);
      }
    case SysResize(p, n) =>
      FewerPages(p, a.live[p].n, n);
      forall q: nat, v: nat | InAlias(b.live, q, v) ensures InAlias(a.live, q, v) {}
    case Remap(p, c, n, flags, used) =>
      forall q: nat, v: nat | InAlias(b.live, q, v) ensures v < LOW_VPNS {
        assert q != p ==> InAlias(a.live, q, v);
      }
    case _ =>
      forall q: nat, v: nat | InAlias(b.live, q, v) ensures InAlias(a.live, q, v) {}
  }

  /** Over whole runs: with the upper slots in use at the start, aliases stay where the processor can reach them. */
  lemma {:induction false} RunStaysLow(r: Run)
    requires Legal(r) && LowDedications(r) && Low(Start(r)) && UpperUsed(Start(r).used)
    ensures Low(r.s) && UpperUsed(r.s.used)
  {
    hide Step, Low, UpperUsed;
    if r.Then? {
      RunStaysLow(r.past);
      StepStaysLow(r.past.s, r.e, r.s);
    }
  }

  /** No legal run with low dedications takes a free or alias page to 2^47 or above. */
  ghost predicate AlwaysLow(s: State) {
    forall r :: Legal(r) && LowDedications(r) && Start(r) == s ==> Low(r.s)
  }

  /** Auto-dedication of all pages in zero slots, when an upper slot is zero. */
  lemma HighRun(s: State, i: nat)
    requires Inv(s) && !s.dedicated && PT_NUM_ENTRIES / 2 <= i < PT_NUM_ENTRIES && i !in s.used
    ensures !AlwaysLow(s)
  {
    hide Inv;
    var pages: set<nat> := set v: nat | v < VPNS && SlotOf(v) !in s.used;
    var s' := s.(free := s.free + pages, dedicated := true);
    var r := Then(Begin(s), AutoDedicate(pages), s');
    var v := i * PagesAt(4);
    SlotPages(i, v);
    assert v in PageRange(i * PagesAt(4), PagesAt(4));
    HalfOfSlot(v);
    assert Legal(Begin(s)) && Legal(r) && LowDedications(Begin(s)) && LowDedications(r) && Start(r) == s;
    assert v in r.s.free;
  }

  /** From a low state before auto-dedication, runs stay low exactly when the upper slots are in use. */
  lemma RunsStayLowExactly(s: State)
    requires Inv(s) && !s.dedicated && Low(s)
    ensures AlwaysLow(s) <==> UpperUsed(s.used)
  {
    hide Inv, Low;
    if UpperUsed(s.used) {
      forall r | Legal(r) && LowDedications(r) && Start(r) == s ensures Low(r.s) { RunStaysLow(r); }
    } else {
      var i: nat :| PT_NUM_ENTRIES / 2 <= i < PT_NUM_ENTRIES && i !in s.used;
      HighRun(s, i);
    }
  }
}

/**
 System calls go to a host kernel that knows nothing of alias pages. Before a call, every pointer an
 argument leads to is replaced by its canonical counterpart; the pointers changed in user memory are
 logged and written back when the call returns. User memory is a map from the canonical addresses
 of its words to their values; no two words share a byte (`ByteLog` says why that matters).
 */
module Fixup {
  import opened Options
  import opened PageMath
  import opened DuneMem
  import opened Machine
  import opened Runs
  import opened Steps
  import opened Dangless
  import opened FixupRestore
  import opened PageTree

  type Memory = map<nat, nat>

  /** No two words share a byte. */
  ghost predicate WordsApart(m: Memory) {
    forall a, b :: a in m && b in m && a < b ==> a + 8 <= b
  }

  /** What `fixup_ptr` makes of a pointer value. */
  ghost function Canon(s: State, v: nat): nat
    requires s.lay.Ok()
  {
    if v < PGSIZE || s.lay.InStack(v) then v
    else match Resolve(s.lay, s.flat, v) { case ResolvedTo(c) => c case _ => v }
  }

  /** Whether `fixup_ptr` calls a pointer value valid. */
  ghost predicate Backed(s: State, v: nat)
    requires s.lay.Ok()
  {
    v >= PGSIZE && (s.lay.InStack(v) || !Resolve(s.lay, s.flat, v).NoBacking?)
  }

  /**
   Whether `fixup_ptr` survives a value: from 2^48 up, mapped memory whose low bits lie above the mmap
   region's physical memory makes `pt_paddr2vaddr` fail its assertion.
   */
  ghost predicate Resolvable(s: State, v: nat)
    requires s.lay.Ok()
  {
    v < PGSIZE || s.lay.InStack(v) || !Resolve(s.lay, s.flat, v).Aborts?
  }

  /** A value that `fixup_ptr` rewrites. */
  ghost predicate Remapped(s: State, v: nat)
    requires s.lay.Ok()
  {
    Resolve(s.lay, s.flat, v).ResolvedTo?
  }

  /** A value is valid exactly from 4096 up, on the stack or where its low 48 bits name a page resolve sees. */
  lemma BackedExactly(s: State, v: nat)
    requires s.lay.Ok()
    ensures Backed(s, v) <==>
      v >= 4096 && (s.lay.InStack(v) || v % 0x1_0000_0000_0000 / 4096 in s.flat)
  {
    WalkedLow(v);
  }

  /** Resolve does not see page 0. */
  lemma LowNotRemapped(s: State, v: nat)
    requires Inv(s) && v < PGSIZE
    ensures s.lay.Ok() && Resolve(s.lay, s.flat, v) == NoBacking
  {
    hide Inv, AliasPages, Resolve;
    InvParts(s);
    NoPageZero(s);
    assert v / PGSIZE == 0;
    AliasMapped(s);
    ResolvePlain(s, v);
  }

  /** Exactly which 64-bit values the code rewrites, and on which it fails its assertion. */
  lemma RewrittenExactly(s: State, v: nat)
    requires Inv(s)
    ensures s.lay.Ok()
    ensures var low := v % VIRTMEM_END;
            var shown := low / PGSIZE in AliasPages(s.live) || SystemAt(s, low / PGSIZE);
            var high := v >= VIRTMEM_END && low / PGSIZE in s.flat && !shown;
            && (Remapped(s, v) <==> (shown || (high && VaToPa(s.lay, low) < STACK_PA_BASE)))
            && (!Resolvable(s, v) <==> (high && VaToPa(s.lay, low) >= STACK_PA_BASE))
  {
    hide Inv, AliasPages, Resolve, VaToPa, SystemAt, Layout.InStack;
    InvParts(s);
    ShownSeen(s, v % VIRTMEM_END);
    if v >= VIRTMEM_END {
      ResolveHigh(s, v);
      HighAboveStack(s.lay, v);
    } else {
      assert v % VIRTMEM_END == v;
    }
  }

  lemma HighAboveStack(lay: Layout, v: nat)
    requires lay.Ok() && v >= VIRTMEM_END
    ensures !lay.InStack(v) && v >= PGSIZE
  {}

  /** Resolve below 2^48, and the pages it succeeds on. */
  lemma ShownSeen(s: State, a: nat)
    requires Inv(s) && a < VIRTMEM_END
    ensures s.lay.Ok() && !Resolve(s.lay, s.flat, a).Aborts?
    ensures Resolve(s.lay, s.flat, a).ResolvedTo? <==> a / PGSIZE in AliasPages(s.live) || SystemAt(s, a / PGSIZE)
    ensures a / PGSIZE in AliasPages(s.live) || SystemAt(s, a / PGSIZE) ==> a / PGSIZE in s.flat
  {
    hide Inv, AliasPages, Resolve;
    ResolveSound(s, a);
    InvParts(s);
    AliasMapped(s);
  }

  /** What the low bits of a value from 2^48 up are, if the code rewrites it to them. */
  lemma HighCanon(s: State, v: nat)
    requires Inv(s) && v >= VIRTMEM_END && Resolve(s.lay, s.flat, v).ResolvedTo?
    ensures s.lay.Ok()
    ensures var c := Resolve(s.lay, s.flat, v).canonical;
            c >= PGSIZE && c < VIRTMEM_END && Resolve(s.lay, s.flat, c) == NotRemapped
  {
    hide Inv, AliasPages, Resolve, VaToPa;
    var low := v % VIRTMEM_END;
    InvParts(s);
    ResolveHigh(s, v);
    ResolveSound(s, low);
    if Resolve(s.lay, s.flat, low).ResolvedTo? {
      ResolveCanonical(s, Resolve(s.lay, s.flat, low).canonical);
    } else {
      if low < PGSIZE { LowNotRemapped(s, low); }
      ResolvePlain(s, low);
    }
  }

  lemma LowCanon(s: State, v: nat)
    requires Inv(s) && v < VIRTMEM_END && Resolve(s.lay, s.flat, v).ResolvedTo?
    ensures s.lay.Ok() && !s.lay.InStack(v)
    ensures var c := Resolve(s.lay, s.flat, v).canonical;
            c >= PGSIZE && c < VIRTMEM_END && Resolve(s.lay, s.flat, c) == NotRemapped && c != v
  {
    hide Inv, AliasPages, Resolve;
    ResolveSound(s, v);
    ResolveCanonical(s, Resolve(s.lay, s.flat, v).canonical);
  }

  /**
   The laws the fix-up rests on: its result is never remapped, fixing up twice is fixing up once,
   neither NULL-ness nor validity is lost or gained, and the result can be resolved again.
   */
  lemma CanonLaws(s: State, v: nat)
    requires Inv(s)
    ensures s.lay.Ok() && !Remapped(s, Canon(s, v))
    ensures Canon(s, Canon(s, v)) == Canon(s, v)
    ensures (v < PGSIZE || Canon(s, v) < PGSIZE) ==> Canon(s, v) == v
    ensures Backed(s, Canon(s, v)) <==> Backed(s, v)
    ensures Resolvable(s, v) ==> Resolvable(s, Canon(s, v))
    ensures Canon(s, v) == v <==> !Remapped(s, v)
  {
    hide Inv, AliasPages, Resolve, VaToPa;
    InvParts(s);
    if v < PGSIZE {
      LowNotRemapped(s, v);
    } else if Remapped(s, v) {
      if v < VIRTMEM_END { LowCanon(s, v); } else { HighCanon(s, v); }
    }
  }

  /**
   w names the byte of physical memory that v names by its low 48 bits; where v names none, w is v.
   */
  ghost predicate SameTarget(s: State, v: nat, w: nat) {
    if WalkedPage(v) in s.flat
    then Translate(s.flat, w).Some? && Translate(s.flat, w) == Translate(s.flat, v % VIRTMEM_END)
    else w == v
  }

  /** The fix-up of a value, if it survives it, does not change what the value points at. */
  lemma CanonSameByte(s: State, v: nat)
    requires Inv(s)
    ensures s.lay.Ok() && (Resolvable(s, v) ==> SameTarget(s, v, Canon(s, v)))
  {
    hide Inv, AliasPages, Resolve, VaToPa;
    InvParts(s);
    var low := v % VIRTMEM_END;
    WalkedLow(v);
    WalkedLow(low);
    ResolveSound(s, low);
    if v >= VIRTMEM_END { ResolveHigh(s, v); }
    if Resolve(s.lay, s.flat, low).ResolvedTo? {
      ResolvedSameByte(s, low);
    }
  }

  /** Memory after every slot of `d` has been fixed up. */
  ghost function Fixed(s: State, m: Memory, d: set<nat>): (r: Memory)
    requires s.lay.Ok()
    ensures r.Keys == m.Keys
  {
    map a | a in m :: if a in d then Canon(s, m[a]) else m[a]
  }

  lemma OtherKept(s: State, m: Memory, d: set<nat>, a: nat)
    requires s.lay.Ok() && a in m && a !in d
    ensures a in Fixed(s, m, d) && Fixed(s, m, d)[a] == m[a]
  {}

  lemma FixedOne(s: State, m: Memory, a: nat)
    requires s.lay.Ok() && a in m
    ensures Fixed(s, m, {a}) == m[a := Canon(s, m[a])]
    ensures WordsApart(m) ==> WordsApart(Fixed(s, m, {a}))
  {
    hide Canon;
  }

  /** A fix-up leaves a readable pointer a readable pointer. */
  lemma PointersStay(s: State, m: Memory, d: set<nat>)
    requires Inv(s) && s.lay.Ok()
    ensures forall a :: Pointer(s, m, a) ==> Pointer(s, Fixed(s, m, d), a)
  {
    hide Inv, Canon;
    forall a | Pointer(s, m, a) ensures Pointer(s, Fixed(s, m, d), a) { CanonLaws(s, m[a]); }
  }

  lemma FixedNone(s: State, m: Memory)
    requires s.lay.Ok()
    ensures Fixed(s, m, {}) == m
  {}

  lemma FixedTwice(s: State, m: Memory, d: set<nat>, e: set<nat>)
    requires Inv(s)
    ensures s.lay.Ok() && Fixed(s, Fixed(s, m, d), e) == Fixed(s, m, d + e)
  {
    hide Inv, Canon;
    InvParts(s);
    forall a | a in m ensures Canon(s, Canon(s, m[a])) == Canon(s, m[a]) { CanonLaws(s, m[a]); }
  }

  /**
   A word, such as an element count, survives every fix-up exactly when it cannot be taken for an
   alias: otherwise a pointer slot laid over it changes it.
   */
  lemma WordKept(s: State, m: Memory, a: nat)
    requires Inv(s) && s.lay.Ok() && a in m
    ensures !Remapped(s, m[a]) ==> forall d :: Fixed(s, m, d)[a] == m[a]
    ensures Remapped(s, m[a]) ==> Fixed(s, m, {a})[a] != m[a]
  {
    CanonLaws(s, m[a]);
  }

  /** A system-call argument, with what the fix-up table says about it. */
  datatype Arg = Flat(v: nat) | Iovec(v: nat, n: nat) | PtrPtr(v: nat) | Msghdr(v: nat)

  /** a holds an entry of the null-terminated pointer array at p. */
  ghost predicate CellAt(m: Memory, p: nat, a: nat) {
    p <= a && (a - p) % 8 == 0 && forall b: nat :: p <= b <= a && (b - p) % 8 == 0 ==> b in m && m[b] != 0
  }

  /** a holds the base pointer of one of the n iovecs at p. */
  predicate VecAt(p: nat, n: nat, a: nat) {
    p <= a < p + 16 * n && (a - p) % 16 == 0
  }

  const MSG_NAME := 0
  const MSG_IOV := 16
  const MSG_IOVLEN := 24
  const MSG_CONTROL := 32

  /** a holds a pointer that argument g leads to. */
  ghost predicate IsSlot(s: State, m: Memory, g: Arg, a: nat)
    requires s.lay.Ok()
  {
    Backed(s, g.v) && var p := Canon(s, g.v);
    match g
    case Flat(_) => false
    case PtrPtr(_) => CellAt(m, p, a)
    case Iovec(_, n) => VecAt(p, n, a)
    case Msghdr(_) =>
      || a == p + MSG_NAME || a == p + MSG_IOV || a == p + MSG_CONTROL
      || (p + MSG_IOV in m && p + MSG_IOVLEN in m && Backed(s, m[p + MSG_IOV])
          && VecAt(Canon(s, m[p + MSG_IOV]), m[p + MSG_IOVLEN], a))
  }

  ghost function Slots(s: State, m: Memory, g: Arg): set<nat>
    requires s.lay.Ok()
  {
    set a | a in m && IsSlot(s, m, g, a)
  }

  /** A readable word holding a value that can be resolved. */
  ghost predicate Pointer(s: State, m: Memory, a: nat)
    requires s.lay.Ok()
  {
    a in m && Resolvable(s, m[a])
  }

  ghost predicate VecReadable(s: State, m: Memory, p: nat, n: nat)
    requires s.lay.Ok()
  {
    forall a: nat :: VecAt(p, n, a) ==> Pointer(s, m, a)
  }

  /** The null-terminated pointer array at p ends at e. */
  ghost predicate EndsAt(s: State, m: Memory, p: nat, e: nat)
    requires s.lay.Ok()
  {
    && p <= e && (e - p) % 8 == 0 && e in m && m[e] == 0
    && forall b: nat :: p <= b < e && (b - p) % 8 == 0 ==> Pointer(s, m, b) && m[b] != 0
  }

  /** The slots of the n iovecs that v points to. */
  ghost function VecSlots(s: State, m: Memory, v: nat, n: nat): set<nat>
    requires s.lay.Ok()
  {
    if Backed(s, v) then set a | a in m && VecAt(Canon(s, v), n, a) else {}
  }

  /** The first i cells, or iovecs, of an array at p. */
  ghost function FirstAt(m: Memory, p: nat, i: nat, stride: nat): set<nat>
    requires stride > 0
  {
    set a | a in m && p <= a < p + stride * i && (a - p) % stride == 0
  }

  lemma FirstAtNone(m: Memory, p: nat, stride: nat)
    requires stride == 8 || stride == 16
    ensures FirstAt(m, p, 0, stride) == {}
  {}

  lemma FirstAtNext(m: Memory, p: nat, i: nat, stride: nat)
    requires (stride == 8 || stride == 16) && p + stride * i in m
    ensures FirstAt(m, p, i, stride) + {p + stride * i} == FirstAt(m, p, i + 1, stride)
    ensures p + stride * i !in FirstAt(m, p, i, stride)
  {}

  /** When the cursor stands on the terminator every cell has been visited. */
  lemma AllCells(s: State, m: Memory, g: Arg, p: nat, i: nat, e: nat)
    requires s.lay.Ok() && g.PtrPtr? && Backed(s, g.v) && p == Canon(s, g.v) && EndsAt(s, m, p, e) && e == p + 8 * i
    ensures FirstAt(m, p, i, 8) == Slots(s, m, g)
  {
    hide Canon, Backed;
    forall a | a in m ensures p <= a < e && (a - p) % 8 == 0 <==> CellAt(m, p, a) {
      if p <= a < e && (a - p) % 8 == 0 {
        forall b: nat | p <= b <= a && (b - p) % 8 == 0 ensures b in m && m[b] != 0 { assert Pointer(s, m, b); }
      }
      assert m[e] != 0 || !CellAt(m, p, a) || a < e;
    }
  }

  lemma CellReadable(s: State, m: Memory, p: nat, e: nat, i: nat)
    requires s.lay.Ok() && EndsAt(s, m, p, e) && p + 8 * i <= e
    ensures p + 8 * i in m && (m[p + 8 * i] == 0 <==> p + 8 * i == e)
    ensures p + 8 * i < e ==> Pointer(s, m, p + 8 * i) && p + 8 * (i + 1) <= e
  {
    hide Resolvable;
  }

  /** What the loop over a null-terminated array needs in round i. */
  lemma CellStep(s: State, m: Memory, p: nat, e: nat, i: nat)
    requires Inv(s) && s.lay.Ok() && EndsAt(s, m, p, e) && p + 8 * i < e
    ensures var d, a := FirstAt(m, p, i, 8), p + 8 * i;
            && Pointer(s, Fixed(s, m, d), a) && FirstAt(m, p, i + 1, 8) == d + {a}
            && Fixed(s, Fixed(s, m, d), {a}) == Fixed(s, m, d + {a})
    ensures var a := p + 8 * (i + 1);
            a <= e && a in m && (m[a] == 0 <==> a == e) && a !in FirstAt(m, p, i + 1, 8)
  {
    hide Inv, FirstAt, EndsAt, Canon, Fixed, Pointer;
    PointersStay(s, m, FirstAt(m, p, i, 8));
    FixedTwice(s, m, FirstAt(m, p, i, 8), {p + 8 * i});
    CellReadable(s, m, p, e, i);
    CellReadable(s, m, p, e, i + 1);
    FirstAtNext(m, p, i, 8);
    FirstAtNext(m, p, i + 1, 8);
  }

  /** The slots of a message header, in the order of the code. */
  lemma MsghdrSlots(s: State, m: Memory, v: nat)
    requires Inv(s) && s.lay.Ok() && Readable(s, m, Msghdr(v)) && Backed(s, v)
    ensures var p := Canon(s, v);
            && p in m && p + MSG_IOV in m && p + MSG_IOVLEN in m && p + MSG_CONTROL in m
            && Slots(s, m, Msghdr(v)) == {p} + ({p + MSG_IOV} + VecSlots(s, m, m[p + MSG_IOV], m[p + MSG_IOVLEN])) + {p + MSG_CONTROL}
  {
    hide Inv, Canon, Backed, Remapped;
  }

  lemma NoSlots(s: State, m: Memory, g: Arg)
    requires s.lay.Ok() && !Backed(s, g.v)
    ensures Slots(s, m, g) == {} && Fixed(s, m, {}) == m
  {}

  lemma NoVecSlots(s: State, m: Memory, v: nat, n: nat)
    requires s.lay.Ok() && !Backed(s, v)
    ensures VecSlots(s, m, v, n) == {}
  {}

  /** Which words hold iovec pointers does not depend on what they hold. */
  lemma VecSlotsSame(s: State, m: Memory, m': Memory, v: nat, n: nat)
    requires s.lay.Ok() && m'.Keys == m.Keys
    ensures VecSlots(s, m', v, n) == VecSlots(s, m, v, n)
  {}

  lemma AllVecs(s: State, m: Memory, v: nat, n: nat)
    requires s.lay.Ok() && Backed(s, v)
    ensures FirstAt(m, Canon(s, v), n, 16) == VecSlots(s, m, v, n)
  {}

  /** The slots of a message header up to the iovecs. */
  ghost function NameAndIov(s: State, m: Memory, p: nat, base: nat, n: nat): set<nat>
    requires s.lay.Ok()
  {
    {p} + ({p + MSG_IOV} + VecSlots(s, m, base, n))
  }

  /** The message header names the iovecs and their number. */
  ghost predicate HeaderAt(m: Memory, p: nat, base: nat, n: nat) {
    p + MSG_IOV in m && m[p + MSG_IOV] == base && p + MSG_IOVLEN in m && m[p + MSG_IOVLEN] == n
  }

  /** What the code meets in a message header before and after the name has been fixed up. */
  lemma HeaderReady(s: State, m: Memory, v: nat)
    requires Inv(s) && s.lay.Ok() && Readable(s, m, Msghdr(v)) && Backed(s, v)
    ensures var p, f := Canon(s, v), Fixed(s, m, {Canon(s, v)});
            && p + MSG_IOVLEN in m && p + MSG_IOV in m && f[p + MSG_IOVLEN] == m[p + MSG_IOVLEN] && f[p + MSG_IOV] == m[p + MSG_IOV]
            && Pointer(s, m, p) && Pointer(s, m, p + MSG_IOV) && Pointer(s, m, p + MSG_CONTROL)
            && (Backed(s, f[p + MSG_IOV]) ==> VecReadable(s, f, Canon(s, f[p + MSG_IOV]), f[p + MSG_IOVLEN]))
  {
    hide Inv, Canon, Backed, Remapped;
    PointersStay(s, m, {Canon(s, v)});
  }

  /**
   What a valid argument must lead to: readable memory, terminated arrays, and no element count that
   could itself be taken for an alias.
   */
  ghost predicate Readable(s: State, m: Memory, g: Arg)
    requires s.lay.Ok()
  {
    && Resolvable(s, g.v)
    && (Backed(s, g.v) ==>
         var p := Canon(s, g.v);
         match g
         case Flat(_) => true
         case PtrPtr(_) => exists e: nat :: EndsAt(s, m, p, e)
         case Iovec(_, n) => VecReadable(s, m, p, n)
         case Msghdr(_) =>
           && Pointer(s, m, p + MSG_NAME) && Pointer(s, m, p + MSG_IOV) && Pointer(s, m, p + MSG_CONTROL)
           && p + MSG_IOVLEN in m && !Remapped(s, m[p + MSG_IOVLEN])
           && (Backed(s, m[p + MSG_IOV]) ==> VecReadable(s, m, Canon(s, m[p + MSG_IOV]), m[p + MSG_IOVLEN])))
  }

  /** What a fix-up of any words leaves as it was about a word. */
  lemma FixedWord(s: State, m: Memory, d: set<nat>, a: nat)
    requires Inv(s) && s.lay.Ok() && a in m
    ensures var f := Fixed(s, m, d);
            && (f[a] == 0 <==> m[a] == 0) && (Pointer(s, m, a) ==> Pointer(s, f, a))
            && Canon(s, f[a]) == Canon(s, m[a]) && (Backed(s, f[a]) <==> Backed(s, m[a]))
            && (!Remapped(s, m[a]) ==> f[a] == m[a])
  {
    hide Inv, Canon, Backed, Remapped, Resolvable;
    CanonLaws(s, m[a]);
  }

  lemma CellStable(s: State, m: Memory, d: set<nat>, p: nat, a: nat)
    requires Inv(s) && s.lay.Ok()
    ensures CellAt(Fixed(s, m, d), p, a) <==> CellAt(m, p, a)
  {
    hide Inv, Canon, Backed, Remapped, Pointer;
    forall b | b in m ensures Fixed(s, m, d)[b] == 0 <==> m[b] == 0 { FixedWord(s, m, d, b); }
  }

  lemma EndStable(s: State, m: Memory, d: set<nat>, p: nat, e: nat)
    requires Inv(s) && s.lay.Ok() && EndsAt(s, m, p, e)
    ensures EndsAt(s, Fixed(s, m, d), p, e)
  {
    hide Inv, Canon, Backed, Remapped, Resolvable;
    FixedWord(s, m, d, e);
    forall b: nat | p <= b < e && (b - p) % 8 == 0
      ensures Pointer(s, Fixed(s, m, d), b) && Fixed(s, m, d)[b] != 0
    {
      assert Pointer(s, m, b);
      FixedWord(s, m, d, b);
    }
  }

  lemma VecStable(s: State, m: Memory, d: set<nat>, p: nat, n: nat)
    requires Inv(s) && s.lay.Ok() && VecReadable(s, m, p, n)
    ensures VecReadable(s, Fixed(s, m, d), p, n)
  {
    hide Inv, Canon, Backed, Remapped;
    PointersStay(s, m, d);
  }

  lemma PtrPtrStable(s: State, m: Memory, d: set<nat>, g: Arg)
    requires Inv(s) && s.lay.Ok() && g.PtrPtr? && Readable(s, m, g)
    ensures Slots(s, Fixed(s, m, d), g) == Slots(s, m, g) && Readable(s, Fixed(s, m, d), g)
  {
    hide Inv, Canon, Backed, Remapped, Fixed, CellAt, EndsAt, Resolvable;
    if Backed(s, g.v) {
      var e: nat :| EndsAt(s, m, Canon(s, g.v), e);
      EndStable(s, m, d, Canon(s, g.v), e);
    }
    forall a: nat ensures IsSlot(s, Fixed(s, m, d), g, a) <==> IsSlot(s, m, g, a) {
      CellStable(s, m, d, Canon(s, g.v), a);
    }
  }

  lemma IovecStable(s: State, m: Memory, d: set<nat>, g: Arg)
    requires Inv(s) && s.lay.Ok() && g.Iovec? && Readable(s, m, g)
    ensures Slots(s, Fixed(s, m, d), g) == Slots(s, m, g) && Readable(s, Fixed(s, m, d), g)
  {
    hide Inv, Canon, Backed, Remapped, VecReadable, Resolvable;
    if Backed(s, g.v) { VecStable(s, m, d, Canon(s, g.v), g.n); }
  }

  lemma MsghdrStable(s: State, m: Memory, d: set<nat>, g: Arg)
    requires Inv(s) && s.lay.Ok() && g.Msghdr? && Readable(s, m, g)
    ensures Slots(s, Fixed(s, m, d), g) == Slots(s, m, g) && Readable(s, Fixed(s, m, d), g)
  {
    hide Inv, Canon, Backed, Remapped, VecReadable, Resolvable, VecAt;
    var f, p := Fixed(s, m, d), Canon(s, g.v);
    if Backed(s, g.v) {
      FixedWord(s, m, d, p + MSG_NAME);
      FixedWord(s, m, d, p + MSG_IOV);
      FixedWord(s, m, d, p + MSG_IOVLEN);
      FixedWord(s, m, d, p + MSG_CONTROL);
      if Backed(s, m[p + MSG_IOV]) { VecStable(s, m, d, Canon(s, m[p + MSG_IOV]), m[p + MSG_IOVLEN]); }
    }
  }

  /** Nothing a fix-up changes decides where the pointers are: the described slots stay the same. */
  lemma SlotsStable(s: State, m: Memory, d: set<nat>, g: Arg)
    requires Inv(s) && s.lay.Ok() && Readable(s, m, g)
    ensures Slots(s, Fixed(s, m, d), g) == Slots(s, m, g) && Readable(s, Fixed(s, m, d), g)
  {
    hide Inv, Fixed;
    match g {
      case Flat(v) =>
        FlatHasNone(s, m, v);
        FlatHasNone(s, Fixed(s, m, d), v);
      case Iovec(_, _) => IovecStable(s, m, d, g);
      case PtrPtr(_) => PtrPtrStable(s, m, d, g);
      case Msghdr(_) => MsghdrStable(s, m, d, g);
    }
  }

  /** An argument and its canonical counterpart lead to the same slots. */
  lemma SlotsOfCanon(s: State, m: Memory, g: Arg)
    requires Inv(s) && s.lay.Ok()
    ensures Slots(s, m, WithPointer(g, Canon(s, g.v))) == Slots(s, m, g)
    ensures Readable(s, m, g) ==> Readable(s, m, WithPointer(g, Canon(s, g.v)))
  {
    hide Inv, Canon, Backed, Remapped;
    CanonLaws(s, g.v);
  }

  function WithPointer(g: Arg, v: nat): Arg { g.(v := v) }

  /** `vmcall_param_fixup_type` */
  datatype ParamType = NoFixup | FlatParam | IovecParam | PtrPtrParam | MsghdrParam

  /** Whether the argument at position i is looked at. */
  predicate Handles(types: seq<ParamType>, vals: seq<nat>, i: nat)
    requires i < |types| <= |vals|
  {
    types[i] != NoFixup && vals[i] >= PGSIZE
  }

  /** The length of an iovec array is the next argument. */
  predicate CountsFollow(types: seq<ParamType>, vals: seq<nat>) {
    |types| <= |vals| && forall i :: 0 <= i < |types| && types[i] == IovecParam ==> i + 1 < |vals|
  }

  function ArgAt(types: seq<ParamType>, vals: seq<nat>, i: nat): Arg
    requires CountsFollow(types, vals) && i < |types| && types[i] != NoFixup
  {
    ArgOf(types[i], vals, i)
  }

  function ArgOf(t: ParamType, vals: seq<nat>, i: nat): Arg
    requires i < |vals| && t != NoFixup && (t == IovecParam ==> i + 1 < |vals|)
  {
    match t
    case IovecParam => Iovec(vals[i], vals[i + 1])
    case PtrPtrParam => PtrPtr(vals[i])
    case MsghdrParam => Msghdr(vals[i])
    case _ => Flat(vals[i])
  }

  /** The argument looked at after the one at i: an iovec array's length is passed over. */
  function NextArg(types: seq<ParamType>, vals: seq<nat>, i: nat): (j: nat)
    requires i < |types| <= |vals|
    ensures j > i
  {
    if types[i] == IovecParam && Handles(types, vals, i) then i + 2 else i + 1
  }

  /** Positions, from i on, of the arguments that are fixed up. */
  function Handled(types: seq<ParamType>, vals: seq<nat>, i: nat): (r: set<nat>)
    requires |types| <= |vals|
    ensures forall k :: k in r ==> i <= k < |types|
    decreases |types| - i
  {
    if i >= |types| then {}
    else (if Handles(types, vals, i) then {i} else {}) + Handled(types, vals, NextArg(types, vals, i))
  }

  /** The slots all those arguments lead to. */
  ghost function AllSlots(s: State, m: Memory, types: seq<ParamType>, vals: seq<nat>, i: nat): set<nat>
    requires s.lay.Ok() && CountsFollow(types, vals)
    decreases |types| - i
  {
    if i >= |types| then {}
    else (if Handles(types, vals, i) then Slots(s, m, ArgAt(types, vals, i)) else {})
         + AllSlots(s, m, types, vals, NextArg(types, vals, i))
  }

  ghost predicate AllReadable(s: State, m: Memory, types: seq<ParamType>, vals: seq<nat>, i: nat)
    requires s.lay.Ok() && CountsFollow(types, vals)
    decreases |types| - i
  {
    i < |types| ==>
      && (Handles(types, vals, i) ==> Readable(s, m, ArgAt(types, vals, i)))
      && AllReadable(s, m, types, vals, NextArg(types, vals, i))
  }

  /** The arguments as the host gets to see them. */
  ghost function ArgsFixed(s: State, types: seq<ParamType>, vals: seq<nat>): (r: seq<nat>)
    requires s.lay.Ok() && |types| <= |vals|
  {
    seq(|vals|, k requires 0 <= k < |vals| => if k in Handled(types, vals, 0) then Canon(s, vals[k]) else vals[k])
  }

  /** The arguments when the one at position i is about to be looked at. */
  ghost predicate ArgsSoFar(s: State, types: seq<ParamType>, vals: seq<nat>, now: seq<nat>, i: nat)
    requires s.lay.Ok() && CountsFollow(types, vals)
  {
    && |now| == |vals|
    && (forall k :: 0 <= k < i && k < |vals| ==> now[k] == if k in Handled(types, vals, 0) then Canon(s, vals[k]) else vals[k])
    && (forall k :: i <= k < |vals| ==> now[k] == vals[k])
    && (forall k :: k >= i ==> (k in Handled(types, vals, 0) <==> k in Handled(types, vals, i)))
  }

  /** What the next argument does to the positions handled. */
  lemma ArgsAhead(s: State, types: seq<ParamType>, vals: seq<nat>, now: seq<nat>, i: nat)
    requires s.lay.Ok() && CountsFollow(types, vals) && ArgsSoFar(s, types, vals, now, i) && i < |types|
    ensures now[i] == vals[i] && (types[i] == IovecParam ==> now[i + 1] == vals[i + 1])
    ensures var j := NextArg(types, vals, i);
            ArgsSoFar(s, types, vals, if Handles(types, vals, i) then now[i := Canon(s, vals[i])] else now, j)
  {
    hide Canon;
  }

  lemma ArgsDone(s: State, types: seq<ParamType>, vals: seq<nat>, now: seq<nat>, i: nat)
    requires s.lay.Ok() && CountsFollow(types, vals) && ArgsSoFar(s, types, vals, now, i) && i >= |types|
    ensures now == ArgsFixed(s, types, vals)
  {
    hide Canon;
  }

  lemma IovecSlots(s: State, m: Memory, v: nat, n: nat)
    requires s.lay.Ok()
    ensures Slots(s, m, Iovec(v, n)) == VecSlots(s, m, v, n)
  {
    hide Canon, Backed;
  }

  lemma FlatHasNone(s: State, m: Memory, v: nat)
    requires s.lay.Ok()
    ensures Slots(s, m, Flat(v)) == {} && Fixed(s, m, {}) == m
  {}

  lemma {:induction false} AllSlotsStable(s: State, m: Memory, d: set<nat>, types: seq<ParamType>, vals: seq<nat>, i: nat)
    requires Inv(s) && s.lay.Ok() && CountsFollow(types, vals) && AllReadable(s, m, types, vals, i)
    ensures AllSlots(s, Fixed(s, m, d), types, vals, i) == AllSlots(s, m, types, vals, i)
    ensures AllReadable(s, Fixed(s, m, d), types, vals, i)
    decreases |types| - i
  {
    hide Inv, Readable, Slots;
    if i < |types| {
      if Handles(types, vals, i) { SlotsStable(s, m, d, ArgAt(types, vals, i)); }
      AllSlotsStable(s, m, d, types, vals, NextArg(types, vals, i));
    }
  }

  /** Fixed-up arguments are read the same way and lead to the same slots. */
  lemma {:induction false} AllSlotsOfFixed(s: State, m: Memory, types: seq<ParamType>, vals: seq<nat>, vals': seq<nat>, i: nat)
    requires Inv(s) && s.lay.Ok() && CountsFollow(types, vals) && |vals'| == |vals|
    requires forall k :: i <= k < |vals| ==> vals'[k] == if k in Handled(types, vals, i) then Canon(s, vals[k]) else vals[k]
    ensures Handled(types, vals', i) == Handled(types, vals, i)
    ensures AllSlots(s, m, types, vals', i) == AllSlots(s, m, types, vals, i)
    ensures AllReadable(s, m, types, vals, i) ==> AllReadable(s, m, types, vals', i)
    decreases |types| - i
  {
    hide Inv, Readable, Slots, Canon;
    if i < |types| {
      CanonLaws(s, vals[i]);
      assert Handles(types, vals', i) <==> Handles(types, vals, i);
      if Handles(types, vals, i) {
        SlotsOfCanon(s, m, ArgAt(types, vals, i));
        assert ArgAt(types, vals', i) == WithPointer(ArgAt(types, vals, i), Canon(s, vals[i]));
      }
      AllSlotsOfFixed(s, m, types, vals, vals', NextArg(types, vals, i));
    }
  }

  /** The words a readable argument leads to can all be resolved. */
  lemma SlotReadable(s: State, m: Memory, g: Arg, a: nat)
    requires s.lay.Ok() && Readable(s, m, g) && a in Slots(s, m, g)
    ensures Pointer(s, m, a)
  {
    hide Resolvable, Canon, Backed, Remapped;
    if g.PtrPtr? {
      var p := Canon(s, g.v);
      var e: nat :| EndsAt(s, m, p, e);
      assert a < e;
    }
  }

  lemma {:induction false} AllResolvable(s: State, m: Memory, types: seq<ParamType>, vals: seq<nat>, i: nat)
    requires s.lay.Ok() && CountsFollow(types, vals) && AllReadable(s, m, types, vals, i)
    ensures forall k :: k in Handled(types, vals, i) ==> Resolvable(s, vals[k])
    ensures forall a :: a in AllSlots(s, m, types, vals, i) ==> Pointer(s, m, a)
    decreases |types| - i
  {
    hide Resolvable, Pointer, Slots;
    if i < |types| {
      AllResolvable(s, m, types, vals, NextArg(types, vals, i));
      if Handles(types, vals, i) {
        forall a | a in Slots(s, m, ArgAt(types, vals, i)) ensures Pointer(s, m, a) {
          SlotReadable(s, m, ArgAt(types, vals, i), a);
        }
      }
    }
  }

  /** After the pass every described argument and every pointer reached points where it pointed before. */
  lemma SameTargets(s: State, m: Memory, types: seq<ParamType>, vals: seq<nat>)
    requires Inv(s) && s.lay.Ok() && CountsFollow(types, vals) && AllReadable(s, m, types, vals, 0)
    ensures var d, vals' := AllSlots(s, m, types, vals, 0), ArgsFixed(s, types, vals);
            && (forall k :: k in Handled(types, vals, 0) ==> SameTarget(s, vals[k], vals'[k]))
            && (forall a :: a in d ==> a in m && SameTarget(s, m[a], Fixed(s, m, d)[a]))
  {
    hide Inv, Canon, AllSlots, AllReadable, Handled, Resolvable, SameTarget;
    var d := AllSlots(s, m, types, vals, 0);
    AllResolvable(s, m, types, vals, 0);
    forall k: nat | k in Handled(types, vals, 0) ensures SameTarget(s, vals[k], ArgsFixed(s, types, vals)[k]) {
      CanonSameByte(s, vals[k]);
    }
    forall a | a in d ensures a in m && SameTarget(s, m[a], Fixed(s, m, d)[a]) {
      assert Pointer(s, m, a);
      CanonSameByte(s, m[a]);
    }
  }

  // ---- the pass, on memory and arguments alone

  /** The pass looks at typed arguments that are not below a page, except the length of an array it has looked at. */
  predicate LooksAt(types: seq<ParamType>, vals: seq<nat>, k: nat)
    requires k < |types| <= |vals|
  {
    types[k] != NoFixup && vals[k] >= 4096 && !(k > 0 && types[k - 1] == IovecParam && LooksAt(types, vals, k - 1))
  }

  /**
   The word at a is one that an argument p leads to, n being the next argument: an entry before the first
   zero word, a base pointer of n iovecs, or a pointer of a message header or of its iovecs.
   */
  ghost predicate LeadsTo(s: State, m: Memory, t: ParamType, p: nat, n: nat, a: nat)
    requires s.lay.Ok()
  {
    match t
    case NoFixup => false
    case FlatParam => false
    case PtrPtrParam => p <= a && (a - p) % 8 == 0 && forall b: nat :: p <= b <= a && (b - p) % 8 == 0 ==> b in m && m[b] != 0
    case IovecParam => p <= a < p + 16 * n && (a - p) % 16 == 0
    case MsghdrParam =>
      || a == p || a == p + 16 || a == p + 32
      || (p + 16 in m && p + 24 in m && Backed(s, m[p + 16])
          && m[p + 16] <= a < m[p + 16] + 16 * m[p + 24] && (a - m[p + 16]) % 16 == 0)
  }

  /** The word at a is one that the argument at position k leads to. */
  ghost predicate LedBy(s: State, m: Memory, types: seq<ParamType>, vals: seq<nat>, k: nat, a: nat)
    requires s.lay.Ok() && CountsFollow(types, vals) && k < |types|
  {
    && LooksAt(types, vals, k) && Backed(s, vals[k])
    && LeadsTo(s, m, types[k], vals[k], if k + 1 < |vals| then vals[k + 1] else 0, a)
  }

  ghost predicate Led(s: State, m: Memory, types: seq<ParamType>, vals: seq<nat>, a: nat)
    requires s.lay.Ok() && CountsFollow(types, vals)
  {
    exists k: nat :: k < |types| && LedBy(s, m, types, vals, k, a)
  }

  /** What the host finds: no argument looked at and no word led to is remapped; all others are as before. */
  ghost predicate PassDone(s: State, types: seq<ParamType>, vals: seq<nat>, vals': seq<nat>, m: Memory, m': Memory)
    requires s.lay.Ok() && CountsFollow(types, vals) && CountsFollow(types, vals')
  {
    && |vals'| == |vals| && m'.Keys == m.Keys
    && (forall k: nat :: k < |types| ==> (LooksAt(types, vals', k) <==> LooksAt(types, vals, k)))
    && (forall k: nat :: k < |vals| ==> if k < |types| && LooksAt(types, vals, k) then !Remapped(s, vals'[k]) else vals'[k] == vals[k])
    && (forall a :: a in m ==> if Led(s, m', types, vals', a) then !Remapped(s, m'[a]) else m'[a] == m[a])
  }

  /** A position the pass comes to: not the length of an array looked at just before. */
  predicate Visited(types: seq<ParamType>, vals: seq<nat>, i: nat)
    requires |types| <= |vals|
  {
    i <= |types| ==> !(i > 0 && types[i - 1] == IovecParam && LooksAt(types, vals, i - 1))
  }

  lemma {:induction false} HandledIsLooked(types: seq<ParamType>, vals: seq<nat>, i: nat, k: nat)
    requires |types| <= |vals| && Visited(types, vals, i) && i <= k < |types|
    ensures k in Handled(types, vals, i) <==> LooksAt(types, vals, k)
    decreases k - i
  {
    var next := NextArg(types, vals, i);
    if i < k && next <= k { HandledIsLooked(types, vals, next, k); }
  }

  lemma {:induction false} AllSlotsMember(s: State, m: Memory, types: seq<ParamType>, vals: seq<nat>, i: nat, a: nat)
    requires s.lay.Ok() && CountsFollow(types, vals)
    ensures a in AllSlots(s, m, types, vals, i) <==>
      exists k: nat :: k in Handled(types, vals, i) && k < |types| && types[k] != NoFixup && a in Slots(s, m, ArgAt(types, vals, k))
    decreases |types| - i
  {
    hide Slots, ArgAt;
    if i < |types| { AllSlotsMember(s, m, types, vals, NextArg(types, vals, i), a); }
  }

  /** In memory whose pointers are canonical, slots are the words led to. */
  lemma SlotIsLed(s: State, m: Memory, types: seq<ParamType>, vals: seq<nat>, k: nat, a: nat)
    requires s.lay.Ok() && CountsFollow(types, vals) && k < |types| && LooksAt(types, vals, k) && Canon(s, vals[k]) == vals[k]
    requires types[k] == MsghdrParam && Backed(s, vals[k]) && vals[k] + 16 in m ==> Canon(s, m[vals[k] + 16]) == m[vals[k] + 16]
    ensures a in Slots(s, m, ArgAt(types, vals, k)) <==> a in m && LedBy(s, m, types, vals, k, a)
  {
    hide Canon, Backed, LooksAt;
  }

  lemma {:induction false} LooksSame(types: seq<ParamType>, vals: seq<nat>, vals': seq<nat>, k: nat)
    requires k < |types| <= |vals| && |vals'| == |vals|
    requires forall i :: 0 <= i < |vals| ==> (vals'[i] >= 4096 <==> vals[i] >= 4096)
    ensures LooksAt(types, vals', k) <==> LooksAt(types, vals, k)
    decreases k
  {
    if k > 0 { LooksSame(types, vals, vals', k - 1); }
  }

  /** Nothing an argument leads to, and no argument looked at, would be rewritten. */
  ghost predicate Clean(s: State, m: Memory, types: seq<ParamType>, vals: seq<nat>)
    requires s.lay.Ok() && CountsFollow(types, vals)
  {
    && (forall k: nat :: k < |types| && LooksAt(types, vals, k) ==> !Remapped(s, vals[k]))
    && (forall a :: a in AllSlots(s, m, types, vals, 0) && a in m ==> !Remapped(s, m[a]))
  }

  lemma HeaderClean(s: State, m: Memory, types: seq<ParamType>, vals: seq<nat>, k: nat)
    requires Inv(s) && s.lay.Ok() && CountsFollow(types, vals) && Clean(s, m, types, vals)
    requires k < |types| && LooksAt(types, vals, k)
    ensures Canon(s, vals[k]) == vals[k]
    ensures types[k] == MsghdrParam && Backed(s, vals[k]) && vals[k] + 16 in m ==> Canon(s, m[vals[k] + 16]) == m[vals[k] + 16]
  {
    hide Inv, Canon, Backed, Remapped, AllSlots, LooksAt, Handled;
    CanonLaws(s, vals[k]);
    if types[k] == MsghdrParam && Backed(s, vals[k]) && vals[k] + 16 in m {
      var a := vals[k] + 16;
      HandledIsLooked(types, vals, 0, k);
      LookedTyped(types, vals, k);
      assert a in Slots(s, m, ArgAt(types, vals, k));
      AllSlotsMember(s, m, types, vals, 0, a);
      CanonLaws(s, m[a]);
    }
  }

  lemma LookedTyped(types: seq<ParamType>, vals: seq<nat>, k: nat)
    requires k < |types| <= |vals| && LooksAt(types, vals, k)
    ensures types[k] != NoFixup && Visited(types, vals, 0)
  {}

  lemma SlotsAreLed(s: State, m: Memory, types: seq<ParamType>, vals: seq<nat>, a: nat)
    requires Inv(s) && s.lay.Ok() && CountsFollow(types, vals) && Clean(s, m, types, vals) && a in m
    ensures a in AllSlots(s, m, types, vals, 0) <==> Led(s, m, types, vals, a)
  {
    hide Inv, Canon, Backed, Remapped, AllSlots, Slots, LooksAt, Handled, Clean, LedBy, ArgAt, Visited;
    AllSlotsMember(s, m, types, vals, 0, a);
    VisitedFirst(types, vals);
    forall k: nat | k < |types|
      ensures (k in Handled(types, vals, 0) && types[k] != NoFixup && a in Slots(s, m, ArgAt(types, vals, k))) <==> LedBy(s, m, types, vals, k, a)
    {
      HandledIsLooked(types, vals, 0, k);
      if LedBy(s, m, types, vals, k, a) { LedLooks(s, m, types, vals, k, a); }
      if LooksAt(types, vals, k) {
        LookedTyped(types, vals, k);
        HeaderClean(s, m, types, vals, k);
        SlotIsLed(s, m, types, vals, k, a);
      }
    }
  }

  lemma VisitedFirst(types: seq<ParamType>, vals: seq<nat>)
    requires |types| <= |vals|
    ensures Visited(types, vals, 0)
  {}

  lemma LedLooks(s: State, m: Memory, types: seq<ParamType>, vals: seq<nat>, k: nat, a: nat)
    requires s.lay.Ok() && CountsFollow(types, vals) && k < |types| && LedBy(s, m, types, vals, k, a)
    ensures LooksAt(types, vals, k)
  {}

  lemma ArgsKeepPages(s: State, types: seq<ParamType>, vals: seq<nat>)
    requires Inv(s) && s.lay.Ok() && |types| <= |vals|
    ensures forall i :: 0 <= i < |vals| ==> (ArgsFixed(s, types, vals)[i] >= 4096 <==> vals[i] >= 4096)
  {
    hide Inv, Canon, Handled;
    forall i | 0 <= i < |vals| ensures ArgsFixed(s, types, vals)[i] >= 4096 <==> vals[i] >= 4096 { CanonLaws(s, vals[i]); }
  }

  /** After the pass every argument and every word it leads to is clean, and nothing else has changed. */
  lemma PassIsDone(s: State, m: Memory, types: seq<ParamType>, vals: seq<nat>)
    requires Inv(s) && s.lay.Ok() && CountsFollow(types, vals) && AllReadable(s, m, types, vals, 0)
    ensures PassDone(s, types, vals, ArgsFixed(s, types, vals), m, Fixed(s, m, AllSlots(s, m, types, vals, 0)))
  {
    hide Inv, Canon, Remapped, AllSlots, AllReadable, Handled, LooksAt;
    var d := AllSlots(s, m, types, vals, 0);
    var m', vals' := Fixed(s, m, d), ArgsFixed(s, types, vals);
    NothingRemapped(s, m, types, vals);
    ArgsKeepPages(s, types, vals);
    VisitedFirst(types, vals);
    forall k: nat | k < |types|
      ensures (LooksAt(types, vals', k) <==> LooksAt(types, vals, k)) && (k in Handled(types, vals, 0) <==> LooksAt(types, vals, k))
    {
      LooksSame(types, vals, vals', k);
      HandledIsLooked(types, vals, 0, k);
    }
    assert Clean(s, m', types, vals');
    forall a | a in m ensures a in d <==> Led(s, m', types, vals', a) { SlotsAreLed(s, m', types, vals', a); }
    hide Led;
  }

  /** A fix-up of arguments that were fixed up before finds no pointer to change. */
  lemma SecondPassIdle(s: State, m: Memory, types: seq<ParamType>, vals: seq<nat>)
    requires Inv(s) && s.lay.Ok() && CountsFollow(types, vals) && AllReadable(s, m, types, vals, 0)
    ensures var d := AllSlots(s, m, types, vals, 0);
            var m', vals' := Fixed(s, m, d), ArgsFixed(s, types, vals);
            && CountsFollow(types, vals') && AllReadable(s, m', types, vals', 0)
            && Fixed(s, m', AllSlots(s, m', types, vals', 0)) == m' && ArgsFixed(s, types, vals') == vals'
  {
    hide Inv, Canon, AllSlots, AllReadable, Handled;
    var d := AllSlots(s, m, types, vals, 0);
    var m', vals' := Fixed(s, m, d), ArgsFixed(s, types, vals);
    AllSlotsStable(s, m, d, types, vals, 0);
    AllSlotsOfFixed(s, m', types, vals, vals', 0);
    FixedTwice(s, m, d, d);
    assert d + d == d;
    forall k | 0 <= k < |vals| ensures Canon(s, Canon(s, vals[k])) == Canon(s, vals[k]) { CanonLaws(s, vals[k]); }
    assert ArgsFixed(s, types, vals') == vals';
  }

  /**
   Completeness: after the fix-up no argument that is looked at, and no pointer any of them leads to,
   is remapped; words that are not alias addresses, such as null terminators, are what they were.
   */
  lemma NothingRemapped(s: State, m: Memory, types: seq<ParamType>, vals: seq<nat>)
    requires Inv(s) && s.lay.Ok() && CountsFollow(types, vals) && AllReadable(s, m, types, vals, 0)
    ensures var m', vals' := Fixed(s, m, AllSlots(s, m, types, vals, 0)), ArgsFixed(s, types, vals);
            && CountsFollow(types, vals') && Handled(types, vals', 0) == Handled(types, vals, 0)
            && AllSlots(s, m', types, vals', 0) == AllSlots(s, m, types, vals, 0)
            && (forall k :: k in Handled(types, vals', 0) ==> !Remapped(s, vals'[k]))
            && (forall a :: a in AllSlots(s, m', types, vals', 0) && a in m' ==> !Remapped(s, m'[a]))
            && (forall a :: a in m && !Remapped(s, m[a]) ==> m'[a] == m[a])
  {
    hide Inv, Canon, AllSlots, AllReadable, Handled, Remapped;
    var d := AllSlots(s, m, types, vals, 0);
    var m', vals' := Fixed(s, m, d), ArgsFixed(s, types, vals);
    AllSlotsStable(s, m, d, types, vals, 0);
    AllSlotsOfFixed(s, m', types, vals, vals', 0);
    forall a | a in m
      ensures !Remapped(s, Canon(s, m[a])) && (!Remapped(s, m[a]) ==> m'[a] == m[a])
    {
      CanonLaws(s, m[a]);
    }
    forall k | 0 <= k < |vals| ensures !Remapped(s, Canon(s, vals[k])) { CanonLaws(s, vals[k]); }
  }

  ghost predicate InLog(log: seq<Record>, a: nat) {
    exists i :: 0 <= i < |log| && log[i].location == a
  }

  /**
   The log against the memory m0 the call began with: exactly the words that changed are logged, each
   once and with its first value, except those in `dropped`, for which the log could not grow.
   */
  ghost predicate LogOk(s: State, m0: Memory, m: Memory, log: seq<Record>, dropped: set<nat>)
    requires s.lay.Ok()
  {
    && m.Keys == m0.Keys
    && (forall i :: 0 <= i < |log| ==> log[i].location in m0 && log[i].value == m0[log[i].location])
    && (forall i, j :: 0 <= i < j < |log| ==> log[i].location != log[j].location)
    && (forall a :: a in m0 ==> m[a] == m0[a] || m[a] == Canon(s, m0[a]))
    && (forall a :: a in m0 ==> (m[a] != m0[a] <==> InLog(log, a) || a in dropped))
    && (forall a :: a in dropped ==> a in m0 && !InLog(log, a))
  }

  lemma LogStart(s: State, m: Memory)
    requires s.lay.Ok()
    ensures LogOk(s, m, m, [], {})
  {}

  /** One slot is fixed up and, if that changed it, logged or dropped. */
  lemma LogStep(s: State, m0: Memory, m: Memory, log: seq<Record>, dropped: set<nat>, a: nat, ok: bool)
    requires Inv(s) && s.lay.Ok() && LogOk(s, m0, m, log, dropped) && a in m
    ensures var c := Canon(s, m[a]);
            if c == m[a] then Fixed(s, m, {a}) == m
            else LogOk(s, m0, Fixed(s, m, {a}), if ok then log + [Record(a, m[a])] else log, if ok then dropped else dropped + {a})
  {
    hide Inv, Canon;
    CanonLaws(s, m0[a]);
    var c := Canon(s, m[a]);
    if c != m[a] {
      assert m[a] == m0[a];
      if ok { InLogAppend(log, Record(a, m[a])); }
    }
  }

  /** Memory `host` with every logged word as it was in m0. */
  ghost function Restored(m0: Memory, log: seq<Record>, host: Memory): (r: Memory)
    requires host.Keys == m0.Keys
    ensures r.Keys == m0.Keys
  {
    map a | a in host :: if InLog(log, a) then m0[a] else host[a]
  }

  /**
   The round trip. After a call in which the host wrote nothing, memory is as before the call exactly
   when every change was logged; words the host wrote outside the logged slots keep what it wrote.
   */
  lemma RoundTrip(s: State, m0: Memory, m: Memory, log: seq<Record>, dropped: set<nat>, host: Memory)
    requires s.lay.Ok() && LogOk(s, m0, m, log, dropped) && host.Keys == m0.Keys
    ensures dropped == {} <==> Restored(m0, log, m) == m0
    ensures dropped == {} ==> forall a :: a in m0 ==>
      Restored(m0, log, host)[a] == if host[a] == m[a] then m0[a] else if m[a] == m0[a] then host[a] else m0[a]
  {
    hide Canon;
    if dropped != {} {
      var a :| a in dropped;
      assert Restored(m0, log, m)[a] == m[a] != m0[a];
    }
  }

  /** With room for every record nothing is dropped, and a second pass logs nothing. */
  lemma NothingToLog(s: State, m: Memory, log: seq<Record>, dropped: set<nat>)
    requires s.lay.Ok() && LogOk(s, m, m, log, dropped)
    ensures log == [] && dropped == {}
  {
    if log != [] { assert InLog(log, log[0].location); }
    assert forall a :: a in dropped ==> a in m;
  }

  lemma LogFacts(s: State, m0: Memory, m: Memory, log: seq<Record>, dropped: set<nat>)
    requires s.lay.Ok() && LogOk(s, m0, m, log, dropped)
    ensures m.Keys == m0.Keys && forall r :: r in log ==> r.location in m0 && r.value == m0[r.location]
  {
    hide Canon;
  }

  lemma InLogAppend(log: seq<Record>, r: Record)
    ensures forall a :: InLog(log + [r], a) <==> InLog(log, a) || a == r.location
  {
    var log' := log + [r];
    forall a ensures InLog(log', a) <==> InLog(log, a) || a == r.location {
      if InLog(log, a) {
        var i :| 0 <= i < |log| && log[i].location == a;
        assert log'[i].location == a;
      }
      assert log'[|log|] == r;
    }
  }

  /** The fix-up of a call rewrites the word at a. */
  ghost predicate Rewritten(s: State, m: Memory, types: Option<seq<ParamType>>, vals: seq<nat>, a: nat)
    requires s.lay.Ok() && (types.Some? ==> CountsFollow(types.value, vals))
  {
    types.Some? && a in m && a in AllSlots(s, m, types.value, vals, 0) && Remapped(s, m[a])
  }

  /** A word after the call: restored, or else as the host left it. */
  ghost function WordAfter(s: State, m: Memory, writes: Memory, rewritten: bool, lost: bool, a: nat): nat
    requires s.lay.Ok() && a in m
  {
    if rewritten && !lost then m[a] else if a in writes then writes[a] else if lost then Canon(s, m[a]) else m[a]
  }

  /** The round trip, word by word, for a host that wrote `writes` between the hooks. */
  lemma WordRoundTrip(s: State, m0: Memory, m: Memory, log: seq<Record>, dropped: set<nat>, writes: Memory, a: nat, rewritten: bool)
    requires Inv(s) && s.lay.Ok() && LogOk(s, m0, m, log, dropped) && writes.Keys <= m0.Keys && a in m0
    requires rewritten <==> m[a] != m0[a]
    ensures Restored(m0, log, m + writes)[a] == WordAfter(s, m0, writes, rewritten, a in dropped, a)
    ensures a in dropped ==> rewritten
  {
    hide Inv, Canon;
  }

  /** Where a pointer that is being fixed up is stored. */
  datatype Loc = InArgs(i: nat) | InMemory(a: nat)

  class VmcallHooks {
    const dangless: DanglessMalloc
    const log: RestoreLog
    var mem: Memory
    var hookDepth: nat
    var fixupDepth: nat
    /** Memory as the current call found it, and the words changed without a log record. */
    ghost var before: Memory
    ghost var dropped: set<nat>

    ghost predicate Valid(s: State)
      reads this, log, log.records, dangless, dangless.pt, dangless.vp, dangless.vp.items, dangless.vp.items.nodes
    {
      && log.Valid() && dangless.Valid() && dangless.kernelMode && dangless.View() == s && s.lay.Ok()
      && LogOk(s, before, mem, log.Log(), dropped) && WordsApart(mem)
    }

    ghost function Writes(): set<object>
      reads this, log
    {
      {this} + log.Repr()
    }

    /** What a fix-up leaves alone besides memory, arguments and log. */
    twostate predicate Kept()
      reads this, log
    {
      before == old(before) && fixupDepth == old(fixupDepth) && hookDepth == old(hookDepth) && LossesExplained()
    }

    /** A record is lost only when the log could not grow. */
    twostate predicate LossesExplained()
      reads this, log
    {
      && log.refusals >= old(log.refusals) && (log.refusals == old(log.refusals) ==> dropped == old(dropped))
      && (!log.MayLose() ==> dropped == old(dropped))
    }

    constructor (dangless: DanglessMalloc, mem: Memory, log: RestoreLog)
      requires dangless.Valid() && dangless.kernelMode && WordsApart(mem) && log.Valid() && log.Log() == []
      ensures Valid(dangless.View()) && this.dangless == dangless && this.mem == mem && this.log == log
      ensures hookDepth == 0 && fixupDepth == 0
    {
      this.dangless, this.mem, before, dropped := dangless, mem, mem, {};
      hookDepth, fixupDepth := 0, 0;
      this.log := log;
      new;
      dangless.ValidInv();
      LogStart(dangless.View(), mem);
    }

    lemma ValidParts(s: State)
      requires Valid(s)
      ensures Inv(s) && s.lay.Ok() && dangless.lay == s.lay && dangless.Valid() && dangless.kernelMode && log.Valid() && mem.Keys == before.Keys
    {
      hide Inv, Legal;
    }

    /** The value of a pointer in its place. */
    function Get(args: array<nat>, loc: Loc): nat
      requires if loc.InArgs? then loc.i < args.Length else loc.a in mem
      reads this, args
    {
      match loc
      case InArgs(i) => args[i]
      case InMemory(a) => mem[a]
    }

    /** The tests of `fixup_ptr` and its call of `vremap_resolve`. */
    method Resolved(v: nat, ghost s: State) returns (canonical: nat, isValid: bool)
      requires Valid(s) && s.lay.Ok() && Resolvable(s, v)
      modifies dangless`vremapLastResult
      ensures Valid(s) && canonical == Canon(s, v) && (isValid <==> Backed(s, v))
    {
      hide Inv, Legal, LogOk, DanglessMalloc.Valid, DanglessMalloc.View, VaToPa, Resolve;
      ValidParts(s);
      if v < PGSIZE {
        return v, false;
      }
      if dangless.lay.InStack(v) {
        return v, true;
      }
      var result;
      result, canonical := dangless.ResolveValue(v, s);
      isValid := result != EVREM_NO_PHYS_BACK;
    }

    /**
     `fixup_ptr`: the pointer becomes canonical where it stands. An argument, at depth 1, is changed
     for good; a pointer in user memory is logged if it changed.
     */
    method FixupPtr(args: array<nat>, loc: Loc, ghost s: State) returns (isValid: bool)
      requires Valid(s)
      requires if loc.InArgs? then loc.i < args.Length && fixupDepth == 1 else loc.a in mem && fixupDepth > 1
      requires s.lay.Ok() && Resolvable(s, Get(args, loc))
      modifies Writes(), args, dangless`vremapLastResult
      ensures Valid(s) && fresh(Writes() - old(Writes())) && Kept()
      ensures isValid <==> Backed(s, old(Get(args, loc)))
      ensures loc.InArgs? ==> args[..] == old(args[..])[loc.i := Canon(s, old(args[loc.i]))] && mem == old(mem)
      ensures loc.InMemory? ==> args[..] == old(args[..]) && mem == Fixed(s, old(mem), {loc.a})
    {
      hide Inv, Legal, LogOk, DanglessMalloc.Valid, DanglessMalloc.View, Resolve, Canon, Backed;
      ValidParts(s);
      var v, canonical := Get(args, loc), 0;
      canonical, isValid := Resolved(v, s);
      if canonical != v {
        match loc {
          case InArgs(i) => args[i] := canonical;
          case InMemory(a) => Store(a, v, canonical, s);
        }
      } else if loc.InMemory? {
        LogStep(s, before, mem, log.Log(), dropped, loc.a, true);
      }
    }

    /** The store of `fixup_ptr` into user memory, and its log record. */
    method Store(a: nat, v: nat, canonical: nat, ghost s: State)
      requires Valid(s) && a in mem && v == mem[a] && canonical == Canon(s, v) != v && fixupDepth > 1
      modifies Writes()
      ensures Valid(s) && fresh(Writes() - old(Writes())) && Kept()
      ensures mem == Fixed(s, old(mem), {a})
    {
      hide Inv, Legal, LogOk, DanglessMalloc.Valid, DanglessMalloc.View, Resolve, Canon, Fixed, WordsApart;
      ValidParts(s);
      ghost var m, l := mem, log.Log();
      FixedOne(s, m, a);
      mem := mem[a := canonical];
      if fixupDepth > 1 {
        ghost var ok := log.OnReturn(a, v);
        LogStep(s, before, m, l, dropped, a, ok);
        dropped := if ok then dropped else dropped + {a};
      }
    }

    /** `fixup_enter` */
    method FixupEnter(ghost s: State)
      requires Valid(s)
      modifies this`fixupDepth
      ensures Valid(s) && fixupDepth == old(fixupDepth) + 1
    {
      fixupDepth := fixupDepth + 1;
    }

    /** `fixup_leave` */
    method FixupLeave(ghost s: State)
      requires Valid(s) && fixupDepth > 0
      modifies this`fixupDepth
      ensures Valid(s) && fixupDepth == old(fixupDepth) - 1
    {
      fixupDepth := fixupDepth - 1;
    }

    /** `fixup_ptr_ptr_nullterm` */
    method FixupPtrPtrNullterm(args: array<nat>, loc: Loc, ghost s: State)
      requires Valid(s) && loc.InArgs? && loc.i < args.Length && fixupDepth == 1
      requires Readable(s, mem, PtrPtr(args[loc.i]))
      modifies Writes(), args, dangless`vremapLastResult
      ensures Valid(s) && fresh(Writes() - old(Writes())) && Kept()
      ensures args[..] == old(args[..])[loc.i := Canon(s, old(args[loc.i]))]
      ensures mem == Fixed(s, old(mem), Slots(s, old(mem), PtrPtr(old(args[loc.i]))))
    {
      hide Inv, Legal, LogOk, DanglessMalloc.Valid, DanglessMalloc.View, Resolve, Canon, Backed, Valid, Slots;
      ghost var v := args[loc.i];
      ValidParts(s);
      var isValid := FixupPtr(args, loc, s);
      if isValid {
        ghost var e: nat :| EndsAt(s, mem, Canon(s, v), e);
        ScopedCells(args, args[loc.i], e, PtrPtr(v), s);
      } else {
        NoSlots(s, mem, PtrPtr(v));
      }
    }

    /** The fix-up scope of a null-terminated array. */
    method ScopedCells(args: array<nat>, ptrs: nat, ghost e: nat, ghost g: Arg, ghost s: State)
      requires Valid(s) && s.lay.Ok() && fixupDepth > 0 && EndsAt(s, mem, ptrs, e)
      requires g.PtrPtr? && Backed(s, g.v) && ptrs == Canon(s, g.v)
      modifies Writes(), args, dangless`vremapLastResult
      ensures Valid(s) && fresh(Writes() - old(Writes())) && Kept()
      ensures args[..] == old(args[..]) && mem == Fixed(s, old(mem), Slots(s, old(mem), g))
    {
      hide Inv, Legal, LogOk, DanglessMalloc.Valid, DanglessMalloc.View, Resolve, Canon, Backed, Valid, VecSlots,
        Slots, Readable, VecReadable, Fixed;
      FixupEnter(s);
      FixupCells(args, ptrs, e, g, s);
      FixupLeave(s);
    }

    /** The loop over the entries of a null-terminated array. */
    method FixupCells(args: array<nat>, ptrs: nat, ghost e: nat, ghost g: Arg, ghost s: State)
      requires Valid(s) && s.lay.Ok() && fixupDepth > 1 && EndsAt(s, mem, ptrs, e)
      requires g.PtrPtr? && Backed(s, g.v) && ptrs == Canon(s, g.v)
      modifies Writes(), args, dangless`vremapLastResult
      ensures Valid(s) && fresh(Writes() - old(Writes())) && Kept()
      ensures args[..] == old(args[..]) && mem == Fixed(s, old(mem), Slots(s, old(mem), g))
    {
      hide Inv, Legal, LogOk, DanglessMalloc.Valid, DanglessMalloc.View, Resolve, Canon, Backed, Valid, Slots, FirstAt, Fixed;
      ValidParts(s);
      ghost var m0 := mem;
      FirstAtNone(m0, ptrs, 8);
      FixedNone(s, m0);
      CellReadable(s, m0, ptrs, e, 0);
      var i: nat := 0;
      while mem[ptrs + 8 * i] != 0
        invariant Valid(s) && fresh(Writes() - old(Writes())) && Kept()
        invariant args[..] == old(args[..]) && mem == Fixed(s, m0, FirstAt(m0, ptrs, i, 8))
        invariant ptrs + 8 * i <= e && ptrs + 8 * i in m0
        invariant ptrs + 8 * i in mem && (mem[ptrs + 8 * i] == 0 <==> ptrs + 8 * i == e)
        decreases e - (ptrs + 8 * i)
      {
        CellStep(s, m0, ptrs, e, i);
        OtherKept(s, m0, FirstAt(m0, ptrs, i + 1, 8), ptrs + 8 * (i + 1));
        var _ := FixupPtr(args, InMemory(ptrs + 8 * i), s);
        i := i + 1;
      }
      AllCells(s, m0, g, ptrs, i, e);
    }

    /** `fixup_iovec_array`: the array pointer stands among the arguments or in a message header. */
    method FixupIovecArray(args: array<nat>, loc: Loc, n: nat, ghost s: State)
      requires Valid(s)
      requires if loc.InArgs? then loc.i < args.Length && fixupDepth == 1 else loc.a in mem && fixupDepth > 1
      requires var v := Get(args, loc);
               s.lay.Ok() && Resolvable(s, v) && (Backed(s, v) ==> VecReadable(s, mem, Canon(s, v), n))
      modifies Writes(), args, dangless`vremapLastResult
      ensures Valid(s) && fresh(Writes() - old(Writes())) && Kept()
      ensures loc.InArgs? ==> args[..] == old(args[..])[loc.i := Canon(s, old(args[loc.i]))]
      ensures loc.InMemory? ==> args[..] == old(args[..])
      ensures var d := VecSlots(s, old(mem), old(Get(args, loc)), n);
              mem == Fixed(s, old(mem), if loc.InArgs? then d else {loc.a} + d)
    {
      hide Inv, Legal, LogOk, DanglessMalloc.Valid, DanglessMalloc.View, Resolve, Canon, Backed, Valid, VecSlots;
      ValidParts(s);
      ghost var m0, v := mem, Get(args, loc);
      var isValid := FixupPtr(args, loc, s);
      ghost var d0 := if loc.InArgs? then {} else {loc.a};
      FixedNone(s, m0);
      assert mem == Fixed(s, m0, d0);
      CanonLaws(s, v);
      PointersStay(s, m0, d0);
      VecSlotsSame(s, m0, mem, v, n);
      if isValid {
        ScopedVec(args, loc, n, v, s);
        FixedTwice(s, m0, d0, VecSlots(s, m0, v, n));
      } else {
        NoVecSlots(s, m0, v, n);
      }
      assert {} + VecSlots(s, m0, v, n) == VecSlots(s, m0, v, n);
      if loc.InMemory? { assert {loc.a} + {} == {loc.a}; }
    }

    /** The fix-up scope of an iovec array. */
    method ScopedVec(args: array<nat>, loc: Loc, n: nat, ghost v: nat, ghost s: State)
      requires Valid(s) && fixupDepth > 0 && if loc.InArgs? then loc.i < args.Length else loc.a in mem
      requires s.lay.Ok() && Backed(s, v) && Get(args, loc) == Canon(s, v) && VecReadable(s, mem, Canon(s, v), n)
      modifies Writes(), args, dangless`vremapLastResult
      ensures Valid(s) && fresh(Writes() - old(Writes())) && Kept()
      ensures args[..] == old(args[..]) && mem == Fixed(s, old(mem), VecSlots(s, old(mem), v, n))
    {
      hide Inv, Legal, LogOk, DanglessMalloc.Valid, DanglessMalloc.View, Resolve, Canon, Backed, Valid, VecSlots,
        Slots, Readable, VecReadable, Fixed;
      FixupEnter(s);
      FixupVec(args, loc, n, v, s);
      FixupLeave(s);
    }

    /** The loop over the iovecs; the array pointer is read again in every round. */
    method FixupVec(args: array<nat>, loc: Loc, n: nat, ghost v: nat, ghost s: State)
      requires Valid(s) && fixupDepth > 1 && if loc.InArgs? then loc.i < args.Length else loc.a in mem
      requires s.lay.Ok() && Backed(s, v) && Get(args, loc) == Canon(s, v) && VecReadable(s, mem, Canon(s, v), n)
      modifies Writes(), args, dangless`vremapLastResult
      ensures Valid(s) && fresh(Writes() - old(Writes())) && Kept()
      ensures args[..] == old(args[..]) && mem == Fixed(s, old(mem), VecSlots(s, old(mem), v, n))
    {
      hide Inv, Legal, LogOk, DanglessMalloc.Valid, DanglessMalloc.View, Resolve, Canon, Backed, Valid, VecSlots, FirstAt;
      ValidParts(s);
      ghost var m0, p := mem, Canon(s, v);
      CanonLaws(s, v);
      FirstAtNone(m0, p, 16);
      FixedNone(s, m0);
      var i := 0;
      while i < n
        invariant Valid(s) && fresh(Writes() - old(Writes())) && Kept()
        invariant args[..] == old(args[..]) && mem == Fixed(s, m0, FirstAt(m0, p, i, 16))
        invariant i <= n
      {
        var iovecs := Get(args, loc);
        assert iovecs == p;
        assert VecAt(p, n, p + 16 * i);
        PointersStay(s, m0, FirstAt(m0, p, i, 16));
        FixedTwice(s, m0, FirstAt(m0, p, i, 16), {p + 16 * i});
        FirstAtNext(m0, p, i, 16);
        var _ := FixupPtr(args, InMemory(iovecs + 16 * i), s);
        i := i + 1;
      }
      AllVecs(s, m0, v, n);
    }

    /** `fixup_msghdr` */
    method FixupMsghdr(args: array<nat>, loc: Loc, ghost s: State)
      requires Valid(s) && loc.InArgs? && loc.i < args.Length && fixupDepth == 1
      requires Readable(s, mem, Msghdr(args[loc.i]))
      modifies Writes(), args, dangless`vremapLastResult
      ensures Valid(s) && fresh(Writes() - old(Writes())) && Kept()
      ensures args[..] == old(args[..])[loc.i := Canon(s, old(args[loc.i]))]
      ensures mem == Fixed(s, old(mem), Slots(s, old(mem), Msghdr(old(args[loc.i]))))
    {
      hide Inv, Legal, LogOk, DanglessMalloc.Valid, DanglessMalloc.View, Resolve, Canon, Backed, Valid, Slots;
      ghost var v := args[loc.i];
      ValidParts(s);
      var isValid := FixupPtr(args, loc, s);
      if isValid {
        ScopedMsghdrFields(args, args[loc.i], v, s);
      } else {
        NoSlots(s, mem, Msghdr(v));
      }
    }

    /** The fix-up scope of a message header. */
    method ScopedMsghdrFields(args: array<nat>, msghdr: nat, ghost v: nat, ghost s: State)
      requires Valid(s) && fixupDepth > 0 && s.lay.Ok() && Backed(s, v) && msghdr == Canon(s, v)
      requires Readable(s, mem, Msghdr(v))
      modifies Writes(), args, dangless`vremapLastResult
      ensures Valid(s) && fresh(Writes() - old(Writes())) && Kept()
      ensures args[..] == old(args[..]) && mem == Fixed(s, old(mem), Slots(s, old(mem), Msghdr(v)))
    {
      hide Inv, Legal, LogOk, DanglessMalloc.Valid, DanglessMalloc.View, Resolve, Canon, Backed, Valid, VecSlots,
        Slots, Readable, VecReadable, Fixed;
      FixupEnter(s);
      FixupMsghdrFields(args, msghdr, v, s);
      FixupLeave(s);
    }

    /** The three pointers of a message header, and the iovecs behind one of them. */
    method FixupMsghdrFields(args: array<nat>, msghdr: nat, ghost v: nat, ghost s: State)
      requires Valid(s) && fixupDepth > 1 && s.lay.Ok() && Backed(s, v) && msghdr == Canon(s, v)
      requires Readable(s, mem, Msghdr(v))
      modifies Writes(), args, dangless`vremapLastResult
      ensures Valid(s) && fresh(Writes() - old(Writes())) && Kept()
      ensures args[..] == old(args[..]) && mem == Fixed(s, old(mem), Slots(s, old(mem), Msghdr(v)))
    {
      hide Inv, Legal, LogOk, DanglessMalloc.Valid, DanglessMalloc.View, Resolve, Canon, Backed, Valid, VecSlots,
        Slots, Readable, VecReadable, Fixed;
      ValidParts(s);
      ghost var m0 := mem;
      MsghdrSlots(s, m0, v);
      HeaderReady(s, m0, v);
      ghost var base, n := m0[msghdr + MSG_IOV], m0[msghdr + MSG_IOVLEN];
      ghost var d := NameAndIov(s, m0, msghdr, base, n);
      FixupNameAndIov(args, msghdr, v, base, n, s);
      PointersStay(s, m0, d);
      FixedTwice(s, m0, d, {msghdr + MSG_CONTROL});
      var _ := FixupPtr(args, InMemory(msghdr + MSG_CONTROL), s);
    }

    method FixupNameAndIov(args: array<nat>, msghdr: nat, ghost v: nat, ghost base: nat, ghost n: nat, ghost s: State)
      requires Valid(s) && fixupDepth > 1 && s.lay.Ok() && Backed(s, v) && msghdr == Canon(s, v)
      requires Readable(s, mem, Msghdr(v)) && HeaderAt(mem, msghdr, base, n)
      modifies Writes(), args, dangless`vremapLastResult
      ensures Valid(s) && fresh(Writes() - old(Writes())) && Kept()
      ensures args[..] == old(args[..])
      ensures mem == Fixed(s, old(mem), NameAndIov(s, old(mem), msghdr, base, n))
    {
      hide Inv, Legal, LogOk, DanglessMalloc.Valid, DanglessMalloc.View, Resolve, Canon, Backed, Valid, VecSlots,
        Slots, Readable, VecReadable, Fixed;
      ValidParts(s);
      ghost var m0 := mem;
      HeaderReady(s, m0, v);
      var _ := FixupPtr(args, InMemory(msghdr + MSG_NAME), s);
      VecSlotsSame(s, m0, mem, base, n);
      FixupIovecArray(args, InMemory(msghdr + MSG_IOV), mem[msghdr + MSG_IOVLEN], s);
      FixedTwice(s, m0, {msghdr}, {msghdr + MSG_IOV} + VecSlots(s, m0, base, n));
    }

    /** `vmcall_fixup_args`: every argument the table describes, in turn. */
    method FixupArgs(types: seq<ParamType>, args: array<nat>, ghost s: State)
      requires Valid(s) && fixupDepth == 0 && CountsFollow(types, args[..]) && s.lay.Ok()
      requires AllReadable(s, mem, types, args[..], 0)
      modifies Writes(), args, dangless`vremapLastResult
      ensures Valid(s) && fresh(Writes() - old(Writes())) && Kept() && fixupDepth == 0
      ensures args[..] == ArgsFixed(s, types, old(args[..]))
      ensures mem == Fixed(s, old(mem), AllSlots(s, old(mem), types, old(args[..]), 0))
      ensures CountsFollow(types, args[..]) && PassDone(s, types, old(args[..]), args[..], old(mem), mem)
    {
      hide Inv, Legal, LogOk, DanglessMalloc.Valid, DanglessMalloc.View, Resolve, Canon, Backed, Valid, Slots, Readable, Fixed;
      ValidParts(s);
      ghost var m0, vals, d := mem, args[..], {};
      FixedNone(s, m0);
      var argIndex := 0;
      while argIndex < |types|
        invariant Valid(s) && fresh(Writes() - old(Writes())) && Kept() && fixupDepth == 0
        invariant mem == Fixed(s, m0, d) && AllSlots(s, m0, types, vals, 0) == d + AllSlots(s, m0, types, vals, argIndex)
        invariant AllReadable(s, m0, types, vals, argIndex)
        invariant ArgsSoFar(s, types, vals, args[..], argIndex)
      {
        ArgsAhead(s, types, vals, args[..], argIndex);
        if types[argIndex] == NoFixup || args[argIndex] < PGSIZE {
          argIndex := argIndex + 1;
          continue;
        }
        ghost var g := ArgAt(types, vals, argIndex);
        SlotsStable(s, m0, d, g);
        FixedTwice(s, m0, d, Slots(s, m0, g));
        FixupArg(types[argIndex], args, argIndex, g, s);
        d := d + Slots(s, m0, g);
        argIndex := if types[argIndex] == IovecParam then argIndex + 2 else argIndex + 1;
      }
      ArgsDone(s, types, vals, args[..], argIndex);
      PassIsDone(s, m0, types, vals);
    }

    /** The switch of `vmcall_fixup_args`. */
    method FixupArg(t: ParamType, args: array<nat>, i: nat, ghost g: Arg, ghost s: State)
      requires Valid(s) && fixupDepth == 0 && t != NoFixup && i < args.Length && (t == IovecParam ==> i + 1 < args.Length)
      requires s.lay.Ok() && g == ArgOf(t, args[..], i) && Readable(s, mem, g)
      modifies Writes(), args, dangless`vremapLastResult
      ensures Valid(s) && fresh(Writes() - old(Writes())) && Kept() && fixupDepth == 0
      ensures args[..] == old(args[..])[i := Canon(s, old(args[i]))] && mem == Fixed(s, old(mem), Slots(s, old(mem), g))
    {
      hide Inv, Legal, LogOk, DanglessMalloc.Valid, DanglessMalloc.View, Resolve, Canon, Backed, Valid, Fixed, Slots, VecSlots;
      ValidParts(s);
      FixupEnter(s);
      if g.Iovec? { IovecSlots(s, mem, g.v, g.n); }
      match t {
        case IovecParam => FixupIovecArray(args, InArgs(i), args[i + 1], s);
        case PtrPtrParam => FixupPtrPtrNullterm(args, InArgs(i), s);
        case MsghdrParam => FixupMsghdr(args, InArgs(i), s);
        case FlatParam =>
          var _ := FixupPtr(args, InArgs(i), s);
          FlatHasNone(s, mem, g.v);
        case NoFixup =>
          assert false;
      }
      FixupLeave(s);
    }

    /**
     `dangless_vmcall_prehook`, as far as it concerns memory and arguments. The log is empty: the
     hook of the previous call has emptied it.
     */
    method PreHook(types: Option<seq<ParamType>>, args: array<nat>, ghost s: State)
      requires Valid(s) && hookDepth == 0 && fixupDepth == 0 && log.Log() == []
      requires types.Some? ==> CountsFollow(types.value, args[..]) && AllReadable(s, mem, types.value, args[..], 0)
      modifies Writes(), args, dangless`vremapLastResult
      ensures Valid(s) && fresh(Writes() - old(Writes())) && hookDepth == 0 && fixupDepth == 0
      ensures before == old(mem) && (log.refusals == old(log.refusals) || !log.MayLose() ==> dropped == {})
      ensures types.None? ==> args[..] == old(args[..]) && mem == old(mem)
      ensures types.Some? ==> args[..] == ArgsFixed(s, types.value, old(args[..]))
      ensures types.Some? ==> mem == Fixed(s, old(mem), AllSlots(s, old(mem), types.value, old(args[..]), 0))
      ensures types.Some? ==> CountsFollow(types.value, args[..]) && PassDone(s, types.value, old(args[..]), args[..], old(mem), mem)
    {
      hide Inv, Legal, LogOk, DanglessMalloc.Valid, DanglessMalloc.View, Resolve, Canon, Backed, AllSlots, AllReadable, Fixed,
        WordsApart, ArgsFixed, CountsFollow, PassDone;
      hookDepth := hookDepth + 1;
      LogStart(s, mem);
      before, dropped := mem, {};
      if types.Some? {
        FixupArgs(types.value, args, s);
      }
      hookDepth := hookDepth - 1;
    }

    /** `vmcall_fixup_restore_originals` */
    method RestoreOriginals()
      requires log.Valid() && mem.Keys == before.Keys
      requires forall r :: r in log.Log() ==> r.location in before && r.value == before[r.location]
      modifies this`mem, log`count
      ensures log.Valid() && log.Log() == [] && mem == Restored(before, old(log.Log()), old(mem))
    {
      if log.count == 0 {
        assert forall a :: !InLog([], a);
        return;
      }
      ghost var host, l := mem, log.Log();
      var i := 0;
      while i < log.count
        invariant i <= log.count && log.Valid() && log.Log() == l && unchanged(log)
        invariant mem == Restored(before, l[..i], host)
      {
        var record := log.records[i];
        assert record == l[i] && record in l;
        InLogAppend(l[..i], record);
        assert l[..i + 1] == l[..i] + [record];
        mem := mem[record.location := record.value];
        i := i + 1;
      }
      assert l[..i] == l;
      log.count := 0;
    }

    /**
     `dangless_vmcall_posthook`: every logged word gets its first value back, whatever the host has
     written (`host` is the memory it left); all other words are as the host left them.
     */
    method PostHook(host: Memory, ghost s: State)
      requires Valid(s) && hookDepth == 0 && fixupDepth == 0 && host.Keys == mem.Keys
      modifies Writes()
      ensures Valid(s) && Writes() == old(Writes()) && hookDepth == 0 && fixupDepth == 0 && log.Log() == []
      ensures log.refusals == old(log.refusals)
      ensures mem == Restored(old(before), old(log.Log()), host)
    {
      hide Inv, Legal, LogOk, DanglessMalloc.Valid, DanglessMalloc.View, Resolve, Restored;
      hookDepth := hookDepth + 1;
      LogFacts(s, before, mem, log.Log(), dropped);
      mem := host;
      RestoreOriginals();
      before, dropped := mem, {};
      LogStart(s, mem);
      hookDepth := hookDepth - 1;
    }

    /**
     A whole system call, in which the host writes `writes`. Every rewritten word gets its first
     value back, except those in `lost`; none is lost unless the log could not grow.
     */
    method Call(types: Option<seq<ParamType>>, args: array<nat>, writes: Memory, ghost s: State) returns (ghost lost: set<nat>)
      requires Valid(s) && hookDepth == 0 && fixupDepth == 0 && log.Log() == [] && writes.Keys <= mem.Keys && s.lay.Ok()
      requires types.Some? ==> CountsFollow(types.value, args[..]) && AllReadable(s, mem, types.value, args[..], 0)
      modifies Writes(), args, dangless`vremapLastResult
      ensures Valid(s) && fresh(Writes() - old(Writes())) && hookDepth == 0 && fixupDepth == 0 && log.Log() == []
      ensures mem.Keys == old(mem.Keys) && (log.refusals == old(log.refusals) || !log.MayLose() ==> lost == {})
      ensures forall a :: a in lost ==> a in old(mem) && Rewritten(s, old(mem), types, old(args[..]), a)
      ensures forall a :: a in old(mem) ==>
        mem[a] == WordAfter(s, old(mem), writes, Rewritten(s, old(mem), types, old(args[..]), a), a in lost, a)
    {
      hide Inv, Legal, LogOk, DanglessMalloc.Valid, DanglessMalloc.View, Resolve, Canon, Restored, AllSlots,
        AllReadable, WordAfter, Remapped, Handled;
      ghost var m0, vals := mem, args[..];
      PreHook(types, args, s);
      ghost var m, l := mem, log.Log();
      lost := dropped;
      ValidParts(s);
      PostHook(mem + writes, s);
      forall a | a in m0
        ensures mem[a] == WordAfter(s, m0, writes, Rewritten(s, m0, types, vals, a), a in lost, a)
        ensures a in lost ==> Rewritten(s, m0, types, vals, a)
      {
        CanonLaws(s, m0[a]);
        WordRoundTrip(s, m0, m, l, lost, writes, a, Rewritten(s, m0, types, vals, a));
      }
      LostWords(s, m0, m, l, lost);
    }
  }

  lemma LostWords(s: State, m0: Memory, m: Memory, log: seq<Record>, dropped: set<nat>)
    requires s.lay.Ok() && LogOk(s, m0, m, log, dropped)
    ensures forall a :: a in dropped ==> a in m0
  {}
}

/**
 Dune's piecewise translation between canonical virtual addresses and physical addresses, and the
 inverse the page-table code relies on. `mmapBase` and `stackBase` vary from run to run.
 */
module DuneMem {
  import opened PageMath

  const PHYS_LIMIT := 0x80_0000_0000
  const GPA_STACK_SIZE := 0x4000_0000
  const GPA_MAP_SIZE := 0xF_C000_0000

  /** The lowest physical addresses of the stack (511 GB) and of mmap()ed memory (448 GB). */
  const STACK_PA_BASE := PHYS_LIMIT - GPA_STACK_SIZE
  const MMAP_PA_BASE := PHYS_LIMIT - GPA_STACK_SIZE - GPA_MAP_SIZE

  datatype Layout = Layout(mmapBase: nat, stackBase: nat) {
    /** The regions lie above the physical range, in order, page-aligned, inside the lower half. */
    predicate Ok() {
      && PHYS_LIMIT <= mmapBase && mmapBase + GPA_MAP_SIZE <= stackBase
      && stackBase + GPA_STACK_SIZE <= 0x8000_0000_0000
      && mmapBase % PGSIZE == 0 && stackBase % PGSIZE == 0
    }

    predicate InMmap(va: nat) { mmapBase <= va < mmapBase + GPA_MAP_SIZE }

    predicate InStack(va: nat) { stackBase <= va < stackBase + GPA_STACK_SIZE }

    /** Where canonical heap addresses lie: identity-mapped memory or the mmap region. */
    predicate Canonical(va: nat) { va < MMAP_PA_BASE || InMmap(va) }
  }

  /** `dune_va_to_pa` */
  function VaToPa(l: Layout, va: nat): (pa: nat)
    requires l.Ok()
  {
    if va >= l.stackBase then va - l.stackBase + PHYS_LIMIT - GPA_STACK_SIZE
    else if va >= l.mmapBase then va - l.mmapBase + PHYS_LIMIT - GPA_STACK_SIZE - GPA_MAP_SIZE
    else va
  }

  /** The physical addresses `pt_paddr2vaddr` accepts: its assertion is that they lie below the stack's. */
  predicate BelowStack(pa: nat) { pa < STACK_PA_BASE }

  /** `pt_paddr2vaddr` */
  function PaddrToVaddr(l: Layout, pa: nat): nat
    requires l.Ok()
  {
    if pa >= MMAP_PA_BASE then pa + l.mmapBase - PHYS_LIMIT + GPA_STACK_SIZE + GPA_MAP_SIZE
    else pa
  }

  /**
   The inverse law, with its exact domain: the translation is accepted and comes back to where it
   started precisely for identity-mapped addresses below 448 GB and for the mmap region.
   */
  lemma InverseExactlyOnCanonical(l: Layout, va: nat)
    requires l.Ok()
    ensures BelowStack(VaToPa(l, va)) && PaddrToVaddr(l, VaToPa(l, va)) == va <==> l.Canonical(va)
  {}

  /** The other way round: every physical address below the stack's comes back. */
  lemma PhysicalBack(l: Layout, pa: nat)
    requires l.Ok() && BelowStack(pa)
    ensures l.Canonical(PaddrToVaddr(l, pa)) && VaToPa(l, PaddrToVaddr(l, pa)) == pa
  {}

  /** The inverse translation of the bytes of a page. */
  lemma PhysicalPage(l: Layout, f: nat, o: nat)
    requires l.Ok() && BelowStack(f * PGSIZE) && o < PGSIZE
    ensures BelowStack(f * PGSIZE + o)
    ensures PaddrToVaddr(l, f * PGSIZE + o) == PaddrToVaddr(l, f * PGSIZE) + o && PaddrToVaddr(l, f * PGSIZE) % PGSIZE == 0
  {
    var q := l.mmapBase / PGSIZE;
    assert f * PGSIZE + l.mmapBase - MMAP_PA_BASE == (f + q - MMAP_PA_BASE / PGSIZE) * PGSIZE;
  }

  /** On canonical addresses the translation is one to one. */
  lemma CanonicalInjective(l: Layout, a: nat, b: nat)
    requires l.Ok() && l.Canonical(a) && l.Canonical(b) && VaToPa(l, a) == VaToPa(l, b)
    ensures a == b
  {
    InverseExactlyOnCanonical(l, a);
    InverseExactlyOnCanonical(l, b);
  }

  /** A block that stays inside one region is physically contiguous. */
  predicate OneRegion(l: Layout, c: nat, n: nat) {
    n > 0 && (c + n <= MMAP_PA_BASE || (l.mmapBase <= c && c + n <= l.mmapBase + GPA_MAP_SIZE))
  }

  lemma Contiguous(l: Layout, c: nat, n: nat, i: nat)
    requires l.Ok() && OneRegion(l, c, n) && i < n
    ensures l.Canonical(c + i) && VaToPa(l, c + i) == VaToPa(l, c) + i < STACK_PA_BASE
  {}

  lemma KeepsOffset(l: Layout, va: nat)
    requires l.Ok()
    ensures VaToPa(l, va) % PGSIZE == va % PGSIZE
    ensures VaToPa(l, va) / PGSIZE == VaToPa(l, va / PGSIZE * PGSIZE) / PGSIZE
    ensures VaToPa(l, va / PGSIZE * PGSIZE) == VaToPa(l, va) / PGSIZE * PGSIZE
  {
    var o := va % PGSIZE;
    if va >= l.stackBase {
      assert va - o >= l.stackBase by { SameSide(va, l.stackBase); }
    } else if va >= l.mmapBase {
      assert va - o >= l.mmapBase by { SameSide(va, l.mmapBase); }
    }
    assert VaToPa(l, va - o) == VaToPa(l, va) - o;
    AlignedRegions(l, va);
  }

  lemma SameSide(va: nat, base: nat)
    requires base % PGSIZE == 0 && va >= base
    ensures va - va % PGSIZE >= base
  {}

  lemma AlignedRegions(l: Layout, va: nat)
    requires l.Ok()
    ensures VaToPa(l, va) % PGSIZE == va % PGSIZE
  {
    if va >= l.stackBase {
      Rebased(va, l.stackBase, STACK_PA_BASE);
    } else if va >= l.mmapBase {
      Rebased(va, l.mmapBase, MMAP_PA_BASE);
    }
  }

  lemma Rebased(va: nat, base: nat, paBase: nat)
    requires base <= va && base % PGSIZE == 0 && paBase % PGSIZE == 0
    ensures (va - base + paBase) % PGSIZE == va % PGSIZE
  {
    var b, q := base / PGSIZE, paBase / PGSIZE;
    assert va - base + paBase == va + PGSIZE * (q - b);
  }

  /**
   When the walk's answer for an alias p of canonical c differs from Dune's own translation of p.
   It fails for c itself, and for an alias placed in [448 GB, 511 GB) over its mmap counterpart.
   */
  lemma AliasRecognised(l: Layout, p: nat, c: nat)
    requires l.Ok() && l.Canonical(c)
    ensures VaToPa(l, p) != VaToPa(l, c) <==>
      p != c && !(MMAP_PA_BASE <= p < STACK_PA_BASE && c == p - MMAP_PA_BASE + l.mmapBase)
  {}
}

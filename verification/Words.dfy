/**
 Page-table words and the bit operations the page-table code applies to them.

 A word is a natural number below 2^64. `And` and `Or` are C's `&` and `|`, defined bit by
 bit; the lemmas turn every mask and flag test of the source into the arithmetic form
 (`Present`, `Huge`, `FrameNo`, `FlagBits`) that the rest of the project reasons with.
 */
module Words {

  const PTE_V := 0x1
  const PTE_W := 0x2
  const PTE_U := 0x4
  const PTE_PS := 0x80
  const PTE_NX := 0x8000_0000_0000_0000
  const PTE_FRAME := 0x000f_ffff_ffff_f000
  const PTE_FRAME_2M := 0x000f_ffff_ffe0_0000
  const PTE_FRAME_1G := 0x000f_ffff_c000_0000
  const PTE_INVALIDATED := 0xDEAD00

  /** Number of page frames a page-table word can name: 40 frame bits. */
  const FRAMES := 0x100_0000_0000

  /** `w >> k`. */
  function Shr(w: nat, k: nat): nat { if k == 0 then w else Shr(w / 2, k - 1) }

  /** `w << k`, without truncation. */
  function Shl(w: nat, k: nat): nat { if k == 0 then w else 2 * Shl(w, k - 1) }

  /** `(1 << n) - 1`. */
  function Ones(n: nat): nat { if n == 0 then 0 else 2 * Ones(n - 1) + 1 }

  function And(a: nat, b: nat): nat {
    if a == 0 || b == 0 then 0
    else (if a % 2 == 1 && b % 2 == 1 then 1 else 0) + 2 * And(a / 2, b / 2)
  }

  function Or(a: nat, b: nat): nat
    decreases a + b
  {
    if a == 0 && b == 0 then 0
    else (if a % 2 == 1 || b % 2 == 1 then 1 else 0) + 2 * Or(a / 2, b / 2)
  }

  /** The valid bit, as arithmetic. */
  predicate Present(w: nat) { w % 2 == 1 }

  /** The page-size bit, as arithmetic. */
  predicate Huge(w: nat) { (w / 128) % 2 == 1 }

  /** The page-frame number held in bits 12 to 51. */
  function FrameNo(w: nat): nat { (w / 4096) % FRAMES }

  /** The permission bits V, W, U and NX. */
  function FlagBits(w: nat): nat { w % 8 + (w / PTE_NX) % 2 * PTE_NX }

  /** Flags a caller may pass to the mapping functions: no PS bit and no frame bits. */
  predicate OkFlags(flags: nat) {
    flags < 2 * PTE_NX && And(flags, PTE_PS) == 0 && And(flags, PTE_FRAME) == 0
  }

  /** `pa | flags | PTE_V`. */
  function MakePte(pa: nat, flags: nat): nat { Or(Or(pa, flags), PTE_V) }

  lemma {:induction false} AndComm(a: nat, b: nat)
    ensures And(a, b) == And(b, a)
  {
    if a != 0 && b != 0 { AndComm(a / 2, b / 2); }
  }

  /** Bits shifted up by k meet only the bits of `b` from k upwards. */
  lemma {:induction false} AndShifted(a: nat, b: nat, k: nat)
    ensures And(Shl(a, k), b) == Shl(And(a, Shr(b, k)), k)
    decreases k
  {
    if k > 0 {
      AndShifted(a, b / 2, k - 1);
      assert And(2 * Shl(a, k - 1), b) == 2 * And(Shl(a, k - 1), b / 2);
    }
  }

  /** Disjoint words are joined by addition. */
  lemma {:induction false} OrDisjoint(a: nat, b: nat)
    requires And(a, b) == 0
    ensures Or(a, b) == a + b
    decreases a + b
  {
    if a != 0 || b != 0 { OrDisjoint(a / 2, b / 2); }
  }

  lemma {:induction false} ShrShr(w: nat, j: nat, k: nat)
    ensures Shr(w, j + k) == Shr(Shr(w, j), k)
    decreases j
  {
    if j > 0 { ShrShr(w / 2, j - 1, k); }
  }

  lemma {:induction false} ShlShl(w: nat, j: nat, k: nat)
    ensures Shl(w, j + k) == Shl(Shl(w, j), k)
    decreases k
  {
    if k > 0 { ShlShl(w, j, k - 1); }
  }

  lemma Shift3(w: nat)
    ensures Shr(w, 3) == w / 8 && Shl(w, 3) == w * 8
  {
    assert Shr(w, 3) == Shr(w / 2, 2) == Shr(w / 2 / 2, 1) == Shr(w / 2 / 2 / 2, 0);
    assert Shl(w, 3) == 2 * Shl(w, 2) == 4 * Shl(w, 1) == 8 * Shl(w, 0);
  }

  /** One page-table level is nine bits. */
  lemma Shift9(w: nat)
    ensures Shr(w, 9) == w / 512 && Shl(w, 9) == w * 512
  {
    hide Shr, Shl;
    Shift3(w);
    ShrShr(w, 3, 6);
    ShlShl(w, 3, 6);
    Shift3(w / 8);
    Shift3(w * 8);
    ShrShr(w / 8, 3, 3);
    ShlShl(w * 8, 3, 3);
    Shift3(w / 64);
    Shift3(w * 64);
  }

  lemma Shift12(w: nat)
    ensures Shr(w, 12) == w / 4096 && Shl(w, 12) == w * 4096
  {
    Shift3(w);
    ShrShr(w, 3, 9);
    ShlShl(w, 3, 9);
    Shift9(w / 8);
    Shift9(w * 8);
  }

  lemma Shift21(w: nat)
    ensures Shr(w, 21) == w / 0x20_0000 && Shl(w, 21) == w * 0x20_0000
  {
    Shift12(w);
    ShrShr(w, 12, 9);
    ShlShl(w, 12, 9);
    Shift9(w / 4096);
    Shift9(w * 4096);
  }

  lemma Shift30(w: nat)
    ensures Shr(w, 30) == w / 0x4000_0000 && Shl(w, 30) == w * 0x4000_0000
  {
    Shift21(w);
    ShrShr(w, 21, 9);
    ShlShl(w, 21, 9);
    Shift9(w / 0x20_0000);
    Shift9(w * 0x20_0000);
  }

  lemma Shift39(w: nat)
    ensures Shr(w, 39) == w / 0x80_0000_0000 && Shl(w, 39) == w * 0x80_0000_0000
  {
    Shift30(w);
    ShrShr(w, 30, 9);
    ShlShl(w, 30, 9);
    Shift9(w / 0x4000_0000);
    Shift9(w * 0x4000_0000);
  }

  lemma Shift63(w: nat)
    ensures Shr(w, 63) == w / PTE_NX && Shl(w, 63) == w * PTE_NX
  {
    Shift39(w);
    ShrShr(w, 39, 24);
    ShlShl(w, 39, 24);
    var v, u := w / 0x80_0000_0000, w * 0x80_0000_0000;
    Shift12(v);
    Shift12(u);
    ShrShr(v, 12, 12);
    ShlShl(u, 12, 12);
    Shift12(v / 4096);
    Shift12(u * 4096);
  }

  /** A mask of n ones removes exactly what lies above bit n. */
  lemma {:induction false} AndOnes(w: nat, n: nat)
    ensures And(Ones(n), w) + Shl(Shr(w, n), n) == w
    decreases n
  {
    if n > 0 {
      AndOnes(w / 2, n - 1);
      AndOdd(Ones(n - 1), w);
      assert Ones(n) == 2 * Ones(n - 1) + 1 && Shl(Shr(w, n), n) == 2 * Shl(Shr(w / 2, n - 1), n - 1);
      hide And, Shl, Shr, Ones;
    }
  }

  lemma AndOdd(a: nat, w: nat)
    ensures And(2 * a + 1, w) == w % 2 + 2 * And(a, w / 2)
  {}

  lemma {:induction false} OnesAdd(j: nat, k: nat)
    ensures Ones(j + k) == Shl(Ones(k), j) + Ones(j)
    decreases j
  {
    if j > 0 { OnesAdd(j - 1, k); }
  }

  lemma OnesConst()
    ensures Ones(1) == 1 && Ones(3) == 7 && Ones(9) == 511 && Ones(22) == 0x3f_ffff
    ensures Ones(31) == 0x7fff_ffff && Ones(40) == 0xff_ffff_ffff
  {
    assert Ones(1) == 1 && Ones(2) == 3 && Ones(3) == 7 && Ones(4) == 15;
    OnesAdd(3, 1); OnesAdd(3, 3); OnesAdd(3, 6);
    Shift3(7); Shift3(63);
    OnesAdd(9, 4); Shift9(15);
    OnesAdd(9, 13); Shift9(0x1fff);
    OnesAdd(9, 22); Shift9(0x3f_ffff);
    OnesAdd(9, 31); Shift9(0x7fff_ffff);
  }

  /** `(w & mask)` for a mask of n ones starting at bit lo: the field, left in place. */
  lemma AndField(w: nat, lo: nat, n: nat)
    ensures And(w, Shl(Ones(n), lo)) == Shl(And(Ones(n), Shr(w, lo)), lo)
  {
    AndComm(w, Shl(Ones(n), lo));
    AndShifted(Ones(n), w, lo);
  }

  /** The low nine bits of a shifted address: `& (PT_NUM_ENTRIES - 1)`. */
  lemma AndEntries(w: nat)
    ensures And(w, 511) == w % 512
  {
    OnesConst();
    AndComm(w, 511);
    AndOnes(w, 9);
    Shift9(w);
    Shift9(w / 512);
  }

  lemma AndOne(w: nat)
    ensures And(1, w) == w % 2
  {
    assert And(0, w / 2) == 0;
  }

  lemma FrameMask(w: nat)
    ensures And(w, PTE_FRAME) == FrameNo(w) * 4096
  {
    OnesConst();
    Shift12(w);
    Shift12(Ones(40));
    AndField(w, 12, 40);
    var v := w / 4096;
    AndOnes(v, 40);
    Shift40(v);
    Shift40(v / FRAMES);
    Shift12(And(Ones(40), v));
  }

  lemma Shift40(v: nat)
    ensures Shr(v, 40) == v / FRAMES && Shl(v, 40) == v * FRAMES
  {
    Shift39(v);
    ShrShr(v, 39, 1);
    ShlShl(v, 39, 1);
    Shift1(v / 0x80_0000_0000);
    Shift1(v * 0x80_0000_0000);
  }

  lemma LowFrameBits(y: nat)
    ensures y % FRAMES / 512 == y / 512 % 0x8000_0000
  {
    var q, r := y / FRAMES, y % FRAMES;
    assert y == q * FRAMES + r;
    assert y / 512 == q * 0x8000_0000 + r / 512;
  }

  lemma LowerFrameBits(y: nat)
    ensures y % FRAMES / 0x4_0000 == y / 0x4_0000 % 0x40_0000
  {
    var q, r := y / FRAMES, y % FRAMES;
    assert y == q * FRAMES + r;
    assert y / 0x4_0000 == q * 0x40_0000 + r / 0x4_0000;
  }

  lemma Shift1(w: nat)
    ensures Shr(w, 1) == w / 2 && Shl(w, 1) == w * 2
  {
    assert Shl(w, 0) == w;
  }

  lemma Shift31(v: nat)
    ensures Shr(v, 31) == v / 0x8000_0000 && Shl(v, 31) == v * 0x8000_0000
  {
    Shift30(v);
    ShrShr(v, 30, 1);
    ShlShl(v, 30, 1);
    Shift1(v / 0x4000_0000);
    Shift1(v * 0x4000_0000);
  }

  lemma Shift22(v: nat)
    ensures Shr(v, 22) == v / 0x40_0000 && Shl(v, 22) == v * 0x40_0000
  {
    Shift21(v);
    ShrShr(v, 21, 1);
    ShlShl(v, 21, 1);
    Shift1(v / 0x20_0000);
    Shift1(v * 0x20_0000);
  }

  lemma AndOnes31(v: nat)
    ensures And(Ones(31), v) == v % 0x8000_0000
  {
    AndOnes(v, 31);
    Shift31(v);
    Shift31(v / 0x8000_0000);
  }

  lemma AndOnes22(v: nat)
    ensures And(Ones(22), v) == v % 0x40_0000
  {
    AndOnes(v, 22);
    Shift22(v);
    Shift22(v / 0x40_0000);
  }

  lemma FrameMask2M(w: nat)
    ensures And(w, PTE_FRAME_2M) == FrameNo(w) / 512 * 512 * 4096
  {
    var v := w / 0x20_0000;
    assert And(w, PTE_FRAME_2M) == v % 0x8000_0000 * 0x20_0000 by {
      OnesConst();
      Shift21(w);
      Shift21(Ones(31));
      AndField(w, 21, 31);
      AndOnes31(v);
      Shift21(And(Ones(31), v));
    }
    LowFrameBits(w / 4096);
    assert w / 4096 / 512 == v;
  }

  lemma FrameMask1G(w: nat)
    ensures And(w, PTE_FRAME_1G) == FrameNo(w) / 0x4_0000 * 0x4_0000 * 4096
  {
    var v := w / 0x4000_0000;
    assert And(w, PTE_FRAME_1G) == v % 0x40_0000 * 0x4000_0000 by {
      OnesConst();
      Shift30(w);
      Shift30(Ones(22));
      AndField(w, 30, 22);
      AndOnes22(v);
      Shift30(And(Ones(22), v));
    }
    LowerFrameBits(w / 4096);
    assert w / 4096 / 0x4_0000 == v;
  }

  /** Bit 7, from either side. */
  lemma Shift7(w: nat)
    ensures Shr(w, 7) == w / 128 && Shl(w, 7) == w * 128
  {
    Shift3(w);
    ShrShr(w, 3, 4);
    ShlShl(w, 3, 4);
    Shift4(w / 8);
    Shift4(w * 8);
  }

  lemma Shift4(w: nat)
    ensures Shr(w, 4) == w / 16 && Shl(w, 4) == w * 16
  {
    hide Shr, Shl;
    Shift3(w);
    ShrShr(w, 3, 1);
    ShlShl(w, 3, 1);
    Shift1(w / 8);
    Shift1(w * 8);
  }

  lemma FlagTests(w: nat)
    ensures And(w, PTE_V) != 0 <==> Present(w)
    ensures And(w, PTE_PS) != 0 <==> Huge(w)
  {
    hide And, Shr, Shl, Ones;
    OnesConst();
    AndComm(w, 1);
    AndOne(w);
    AndField(w, 7, 1);
    Shift7(w);
    Shift7(1);
    var b := And(1, w / 128);
    AndOne(w / 128);
    Shift7(b);
  }

  /** Every flag test and frame mask of the source is the arithmetic form used here. */
  lemma MasksAreFields(w: nat)
    ensures And(w, PTE_V) != 0 <==> Present(w)
    ensures And(w, PTE_PS) != 0 <==> Huge(w)
    ensures And(w, PTE_FRAME) == FrameNo(w) * 4096
    ensures And(w, PTE_FRAME_2M) == FrameNo(w) / 512 * 512 * 4096
    ensures And(w, PTE_FRAME_1G) == FrameNo(w) / 0x4_0000 * 0x4_0000 * 4096
  {
    FlagTests(w);
    FrameMask(w);
    FrameMask2M(w);
    FrameMask1G(w);
  }

  lemma {:induction false} AndOrSplit(a: nat, b: nat, w: nat)
    requires And(a, b) == 0
    ensures And(a + b, w) == And(a, w) + And(b, w)
    decreases a + b
  {
    if w != 0 && (a != 0 || b != 0) { AndOrSplit(a / 2, b / 2, w / 2); }
  }

  /** The permission mask `PTE_V | PTE_W | PTE_U | PTE_NX` keeps exactly `FlagBits`. */
  lemma PermissionMask(w: nat)
    ensures And(w, Or(Or(Or(PTE_V, PTE_W), PTE_U), PTE_NX)) == FlagBits(w)
  {
    OnesConst();
    assert Or(PTE_V, PTE_W) == 3;
    assert Or(3, PTE_U) == 7;
    Shift63(1);
    AndComm(7, PTE_NX);
    AndShifted(1, 7, 63);
    Shift63(7);
    assert And(1, 0) == 0;
    Shift63(0);
    OrDisjoint(7, PTE_NX);
    AndComm(w, 7 + PTE_NX);
    AndOrSplit(7, PTE_NX, w);
    AndOnes(w, 3);
    Shift3(w);
    Shift3(w / 8);
    AndShifted(1, w, 63);
    Shift63(w);
    AndOne(w / PTE_NX);
    Shift63(w / PTE_NX % 2);
  }

  /** A page address and mapping flags have no bit in common. */
  lemma AddressAndFlagsDisjoint(pa: nat, flags: nat)
    requires pa % 4096 == 0 && pa / 4096 < FRAMES && FrameNo(flags) == 0
    ensures And(pa, flags) == 0
  {
    var x, y := pa / 4096, flags / 4096;
    Shift12(x);
    AndShifted(x, flags, 12);
    Shift12(flags);
    var z := y / FRAMES;
    assert y == z * FRAMES;
    Shift40(z);
    AndComm(x, y);
    AndShifted(z, x, 40);
    Shift40(x);
    assert And(z, 0) == 0;
    Shift40(0);
    Shift12(0);
  }

  lemma FieldsOfSum(pa: nat, flags: nat)
    requires pa % 4096 == 0 && pa / 4096 < FRAMES
    requires FrameNo(flags) == 0 && !Huge(flags) && flags < 2 * PTE_NX
    ensures var s := pa + flags;
            !Huge(s) && FrameNo(s) == pa / 4096 && FlagBits(s) == FlagBits(flags) && (Present(s) <==> Present(flags))
  {
    FrameOfSum(pa / 4096, flags);
    HighBit(pa, flags);
    LowBits(pa / 4096, flags);
    BitSeven(pa / 4096, flags);
  }

  lemma FrameOfSum(x: nat, flags: nat)
    requires x < FRAMES && FrameNo(flags) == 0
    ensures FrameNo(4096 * x + flags) == x
  {
    var y := flags / 4096;
    assert (4096 * x + flags) / 4096 == x + y;
    var z := y / FRAMES;
    assert y == z * FRAMES;
  }

  lemma HighBit(pa: nat, flags: nat)
    requires pa % 4096 == 0 && pa / 4096 < FRAMES
    requires FrameNo(flags) == 0 && flags < 2 * PTE_NX
    ensures (pa + flags) / PTE_NX % 2 == flags / PTE_NX % 2
  {
    var z := flags / 4096 / FRAMES;
    assert flags == z * 0x10_0000_0000_0000 + flags % 4096;
    assert pa + flags % 4096 < 0x10_0000_0000_0000;
    assert (pa + flags) / PTE_NX == z / 2048;
  }

  lemma LowBits(x: nat, f: nat)
    ensures (4096 * x + f) % 8 == f % 8 && (4096 * x + f) % 2 == f % 2
  {
    EvenShift(2048 * x, f);
    EightShift(512 * x, f);
  }

  /** The valid bit survives the permission mask. */
  lemma FlagBitsPresent(w: nat)
    ensures Present(FlagBits(w)) <==> Present(w)
  {
    EvenShift(w / PTE_NX % 2 * 0x4000_0000_0000_0000, w % 8);
    EvenShift(w / 8 * 4, w % 8);
    assert w == 2 * (w / 8 * 4) + w % 8;
  }

  lemma EightShift(k: nat, f: nat)
    ensures (8 * k + f) % 8 == f % 8
  {}

  lemma BitSeven(x: nat, f: nat)
    ensures (4096 * x + f) / 128 % 2 == f / 128 % 2
  {
    assert 4096 * x + f == 128 * (32 * x + f / 128) + f % 128;
    EvenShift(16 * x, f / 128);
  }

  lemma EvenShift(k: nat, f: nat)
    ensures (2 * k + f) % 2 == f % 2
  {}

  lemma SuccLow(s: nat)
    requires s % 2 == 0
    ensures (s + 1) / 8 == s / 8 && (s + 1) / 128 == s / 128
  {
    assert s == 128 * (s / 128) + s % 128;
    assert s == 8 * (s / 8) + s % 8;
  }

  lemma SuccHigh(s: nat)
    requires s % 2 == 0
    ensures (s + 1) / 4096 == s / 4096 && (s + 1) / PTE_NX == s / PTE_NX
  {
    assert s == 4096 * (s / 4096) + s % 4096;
    assert s == PTE_NX * (s / PTE_NX) + s % PTE_NX;
  }

  lemma SetValid(s: nat)
    requires !Present(s)
    ensures Present(s + 1) && (Huge(s + 1) <==> Huge(s)) && FrameNo(s + 1) == FrameNo(s)
    ensures FlagBits(s + 1) == FlagBits(s) + PTE_V
  {
    SuccLow(s);
    SuccHigh(s);
  }

  /** The word written for a mapping decodes to the frame and permissions it was made from. */
  lemma MakePteFields(pa: nat, flags: nat)
    requires pa % 4096 == 0 && pa / 4096 < FRAMES && OkFlags(flags)
    ensures var w := MakePte(pa, flags);
            Present(w) && !Huge(w) && FrameNo(w) == pa / 4096
            && FlagBits(w) == if Present(flags) then FlagBits(flags) else FlagBits(flags) + PTE_V
  {
    assert FrameNo(flags) == 0 && !Huge(flags) by {
      FrameMask(flags);
      FlagTests(flags);
    }
    var s := pa + flags;
    assert MakePte(pa, flags) == if Present(s) then s else s + 1 by {
      AddressAndFlagsDisjoint(pa, flags);
      OrDisjoint(pa, flags);
      OrLow(s);
    }
    FieldsOfSum(pa, flags);
    if !Present(s) { SetValid(s); }
  }

  lemma OrLow(s: nat)
    ensures Or(s, PTE_V) == if Present(s) then s else s + 1
  {
    assert Or(s, 1) == 1 + 2 * Or(s / 2, 0);
    OrZero(s / 2);
  }

  lemma {:induction false} OrZero(s: nat)
    ensures Or(s, 0) == s
  {
    if s != 0 { OrZero(s / 2); }
  }

  /**
   A dead entry is not valid, so the walk stops at it and the processor faults on it; nor is it the zero
   of a cleared entry, so the fault handler can tell the two apart.
   */
  lemma DeadMarkerIsInvalid()
    ensures And(PTE_INVALIDATED, PTE_V) == 0 && PTE_INVALIDATED == 0xDEAD * 256 != 0
  {
    FlagTests(PTE_INVALIDATED);
  }
}

/**
 The entries of all levels on the walk to a page. The processor takes a page's permissions from all of
 them, so what a change of the page table adds to any of them matters for every page below.
 */
module PageEntries {
  import opened Options
  import opened Words
  import opened PageMath
  import opened PageTree

  /** The word of the entry of a level on the walk to a page, when the walk gets that far. */
  function Entry(m: Mem, root: nat, vpn: nat, level: nat): Option<nat>
    requires 1 <= level <= 4
  {
    var s := Walk(m, root, 4, vpn, level);
    if s.level == level then Some(Word(m, s)) else None
  }

  /** The entry is there, and valid. */
  predicate ValidEntry(m: Mem, root: nat, vpn: nat, level: nat)
    requires 1 <= level <= 4
  {
    Entry(m, root, vpn, level).Some? && Present(Entry(m, root, vpn, level).value)
  }

  /** The word is valid and has bits 1 (writable), 2 (user) and 63 (no execution) as the flags have them. */
  predicate Grants(w: nat, flags: nat) {
    && w % 2 == 1 && w / 2 % 2 == flags / 2 % 2 && w / 4 % 2 == flags / 4 % 2
    && w / 0x8000_0000_0000_0000 % 2 == flags / 0x8000_0000_0000_0000 % 2
  }

  /**
   Entries that were valid keep their words, except the level-1 entries of `changed`; an entry that is
   valid and was not, or had another word, grants what the flags say; without flags there is none.
   */
  ghost predicate EntriesKept(m: Mem, m': Mem, root: nat, changed: set<nat>, flags: Option<nat>) {
    && (forall v: nat, l: nat :: v < VPNS && 1 <= l <= 4 && ValidEntry(m, root, v, l) && !(l == 1 && v in changed) ==>
         Entry(m', root, v, l) == Entry(m, root, v, l))
    && (forall v: nat, l: nat :: v < VPNS && 1 <= l <= 4 && ValidEntry(m', root, v, l) ==>
         Entry(m, root, v, l) == Entry(m', root, v, l) || (flags.Some? && Grants(Entry(m', root, v, l).value, flags.value)))
  }

  lemma EntriesRefl(m: Mem, root: nat, changed: set<nat>, flags: Option<nat>)
    ensures EntriesKept(m, m, root, changed, flags)
  {
    hide Entry;
  }

  lemma EntriesWeaken(m: Mem, m': Mem, root: nat, changed: set<nat>, more: set<nat>, flags: Option<nat>, flags': Option<nat>)
    requires EntriesKept(m, m', root, changed, flags) && changed <= more && (flags.Some? ==> flags' == flags)
    ensures EntriesKept(m, m', root, more, flags')
  {
    hide Entry, Grants;
  }

  lemma EntriesTrans(a: Mem, b: Mem, c: Mem, root: nat, s: set<nat>, t: set<nat>, flags: Option<nat>)
    requires EntriesKept(a, b, root, s, flags) && EntriesKept(b, c, root, t, flags)
    ensures EntriesKept(a, c, root, s + t, flags)
  {
    hide Entry, Grants;
  }

  lemma EntriesTrans0(a: Mem, b: Mem, c: Mem, root: nat, flags: Option<nat>)
    requires EntriesKept(a, b, root, {}, flags) && EntriesKept(b, c, root, {}, flags)
    ensures EntriesKept(a, c, root, {}, flags)
  {
    var none: set<nat> := {};
    EntriesTrans(a, b, c, root, none, none, flags);
    assert none + none == none;
  }

  lemma EntriesInside(a: Mem, b: Mem, c: Mem, root: nat, s: set<nat>, t: set<nat>, all: set<nat>, flags: Option<nat>, flags': Option<nat>)
    requires EntriesKept(a, b, root, s, flags) && EntriesKept(b, c, root, t, flags') && s <= all && t <= all
    requires flags' == flags || flags'.None?
    ensures EntriesKept(a, c, root, all, flags)
  {
    hide EntriesKept;
    EntriesWeaken(b, c, root, t, t, flags', flags);
    EntriesTrans(a, b, c, root, s, t, flags);
    EntriesWeaken(a, c, root, s + t, all, flags, flags);
  }

  // ---- linking in a table

  lemma {:induction false} LinkWalkAt(m: Mem, root: nat, pos: map<nat, Pos>, g: nat, i: nat, n: nat, w: nat,
                                      h: nat, level: nat, vpn: nat, at: nat)
    requires Linkable(m, root, pos, g, i, n, w)
    requires 1 <= level <= 4 && h in pos && pos[h] == Pos(level, Prefix(vpn, level))
    ensures var l, m' := pos[g].level, Link(m, g, i, n, w);
            var s, s' := Walk(m, h, level, vpn, at), Walk(m', h, level, vpn, at);
            if s == Slot(l, g, i) then
              && !Present(Word(m, s))
              && if at == l then s' == s && Word(m', s') == w
                 else 1 <= l - 1 && s' == Slot(l - 1, n, Index(vpn, l - 1)) && Word(m', s') == 0
            else s' == s && Word(m', s') == Word(m, s)
    decreases level
  {
    var j := Index(vpn, level);
    var e := Read(m, h, j);
    var m' := Link(m, g, i, n, w);
    assert TableOk(m, pos, g);
    ReadLink(m, g, i, n, w, h, j);
    if h == g && j == i {
      ReadLink(m, g, i, n, w, n, Index(vpn, level - 1));
    } else if level > 1 && !Stops(e, level, at) {
      assert EntryOk(m, pos, h, j);
      PrefixDown(vpn, level);
      LinkWalkAt(m, root, pos, g, i, n, w, FrameNo(e), level - 1, vpn, at);
    }
  }

  /** Linking in an empty table changes one invalid entry. */
  lemma LinkEntries(m: Mem, root: nat, pos: map<nat, Pos>, g: nat, i: nat, n: nat, w: nat, flags: nat)
    requires Linkable(m, root, pos, g, i, n, w) && Grants(w, flags)
    ensures EntriesKept(m, Link(m, g, i, n, w), root, {}, Some(flags))
  {
    hide Grants, Walk;
    var m' := Link(m, g, i, n, w);
    forall v: nat, l: nat | v < VPNS && 1 <= l <= 4
      ensures ValidEntry(m, root, v, l) ==> Entry(m', root, v, l) == Entry(m, root, v, l)
      ensures ValidEntry(m', root, v, l) ==> Entry(m', root, v, l) == Entry(m, root, v, l) || Entry(m', root, v, l) == Some(w)
    {
      RootCovers(v);
      LinkWalkAt(m, root, pos, g, i, n, w, root, 4, v, l);
    }
  }

  /** A walk that reaches level 1 passes a valid entry of every level above. */
  lemma {:induction false} WalkPasses(m: Mem, f: nat, level: nat, vpn: nat, at: nat)
    requires 1 <= at <= level <= 4 && Walk(m, f, level, vpn, 1).level == 1
    ensures var s := Walk(m, f, level, vpn, at);
            s.level == at && (at > 1 ==> Present(Word(m, s))) && (at == 1 ==> s == Walk(m, f, level, vpn, 1))
    decreases level
  {
    var w := Read(m, f, Index(vpn, level));
    if level > at { WalkPasses(m, FrameNo(w), level - 1, vpn, at); }
  }

  /** Below a root entry that is zero there is nothing. */
  lemma NothingBelowZero(m: Mem, root: nat, vpn: nat, level: nat)
    requires 1 <= level <= 4 && vpn < VPNS && SlotOf(vpn) !in Used(m, root)
    ensures !ValidEntry(m, root, vpn, level)
  {
    SlotIsIndex(vpn);
    assert Read(m, root, Index(vpn, 4)) == 0;
  }

  // ---- writing a level-1 entry

  lemma {:induction false} LeafWriteWalkAt(m: Mem, root: nat, pos: map<nat, Pos>, f: nat, i: nat, w: nat,
                                           g: nat, level: nat, vpn: nat, at: nat)
    requires Tree(m, root, pos) && f in pos && pos[f].level == 1 && i < PT_NUM_ENTRIES && f in m && i < |m[f]|
    requires 1 < at && 1 <= level <= 4 && g in pos && pos[g] == Pos(level, Prefix(vpn, level))
    ensures var m' := Write(m, f, i, w);
            var s := Walk(m, g, level, vpn, at);
            Walk(m', g, level, vpn, at) == s && (s.level > 1 ==> Word(m', s) == Word(m, s))
    decreases level
  {
    var j := Index(vpn, level);
    var e := Read(m, g, j);
    ReadWrite(m, f, i, w, g, j);
    if level > 1 && !Stops(e, level, at) {
      assert EntryOk(m, pos, g, j);
      PrefixDown(vpn, level);
      LeafWriteWalkAt(m, root, pos, f, i, w, FrameNo(e), level - 1, vpn, at);
    }
  }

  /** A store to a level-1 entry changes that entry alone. */
  lemma LeafEntries(m: Mem, root: nat, pos: map<nat, Pos>, target: nat, w: nat, flags: Option<nat>)
    requires Tree(m, root, pos) && target < VPNS
    requires var s := Walk(m, root, 4, target, 1); s.level == 1 && s.frame in m && s.index < |m[s.frame]|
    requires Present(w) ==> flags.Some? && Grants(w, flags.value)
    ensures var s := Walk(m, root, 4, target, 1); EntriesKept(m, Write(m, s.frame, s.index, w), root, {target}, flags)
  {
    hide Grants;
    var s := Walk(m, root, 4, target, 1);
    var m' := Write(m, s.frame, s.index, w);
    RootCovers(target);
    WalkPosition(m, root, pos, root, 4, target, 1);
    hide Walk;
    forall v: nat, l: nat | v < VPNS && 1 <= l <= 4
      ensures Entry(m', root, v, l) == if l == 1 && v == target then Some(w) else Entry(m, root, v, l)
    {
      RootCovers(v);
      if l == 1 { LeafWriteLookup(m, root, pos, target, w, v); }
      else { LeafWriteWalkAt(m, root, pos, s.frame, s.index, w, root, 4, v, l); }
    }
  }

  /** A word made for a table or a page grants what the flags say. */
  lemma MadeGrants(pa: nat, flags: nat)
    requires pa % 4096 == 0 && pa / 4096 < FRAMES && OkFlags(flags)
    ensures Grants(MakePte(pa, flags), flags)
  {
    MakePteFields(pa, flags);
    var w := MakePte(pa, flags);
    hide MakePte, OkFlags, FlagBits, FrameNo, Huge, And, Or;
    FieldBits(w);
    FieldBits(flags);
    ValidBit(FlagBits(flags));
  }

  /** What the permission bits of a word say about its bits 0, 1, 2 and 63. */
  lemma FieldBits(w: nat)
    ensures w % 2 == FlagBits(w) % 2 && w / 2 % 2 == FlagBits(w) / 2 % 2 && w / 4 % 2 == FlagBits(w) / 4 % 2
    ensures w / 0x8000_0000_0000_0000 % 2 == FlagBits(w) / 0x8000_0000_0000_0000 % 2
  {
    var lo, hi := w % 8, w / 0x8000_0000_0000_0000 % 2;
    assert FlagBits(w) == lo + hi * 0x8000_0000_0000_0000;
    hide FlagBits;
    LowBits(w);
    LowBits(FlagBits(w));
    JoinedBits(lo, hi);
  }

  lemma LowBits(w: nat)
    ensures w % 2 == w % 8 % 2 && w / 2 % 2 == w % 8 / 2 % 2 && w / 4 % 2 == w % 8 / 4 % 2
  {
    var q, r := w / 8, w % 8;
    assert w / 2 == 4 * q + r / 2 && w / 4 == 2 * q + r / 4;
  }

  lemma JoinedBits(lo: nat, hi: nat)
    requires lo < 8 && hi < 2
    ensures (lo + hi * 0x8000_0000_0000_0000) % 8 == lo && (lo + hi * 0x8000_0000_0000_0000) / 0x8000_0000_0000_0000 == hi
  {}

  /** Setting bit 0 changes no other. */
  lemma ValidBit(x: nat)
    ensures x % 2 == 0 ==> (x + 1) % 2 == 1 && (x + 1) / 2 == x / 2 && (x + 1) / 4 == x / 4
    ensures x % 2 == 0 ==> (x + 1) / 0x8000_0000_0000_0000 == x / 0x8000_0000_0000_0000
  {}
}

/**
 Clearing an entry of the page table at any level. The pages that the entry covers, its unit, lose
 their translations, whether the entry was a leaf or pointed at a table; no other page does.
 */
module PageUnits {
  import opened Options
  import opened Words
  import opened PageMath
  import opened PageTree

  /** Two pages are covered by one entry of the given level. */
  predicate SameUnit(v: nat, w: nat, level: nat)
    requires 1 <= level <= 4
  {
    v / PagesAt(level) == w / PagesAt(level)
  }

  /** The pages covered by the entry of page `vpn` at the given level. */
  ghost function Unit(vpn: nat, level: nat): (r: set<nat>)
    requires 1 <= level <= 4
    ensures forall v: nat :: v in r <==> v < VPNS && SameUnit(v, vpn, level)
  {
    set v: nat | v < VPNS && SameUnit(v, vpn, level)
  }

  lemma UnitPosition(v: nat, w: nat, level: nat)
    requires 1 <= level <= 4
    ensures SameUnit(v, w, level) <==> Prefix(v, level) == Prefix(w, level) && Index(v, level) == Index(w, level)
  {
    DivLevel(v, level);
    DivLevel(w, level);
  }

  /** What one entry covers, one entry of each higher level covers. */
  lemma {:induction false} UnitAbove(v: nat, w: nat, level: nat, above: nat)
    requires 1 <= level <= above <= 4 && SameUnit(v, w, level)
    ensures SameUnit(v, w, above)
    decreases above - level
  {
    if level < above {
      DivLevel(v, level);
      DivLevel(w, level);
      UnitAbove(v, w, level + 1, above);
    }
  }

  lemma UnitOfOne(vpn: nat)
    requires vpn < VPNS
    ensures Unit(vpn, 1) == {vpn}
  {}

  /** A walk that ends at an invalid entry ends there whatever level was asked for. */
  lemma {:induction false} AbsentEnds(m: Mem, f: nat, level: nat, vpn: nat, at: nat)
    requires 1 <= level <= 4 && !Present(Word(m, Walk(m, f, level, vpn, at)))
    ensures Walk(m, f, level, vpn, 1) == Walk(m, f, level, vpn, at)
    decreases level
  {
    var e := Read(m, f, Index(vpn, level));
    if level > 1 && !Stops(e, level, at) { AbsentEnds(m, FrameNo(e), level - 1, vpn, at); }
  }

  lemma AbsentUnmapped(m: Mem, root: nat, vpn: nat, at: nat)
    requires !Present(Word(m, Walk(m, root, 4, vpn, at)))
    ensures vpn !in Flat(m, root)
  {
    AbsentEnds(m, root, 4, vpn, at);
  }

  lemma CutTree(m: Mem, root: nat, pos: map<nat, Pos>, f: nat, i: nat)
    requires Tree(m, root, pos) && f in pos && i < PT_NUM_ENTRIES && f in m && i < |m[f]|
    ensures Tree(Write(m, f, i, 0), root, pos)
  {
    var m' := Write(m, f, i, 0);
    forall g | g in pos ensures TableOk(m', pos, g) { assert TableOk(m, pos, g); }
    forall g, j | g in pos && 0 <= j < PT_NUM_ENTRIES ensures EntryOk(m', pos, g, j) {
      assert EntryOk(m, pos, g, j);
      ReadWrite(m, f, i, 0, g, j);
    }
  }

  /** The walk of a page of the unit now ends at the cleared entry. */
  lemma {:induction false} CutInside(m: Mem, root: nat, pos: map<nat, Pos>, f: nat, i: nat,
                                     g: nat, level: nat, target: nat, v: nat, at: nat)
    requires Tree(m, root, pos) && f in pos && pos[f].level == at && f in m && i < |m[f]|
    requires 1 <= at <= level <= 4 && SameUnit(v, target, at) && g in pos && pos[g] == Pos(level, Prefix(v, level))
    requires Walk(m, g, level, target, at) == Slot(at, f, i)
    ensures Walk(Write(m, f, i, 0), g, level, v, 1) == Slot(at, f, i)
    decreases level
  {
    var j := Index(v, level);
    UnitAbove(v, target, at, level);
    UnitPosition(v, target, level);
    ReadWrite(m, f, i, 0, g, j);
    var e := Read(m, g, j);
    if level > at {
      assert EntryOk(m, pos, g, j) && !Stops(e, level, at);
      PrefixDown(v, level);
      CutInside(m, root, pos, f, i, FrameNo(e), level - 1, target, v, at);
    }
  }

  /** The walk of any other page stays as it was. */
  lemma {:induction false} CutOutside(m: Mem, root: nat, pos: map<nat, Pos>, f: nat, i: nat, g: nat, level: nat, v: nat)
    requires Tree(m, root, pos) && f in pos && f in m && i < |m[f]|
    requires 1 <= level <= 4 && g in pos && pos[g] == Pos(level, Prefix(v, level))
    requires 1 <= pos[f].level <= 4 && !(Prefix(v, pos[f].level) == pos[f].prefix && Index(v, pos[f].level) == i)
    ensures var m' := Write(m, f, i, 0);
            && Walk(m', g, level, v, 1) == Walk(m, g, level, v, 1)
            && Word(m', Walk(m', g, level, v, 1)) == Word(m, Walk(m, g, level, v, 1))
    decreases level
  {
    var j := Index(v, level);
    var e := Read(m, g, j);
    ReadWrite(m, f, i, 0, g, j);
    if level > 1 && !Stops(e, level, 1) {
      assert EntryOk(m, pos, g, j);
      PrefixDown(v, level);
      CutOutside(m, root, pos, f, i, FrameNo(e), level - 1, v);
    }
  }

  lemma CutLookup(m: Mem, root: nat, pos: map<nat, Pos>, target: nat, at: nat, v: nat)
    requires Tree(m, root, pos) && target < VPNS && v < VPNS && 1 <= at <= 4
    requires var s := Walk(m, root, 4, target, at); s.level == at && s.frame in m && s.index < |m[s.frame]|
    ensures var s := Walk(m, root, 4, target, at);
            Lookup(Write(m, s.frame, s.index, 0), root, v) == if SameUnit(v, target, at) then None else Lookup(m, root, v)
  {
    var s := Walk(m, root, 4, target, at);
    RootCovers(target);
    RootCovers(v);
    WalkPosition(m, root, pos, root, 4, target, at);
    UnitPosition(v, target, at);
    ReadWrite(m, s.frame, s.index, 0, s.frame, s.index);
    if SameUnit(v, target, at) {
      CutInside(m, root, pos, s.frame, s.index, root, 4, target, v, at);
    } else {
      CutOutside(m, root, pos, s.frame, s.index, root, 4, v);
    }
  }

  /** Clearing the entry removes exactly its unit from the flat map, and the tables stay a tree. */
  lemma CutFlat(m: Mem, root: nat, pos: map<nat, Pos>, target: nat, at: nat)
    requires Tree(m, root, pos) && target < VPNS && 1 <= at <= 4 && Walk(m, root, 4, target, at).level == at
    ensures var s := Walk(m, root, 4, target, at);
            && s.frame in m && |m[s.frame]| == PT_NUM_ENTRIES && s.frame in pos
            && var m' := Write(m, s.frame, s.index, 0);
            && Tree(m', root, pos) && Flat(m', root) == Flat(m, root) - Unit(target, at)
  {
    var s := Walk(m, root, 4, target, at);
    RootCovers(target);
    WalkPosition(m, root, pos, root, 4, target, at);
    assert TableOk(m, pos, s.frame);
    CutTree(m, root, pos, s.frame, s.index);
    var m' := Write(m, s.frame, s.index, 0);
    forall v: nat | v < VPNS
      ensures Lookup(m', root, v) == if SameUnit(v, target, at) then None else Lookup(m, root, v)
    {
      CutLookup(m, root, pos, target, at, v);
    }
    FlatLoses(m, m', root, target, at);
  }

  lemma FlatLoses(m: Mem, m': Mem, root: nat, target: nat, at: nat)
    requires 1 <= at <= 4
    requires forall v: nat :: v < VPNS ==> Lookup(m', root, v) == if SameUnit(v, target, at) then None else Lookup(m, root, v)
    ensures Flat(m', root) == Flat(m, root) - Unit(target, at)
  {
    hide Lookup, SameUnit;
    var f, f' := Flat(m, root), Flat(m', root) + map[];
    forall v: nat ensures v in f' <==> v in f && v !in Unit(target, at) {}
  }
}

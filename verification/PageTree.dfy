/**
 The four-level page table as a value: table memory, the walk over it, and the flat map from page
 numbers to mappings that it stands for. `Tree` says that the tables form a tree without shared
 frames: it gives every table frame one position (level and prefix of the page numbers it covers).
 */
module PageTree {
  import opened Options
  import opened Words
  import opened PageMath

  /** Table memory: frame number to 512 words. Memory never written reads as zero. */
  type Mem = map<nat, seq<nat>>

  function Read(m: Mem, frame: nat, i: nat): nat {
    if frame in m && i < |m[frame]| then m[frame][i] else 0
  }

  function ZeroTable(): (t: seq<nat>)
    ensures |t| == PT_NUM_ENTRIES && forall i :: 0 <= i < |t| ==> t[i] == 0
  {
    seq(PT_NUM_ENTRIES, i => 0)
  }

  /** A pointer to a page-table entry, with the level of the table it is in. */
  datatype Slot = Slot(level: nat, frame: nat, index: nat)

  /** The condition under which one step of the walk ends. */
  predicate Stops(w: nat, level: nat, requested: nat) {
    !Present(w) || (level != 1 && Huge(w)) || requested == level
  }

  /** The walk for page `vpn` from the table in `frame` at `level`. */
  function Walk(m: Mem, frame: nat, level: nat, vpn: nat, requested: nat): (s: Slot)
    requires 1 <= level <= 4
    ensures 1 <= s.level <= level && s.index == Index(vpn, s.level)
    decreases level
  {
    var w := Read(m, frame, Index(vpn, level));
    if level == 1 || Stops(w, level, requested) then Slot(level, frame, Index(vpn, level))
    else Walk(m, FrameNo(w), level - 1, vpn, requested)
  }

  function Word(m: Mem, s: Slot): nat { Read(m, s.frame, s.index) }

  /** The walk looks at the low 48 address bits only: page numbers that agree modulo 2^36 share it. */
  lemma {:induction false} WalkIgnoresHighBits(m: Mem, frame: nat, level: nat, vpn: nat, requested: nat)
    requires 1 <= level <= 4
    ensures Walk(m, frame, level, vpn, requested) == Walk(m, frame, level, vpn % VPNS, requested)
    decreases level
  {
    IndexIgnoresHighBits(vpn, level);
    var w := Read(m, frame, Index(vpn, level));
    if level > 1 && !Stops(w, level, requested) {
      WalkIgnoresHighBits(m, FrameNo(w), level - 1, vpn, requested);
    }
  }

  lemma IndexIgnoresHighBits(vpn: nat, level: nat)
    requires 1 <= level <= 4
    ensures Index(vpn % VPNS, level) == Index(vpn, level)
  {
    var q, r := vpn / VPNS, vpn % VPNS;
    assert vpn == q * VPNS + r;
    if level == 1 {
      EntryCycle(q * 0x800_0000, r);
    } else if level == 2 {
      assert vpn / 0x200 == q * 0x800_0000 + r / 0x200;
      EntryCycle(q * 0x4_0000, r / 0x200);
    } else if level == 3 {
      assert vpn / 0x4_0000 == q * 0x4_0000 + r / 0x4_0000;
      EntryCycle(q * 0x200, r / 0x4_0000);
    } else {
      assert vpn / 0x800_0000 == q * 0x200 + r / 0x800_0000;
      EntryCycle(q, r / 0x800_0000);
    }
  }

  lemma EntryCycle(k: nat, x: nat)
    ensures (k * PT_NUM_ENTRIES + x) % PT_NUM_ENTRIES == x % PT_NUM_ENTRIES
  {}

  /** What a page number is mapped to: a frame number and the permission bits. */
  datatype Mapping = Mapping(frame: nat, flags: nat)

  /** The mapping that the final entry of a walk gives to page `vpn`. */
  function Meaning(w: nat, level: nat, vpn: nat): Option<Mapping>
    requires 1 <= level <= 4
  {
    if Present(w) then Some(Mapping(FrameNo(w) / PagesAt(level) * PagesAt(level) + vpn % PagesAt(level), FlagBits(w)))
    else None
  }

  function LookupFrom(m: Mem, frame: nat, level: nat, vpn: nat): Option<Mapping>
    requires 1 <= level <= 4
  {
    var s := Walk(m, frame, level, vpn, 1);
    Meaning(Word(m, s), s.level, vpn)
  }

  /** The full walk from the root. */
  function Lookup(m: Mem, root: nat, vpn: nat): Option<Mapping> { LookupFrom(m, root, 4, vpn) }

  /** The whole page table as one flat map. */
  ghost function Flat(m: Mem, root: nat): (f: map<nat, Mapping>)
    ensures forall v: nat :: v in f <==> v < VPNS && Lookup(m, root, v).Some?
    ensures forall v: nat :: v in f ==> Lookup(m, root, v) == Some(f[v])
  {
    map v: nat | v < VPNS && Lookup(m, root, v).Some? :: Lookup(m, root, v).value
  }

  /** A frame aligned to a mapping unit is the base of its unit. */
  lemma FrameBase(f: nat, n: nat)
    requires n > 0 && f % n == 0
    ensures f / n * n == f
  {}

  datatype Pos = Pos(level: nat, prefix: nat)

  /** Entry i of table f either points at the table of its own position or is a proper leaf. */
  ghost predicate EntryOk(m: Mem, pos: map<nat, Pos>, f: nat, i: nat)
    requires f in pos
  {
    var w, p := Read(m, f, i), pos[f];
    Present(w) ==> LinkOk(pos, w, p, i) && LeafOk(w, p)
  }

  ghost predicate LinkOk(pos: map<nat, Pos>, w: nat, p: Pos, i: nat) {
    p.level > 1 && !Huge(w) ==> FrameNo(w) in pos && pos[FrameNo(w)] == Pos(p.level - 1, p.prefix * PT_NUM_ENTRIES + i)
  }

  /** A leaf is below level 4, and a huge leaf is aligned. */
  ghost predicate LeafOk(w: nat, p: Pos) {
    p.level == 1 || Huge(w) ==>
      1 <= p.level < 4 && FrameNo(w) % PagesAt(p.level) == 0
  }

  ghost predicate TableOk(m: Mem, pos: map<nat, Pos>, f: nat)
    requires f in pos
  {
    1 <= pos[f].level <= 4 && f in m && |m[f]| == PT_NUM_ENTRIES && 0 < f < FRAMES
  }

  ghost predicate Tree(m: Mem, root: nat, pos: map<nat, Pos>) {
    && root in pos && pos[root] == Pos(4, 0)
    && (forall f :: f in pos ==> TableOk(m, pos, f))
    && (forall f, i :: f in pos && 0 <= i < PT_NUM_ENTRIES ==> EntryOk(m, pos, f, i))
  }

  /** Every table the walk of a page number visits is the one at that page's position. */
  lemma {:induction false} WalkPosition(m: Mem, root: nat, pos: map<nat, Pos>, f: nat, level: nat, vpn: nat, requested: nat)
    requires 1 <= level <= 4
    requires Tree(m, root, pos) && f in pos && pos[f] == Pos(level, Prefix(vpn, level))
    ensures var s := Walk(m, f, level, vpn, requested);
            s.frame in pos && pos[s.frame] == Pos(s.level, Prefix(vpn, s.level))
    decreases level
  {
    var i := Index(vpn, level);
    var w := Read(m, f, i);
    if level > 1 && !Stops(w, level, requested) {
      assert EntryOk(m, pos, f, i);
      PrefixDown(vpn, level);
      WalkPosition(m, root, pos, FrameNo(w), level - 1, vpn, requested);
    }
  }

  lemma RootCovers(vpn: nat)
    requires vpn < VPNS
    ensures Prefix(vpn, 4) == 0
  {}

  /** No table frame is shared: one frame reached at two places is the same place. */
  lemma NoSharing(m: Mem, root: nat, pos: map<nat, Pos>, v: nat, w: nat, a: nat, b: nat)
    requires Tree(m, root, pos) && v < VPNS && w < VPNS
    requires Walk(m, root, 4, v, a).frame == Walk(m, root, 4, w, b).frame
    ensures Walk(m, root, 4, v, a).level == Walk(m, root, 4, w, b).level
    ensures var l := Walk(m, root, 4, v, a).level; Prefix(v, l) == Prefix(w, l)
  {
    RootCovers(v);
    RootCovers(w);
    WalkPosition(m, root, pos, root, 4, v, a);
    WalkPosition(m, root, pos, root, 4, w, b);
  }

  /** Table memory after one entry is written. */
  function Write(m: Mem, f: nat, i: nat, w: nat): Mem
    requires f in m && i < |m[f]|
  {
    var t: seq<nat> := m[f][i := w];
    m[f := t]
  }

  lemma ReadWrite(m: Mem, f: nat, i: nat, w: nat, g: nat, j: nat)
    requires f in m && i < |m[f]|
    ensures Read(Write(m, f, i, w), g, j) == if g == f && j == i then w else Read(m, g, j)
  {}

  /** Writing a leaf word into a level-1 table leaves the tree a tree. */
  lemma LeafWriteTree(m: Mem, root: nat, pos: map<nat, Pos>, f: nat, i: nat, w: nat)
    requires Tree(m, root, pos) && f in pos && pos[f].level == 1 && i < PT_NUM_ENTRIES
    ensures Tree(Write(m, f, i, w), root, pos)
  {
    var m' := Write(m, f, i, w);
    forall g | g in pos ensures TableOk(m', pos, g) {
      assert TableOk(m, pos, g);
    }
    forall g, j | g in pos && 0 <= j < PT_NUM_ENTRIES ensures EntryOk(m', pos, g, j) {
      assert EntryOk(m, pos, g, j);
      ReadWrite(m, f, i, w, g, j);
    }
  }

  /** The frame property of one leaf write: only the walk that ends in that entry sees it. */
  lemma {:induction false} LeafWriteWalk(m: Mem, root: nat, pos: map<nat, Pos>, f: nat, i: nat, w: nat,
                                         g: nat, level: nat, vpn: nat)
    requires Tree(m, root, pos) && f in pos && pos[f].level == 1 && i < PT_NUM_ENTRIES && f in m && i < |m[f]|
    requires 1 <= level <= 4 && g in pos && pos[g] == Pos(level, Prefix(vpn, level))
    ensures Walk(Write(m, f, i, w), g, level, vpn, 1) == Walk(m, g, level, vpn, 1)
    decreases level
  {
    var j := Index(vpn, level);
    var e := Read(m, g, j);
    ReadWrite(m, f, i, w, g, j);
    if level > 1 && !Stops(e, level, 1) {
      assert EntryOk(m, pos, g, j);
      PrefixDown(vpn, level);
      LeafWriteWalk(m, root, pos, f, i, w, FrameNo(e), level - 1, vpn);
    }
  }

  /** A leaf write changes the lookup of exactly one page number. */
  lemma LeafWriteLookup(m: Mem, root: nat, pos: map<nat, Pos>, target: nat, w: nat, vpn: nat)
    requires Tree(m, root, pos) && target < VPNS && vpn < VPNS
    requires var s := Walk(m, root, 4, target, 1); s.level == 1 && s.frame in m && s.index < |m[s.frame]|
    ensures var s := Walk(m, root, 4, target, 1);
            var m' := Write(m, s.frame, s.index, w);
            && Walk(m', root, 4, vpn, 1) == Walk(m, root, 4, vpn, 1)
            && Word(m', Walk(m', root, 4, vpn, 1)) == (if vpn == target then w else Word(m, Walk(m, root, 4, vpn, 1)))
  {
    RootCovers(target);
    RootCovers(vpn);
    var s, t := Walk(m, root, 4, target, 1), Walk(m, root, 4, vpn, 1);
    WalkPosition(m, root, pos, root, 4, target, 1);
    WalkPosition(m, root, pos, root, 4, vpn, 1);
    LeafWriteWalk(m, root, pos, s.frame, s.index, w, root, 4, vpn);
    ReadWrite(m, s.frame, s.index, w, t.frame, t.index);
    PageSplit(target);
    if t.frame == s.frame && t.index == s.index { PageSplit(vpn); }
  }

  /** The word of the level-1 entry for a page, when its walk reaches level 1. */
  function Leaf(m: Mem, root: nat, vpn: nat): Option<nat> {
    var s := Walk(m, root, 4, vpn, 1);
    if s.level == 1 then Some(Word(m, s)) else None
  }

  /** The page is mapped by an entry whose unit starts at frame 0. */
  ghost predicate AtFrameZero(m: Mem, root: nat, vpn: nat) {
    var s := Walk(m, root, 4, vpn, 1);
    Present(Word(m, s)) && FrameNo(Word(m, s)) / PagesAt(s.level) == 0
  }

  /** The flat map as `pt_resolve` tells it, which answers 0 for pages of an entry at frame 0 too. */
  ghost function Seen(m: Mem, root: nat): (f: map<nat, Mapping>)
    ensures forall v: nat :: v in f <==> v in Flat(m, root) && !AtFrameZero(m, root, v)
    ensures forall v: nat :: v in f ==> f[v] == Flat(m, root)[v]
  {
    map v: nat | v in Flat(m, root) && !AtFrameZero(m, root, v) :: Flat(m, root)[v]
  }

  /**
   Except at the pages of `changed`, level-1 entries, once there, keep their word, and a page stays
   mapped by an entry at frame 0 or not.
   */
  ghost predicate LeavesKept(m: Mem, m': Mem, root: nat, changed: set<nat>) {
    && (forall v: nat :: v < VPNS && v !in changed && Leaf(m, root, v).Some? ==> Leaf(m', root, v) == Leaf(m, root, v))
    && (forall v: nat :: v < VPNS && v !in changed ==> (AtFrameZero(m', root, v) <==> AtFrameZero(m, root, v)))
  }

  /** The flat map after a leaf write: exactly one page number is added, changed or removed. */
  lemma LeafWriteFlat(m: Mem, root: nat, pos: map<nat, Pos>, target: nat, w: nat)
    requires Tree(m, root, pos) && target < VPNS && Walk(m, root, 4, target, 1).level == 1
    ensures var s := Walk(m, root, 4, target, 1);
            && s.frame in m && s.index < |m[s.frame]|
            && s.frame in pos && pos[s.frame].level == 1
            && var m' := Write(m, s.frame, s.index, w);
            && Tree(m', root, pos)
            && Flat(m', root) == (if Present(w) then Flat(m, root)[target := Mapping(FrameNo(w), FlagBits(w))]
                                  else Flat(m, root) - {target})
            && LeavesKept(m, m', root, {target}) && Leaf(m', root, target) == Some(w)
  {
    RootCovers(target);
    WalkPosition(m, root, pos, root, 4, target, 1);
    var s := Walk(m, root, 4, target, 1);
    assert TableOk(m, pos, s.frame);
    LeafWriteTree(m, root, pos, s.frame, s.index, w);
    var m' := Write(m, s.frame, s.index, w);
    forall v: nat | v < VPNS
      ensures Lookup(m', root, v) == if v == target then Meaning(w, 1, v) else Lookup(m, root, v)
      ensures Leaf(m', root, v) == if v == target then Some(w) else Leaf(m, root, v)
      ensures v != target ==> (AtFrameZero(m', root, v) <==> AtFrameZero(m, root, v))
    {
      LeafWriteLookup(m, root, pos, target, w, v);
    }
    LeafMeaning(w, target);
    FlatUpdate(m, m', root, target, Meaning(w, 1, target));
  }

  lemma LeafMeaning(w: nat, vpn: nat)
    ensures Meaning(w, 1, vpn) == if Present(w) then Some(Mapping(FrameNo(w), FlagBits(w))) else None
  {
    assert vpn % 1 == 0;
  }

  lemma FlatUpdate(m: Mem, m': Mem, root: nat, target: nat, t: Option<Mapping>)
    requires target < VPNS
    requires forall v: nat :: v < VPNS ==> Lookup(m', root, v) == if v == target then t else Lookup(m, root, v)
    ensures Flat(m', root) == if t.Some? then Flat(m, root)[target := t.value] else Flat(m, root) - {target}
  {
    hide Lookup;
    var f, f' := Flat(m, root), Flat(m', root);
    forall v: nat ensures v in f' <==> (if v == target then t.Some? else v in f) {}
  }

  lemma FlatSame(m: Mem, m': Mem, root: nat)
    requires forall v: nat :: v < VPNS ==> Lookup(m', root, v) == Lookup(m, root, v)
    ensures Flat(m', root) == Flat(m, root)
  {
    hide Lookup;
    var f, f' := Flat(m, root), Flat(m', root);
    forall v: nat ensures v in f' <==> v in f {}
  }

  /** Table memory after a fresh zeroed table n is linked in at entry i of table g. */
  function Link(m: Mem, g: nat, i: nat, n: nat, w: nat): Mem
    requires g in m && i < |m[g]|
  {
    Write(m, g, i, w)[n := ZeroTable()]
  }

  lemma ReadLink(m: Mem, g: nat, i: nat, n: nat, w: nat, h: nat, j: nat)
    requires g in m && i < |m[g]| && g != n
    ensures Read(Link(m, g, i, n, w), h, j) == if h == n then 0 else if h == g && j == i then w else Read(m, h, j)
  {}

  /** A fresh table may be linked in at an invalid entry i of table g above level 1. */
  ghost predicate Linkable(m: Mem, root: nat, pos: map<nat, Pos>, g: nat, i: nat, n: nat, w: nat) {
    && Tree(m, root, pos) && g in pos && pos[g].level > 1 && i < PT_NUM_ENTRIES
    && g in m && i < |m[g]|
    && n !in pos && n !in m && 0 < n < FRAMES
    && !Present(Read(m, g, i)) && Present(w) && !Huge(w) && FrameNo(w) == n
  }

  ghost function LinkPos(pos: map<nat, Pos>, g: nat, i: nat, n: nat): map<nat, Pos>
    requires g in pos && pos[g].level > 1
  {
    pos[n := Pos(pos[g].level - 1, pos[g].prefix * PT_NUM_ENTRIES + i)]
  }

  lemma LinkTree(m: Mem, root: nat, pos: map<nat, Pos>, g: nat, i: nat, n: nat, w: nat)
    requires Linkable(m, root, pos, g, i, n, w)
    ensures Tree(Link(m, g, i, n, w), root, LinkPos(pos, g, i, n))
  {
    var m', pos' := Link(m, g, i, n, w), LinkPos(pos, g, i, n);
    assert TableOk(m, pos, g);
    forall h | h in pos' ensures TableOk(m', pos', h) {
      if h != n { assert TableOk(m, pos, h); }
    }
    forall h, j | h in pos' && 0 <= j < PT_NUM_ENTRIES ensures EntryOk(m', pos', h, j) {
      ReadLink(m, g, i, n, w, h, j);
      if h != n { assert EntryOk(m, pos, h, j); }
    }
  }

  /** Linking a table moves the end of the walks that stopped there, and no other walk. */
  lemma {:induction false} LinkWalk(m: Mem, root: nat, pos: map<nat, Pos>, g: nat, i: nat, n: nat, w: nat,
                                    h: nat, level: nat, vpn: nat)
    requires Linkable(m, root, pos, g, i, n, w)
    requires 1 <= level <= 4 && h in pos && pos[h] == Pos(level, Prefix(vpn, level))
    ensures var l, m' := pos[g].level, Link(m, g, i, n, w);
            var s, s' := Walk(m, h, level, vpn, 1), Walk(m', h, level, vpn, 1);
            if s == Slot(l, g, i) then
              1 <= l - 1 <= 4 && s' == Slot(l - 1, n, Index(vpn, l - 1)) && Word(m', s') == 0 && !Present(Word(m, s))
            else s' == s && Word(m', s') == Word(m, s)
    decreases level
  {
    var j := Index(vpn, level);
    var e := Read(m, h, j);
    var m' := Link(m, g, i, n, w);
    assert TableOk(m, pos, g);
    ReadLink(m, g, i, n, w, h, j);
    if h == g && j == i {
      ReadLink(m, g, i, n, w, n, Index(vpn, level - 1));
    } else if level > 1 && !Stops(e, level, 1) {
      assert EntryOk(m, pos, h, j);
      PrefixDown(vpn, level);
      LinkWalk(m, root, pos, g, i, n, w, FrameNo(e), level - 1, vpn);
    }
  }

  /** Linking in an empty table changes no translation and no existing leaf. */
  lemma LinkFlat(m: Mem, root: nat, pos: map<nat, Pos>, g: nat, i: nat, n: nat, w: nat)
    requires Linkable(m, root, pos, g, i, n, w)
    ensures var m' := Link(m, g, i, n, w);
            && Tree(m', root, LinkPos(pos, g, i, n))
            && Flat(m', root) == Flat(m, root) && LeavesKept(m, m', root, {})
  {
    var m' := Link(m, g, i, n, w);
    LinkTree(m, root, pos, g, i, n, w);
    forall v: nat | v < VPNS
      ensures Lookup(m', root, v) == Lookup(m, root, v)
      ensures Leaf(m, root, v).Some? ==> Leaf(m', root, v) == Leaf(m, root, v)
      ensures AtFrameZero(m', root, v) <==> AtFrameZero(m, root, v)
    {
      RootCovers(v);
      LinkWalk(m, root, pos, g, i, n, w, root, 4, v);
    }
    FlatSame(m, m', root);
  }

  /** The PML4 slots whose root entry is not the zero word. */
  ghost function Used(m: Mem, root: nat): (r: set<nat>)
    ensures forall i: nat :: i in r <==> i < PT_NUM_ENTRIES && Read(m, root, i) != 0
  {
    set i: nat | i < PT_NUM_ENTRIES && Read(m, root, i) != 0
  }

  /** The PML4 slot of a page. */
  function SlotOf(vpn: nat): nat { vpn / PagesAt(4) }

  /** A mapped page lies in a used PML4 slot. */
  lemma MappedIsUsed(m: Mem, root: nat, vpn: nat)
    requires vpn in Flat(m, root)
    ensures SlotOf(vpn) in Used(m, root)
  {
    if !Present(Read(m, root, Index(vpn, 4))) { InvalidRootEntry(m, root, vpn); }
    hide Lookup;
    SlotIsIndex(vpn);
  }

  lemma InvalidRootEntry(m: Mem, root: nat, vpn: nat)
    requires !Present(Read(m, root, Index(vpn, 4)))
    ensures Lookup(m, root, vpn) == None
  {
    assert Walk(m, root, 4, vpn, 1) == Slot(4, root, Index(vpn, 4));
  }

  lemma SlotIsIndex(vpn: nat)
    requires vpn < VPNS
    ensures SlotOf(vpn) == Index(vpn, 4) < PT_NUM_ENTRIES
  {}

  lemma LeafWriteUsed(m: Mem, root: nat, pos: map<nat, Pos>, f: nat, i: nat, w: nat)
    requires Tree(m, root, pos) && f in pos && pos[f].level == 1 && f in m && i < |m[f]|
    ensures Used(Write(m, f, i, w), root) == Used(m, root)
  {}

  lemma LinkUsed(m: Mem, root: nat, pos: map<nat, Pos>, g: nat, i: nat, n: nat, w: nat)
    requires Linkable(m, root, pos, g, i, n, w)
    ensures Used(m, root) <= Used(Link(m, g, i, n, w), root)
  {
    assert TableOk(m, pos, g);
    forall j: nat | j in Used(m, root) ensures j in Used(Link(m, g, i, n, w), root) {
      ReadLink(m, g, i, n, w, root, j);
    }
  }

  /** All pages of one level-1 table end their walks in that table. */
  lemma {:induction false} SameTable(m: Mem, f: nat, level: nat, v: nat, w: nat)
    requires 1 <= level <= 4 && Prefix(v, 1) == Prefix(w, 1) && Walk(m, f, level, v, 1).level == 1
    ensures Walk(m, f, level, w, 1) == Slot(1, Walk(m, f, level, v, 1).frame, Index(w, 1))
    decreases level
  {
    if level > 1 {
      IndexAbove(v, level);
      IndexAbove(w, level);
      var e := Read(m, f, Index(v, level));
      if !Stops(e, level, 1) { SameTable(m, FrameNo(e), level - 1, v, w); }
    }
  }

  lemma IndexAbove(v: nat, level: nat)
    requires 2 <= level <= 4
    ensures Index(v, level) == Prefix(v, 1) / PagesAt(level - 1) % PT_NUM_ENTRIES
  {
    if level == 2 {
    } else if level == 3 {
      assert v / 0x4_0000 == v / 0x200 / 0x200;
    } else {
      assert v / 0x800_0000 == v / 0x200 / 0x4_0000;
    }
  }

  lemma LeavesKeptTrans(a: Mem, b: Mem, c: Mem, root: nat, s: set<nat>, t: set<nat>)
    requires LeavesKept(a, b, root, s) && LeavesKept(b, c, root, t)
    ensures LeavesKept(a, c, root, s + t)
  {
    hide Leaf, AtFrameZero;
  }
}

/**
 The recursive summary of a page table as a list of regions. Addresses and lengths are counted in
 4K pages, of which all of them are whole multiples.
 */
module Chart {
  import opened Options
  import opened Words
  import opened PageMath
  import opened PageTree

  datatype Region = Region(vaStart: nat, paStart: nat, length: nat, mappedFlags: nat) {
    function End(): nat { vaStart + length }
    predicate Mapped() { Present(mappedFlags) }
  }

  /** The region says exactly how each of its pages is translated. */
  ghost predicate Describes(r: Region, m: Mem, root: nat) {
    forall v: nat :: r.vaStart <= v < r.End() ==>
      Lookup(m, root, v) == if r.Mapped() then Some(Mapping(r.paStart + (v - r.vaStart), r.mappedFlags)) else None
  }

  /** Two neighbours that the chart should have merged. */
  predicate Mergeable(a: Region, b: Region) {
    a.Mapped() && b.Mapped() && a.mappedFlags == b.mappedFlags && a.paStart + a.length == b.paStart
  }

  /** The regions tile the pages [0, upTo), describe them, and leave nothing to merge. */
  ghost predicate Charts(rs: seq<Region>, m: Mem, root: nat, upTo: nat) {
    && rs != [] && rs[0].vaStart == 0 && rs[|rs| - 1].End() == upTo
    && (forall i {:trigger rs[i].End()} :: 0 <= i < |rs| - 1 ==> rs[i].End() == rs[i + 1].vaStart)
    && (forall i :: 0 < i < |rs| ==> rs[i].length > 0)
    && (forall i :: 0 <= i < |rs| ==> Describes(rs[i], m, root))
    && (forall i {:trigger rs[i].Mapped()} :: 0 <= i < |rs| - 1 ==> !Mergeable(rs[i], rs[i + 1]))
  }

  /** Unmapped regions say nothing but where they are, and no two of them are neighbours. */
  ghost predicate Tidy(rs: seq<Region>) {
    && (forall i {:trigger rs[i].Mapped()} :: 0 <= i < |rs| && !rs[i].Mapped() ==> rs[i].paStart == 0 && rs[i].mappedFlags == 0)
    && (forall i {:trigger rs[i].Mapped()} :: 0 <= i < |rs| - 1 ==> rs[i].Mapped() || rs[i + 1].Mapped())
  }

  /** Invalid entries have none of the permission bits, as the zero word and the dead marker have none. */
  ghost predicate InvalidClear(m: Mem, pos: map<nat, Pos>) {
    forall f, i: nat {:trigger Read(m, f, i)} :: f in pos && i < PT_NUM_ENTRIES && !Present(Read(m, f, i)) ==>
      FlagBits(Read(m, f, i)) == 0
  }

  lemma ExtendTidy(rs: seq<Region>, n: nat)
    requires rs != [] && Tidy(rs)
    ensures Tidy(Extend(rs, n))
  {
    hide Present;
    var rs' := Extend(rs, n);
    forall i | 0 <= i < |rs'| ensures (rs'[i].Mapped() <==> rs[i].Mapped()) && rs'[i].paStart == rs[i].paStart && rs'[i].mappedFlags == rs[i].mappedFlags {}
  }

  lemma AddTidy(rs: seq<Region>, r: Region)
    requires rs != [] && Tidy(rs) && (r.Mapped() || (r.paStart == 0 && r.mappedFlags == 0 && Last(rs).Mapped()))
    ensures Tidy(rs + [r])
  {
    hide Present;
    var rs' := rs + [r];
    forall i | 0 <= i < |rs'| ensures rs'[i] == if i < |rs| then rs[i] else r {}
  }

  /** The dead marker and the zero word are clear. */
  lemma MarkersClear()
    ensures FlagBits(0) == 0 && FlagBits(PTE_INVALIDATED) == 0
  {}

  /** n pages from page x translate as a region starting there would say. */
  ghost predicate Uniform(m: Mem, root: nat, x: nat, n: nat, pa: nat, flags: nat) {
    Describes(Region(x, pa, n, flags), m, root)
  }

  function Last(rs: seq<Region>): Region
    requires rs != []
  {
    rs[|rs| - 1]
  }

  /** Growing the last region over pages that continue it. */
  function Extend(rs: seq<Region>, n: nat): seq<Region>
    requires rs != []
  {
    rs[|rs| - 1 := Last(rs).(length := Last(rs).length + n)]
  }

  lemma ExtendDescribes(r: Region, u: Region, m: Mem, root: nat)
    requires Describes(r, m, root) && Describes(u, m, root) && u.vaStart == r.End() && r.Mapped() == u.Mapped()
    requires r.Mapped() ==> u.mappedFlags == r.mappedFlags && u.paStart == r.paStart + r.length
    ensures Describes(r.(length := r.length + u.length), m, root)
  {
    hide Lookup;
    forall v: nat | r.vaStart <= v < u.End()
      ensures Lookup(m, root, v) == if r.Mapped() then Some(Mapping(r.paStart + (v - r.vaStart), r.mappedFlags)) else None
    {
      if v >= r.End() { assert u.vaStart <= v < u.End(); }
    }
  }

  lemma ExtendCharts(rs: seq<Region>, m: Mem, root: nat, x: nat, n: nat, pa: nat, flags: nat)
    requires Charts(rs, m, root, x) && Uniform(m, root, x, n, pa, flags)
    requires Present(flags) == Last(rs).Mapped()
    requires Present(flags) ==> flags == Last(rs).mappedFlags && pa == Last(rs).paStart + Last(rs).length
    ensures Charts(Extend(rs, n), m, root, x + n)
  {
    hide Lookup, Describes, Present;
    var rs', k := Extend(rs, n), |rs| - 1;
    ExtendDescribes(rs[k], Region(x, pa, n, flags), m, root);
    forall i | 0 <= i < |rs'| - 1 ensures rs'[i].End() == rs'[i + 1].vaStart && !Mergeable(rs'[i], rs'[i + 1]) {
      assert rs[i].End() == rs[i + 1].vaStart && (rs[i].Mapped() || !rs[i].Mapped());
    }
  }

  lemma AddCharts(rs: seq<Region>, m: Mem, root: nat, x: nat, n: nat, pa: nat, flags: nat)
    requires Charts(rs, m, root, x) && Uniform(m, root, x, n, pa, flags) && n > 0
    requires !Mergeable(Last(rs), Region(x, pa, n, flags))
    ensures Charts(rs + [Region(x, pa, n, flags)], m, root, x + n)
  {
    hide Lookup, Describes;
    var rs', u := rs + [Region(x, pa, n, flags)], Region(x, pa, n, flags);
    forall i | 0 <= i < |rs'| - 1 ensures rs'[i].End() == rs'[i + 1].vaStart && !Mergeable(rs'[i], rs'[i + 1]) {
      if i < |rs| - 1 { assert rs[i].End() == rs[i + 1].vaStart && (rs[i].Mapped() || !rs[i].Mapped()); }
    }
  }

  /** Dropping an empty first region. */
  lemma DropFirst(rs: seq<Region>, m: Mem, root: nat, x: nat)
    requires Charts(rs, m, root, x) && rs[0].length == 0 && x > 0
    ensures |rs| > 1 && Charts(rs[1..], m, root, x)
  {
    var rs' := rs[1..];
    assert rs[0].End() == rs[1].vaStart;
    forall i | 0 <= i < |rs'| - 1 ensures rs'[i].End() == rs'[i + 1].vaStart && !Mergeable(rs'[i], rs'[i + 1]) {
      assert rs[i + 1].End() == rs[i + 1 + 1].vaStart && (rs[i + 1].Mapped() || !rs[i + 1].Mapped());
    }
  }

  /** Every page of [0, upTo) is in some region of a chart. */
  lemma {:induction false} Covered(rs: seq<Region>, m: Mem, root: nat, upTo: nat, v: nat, k: nat)
    requires Charts(rs, m, root, upTo) && k < |rs| && v < rs[k].End()
    ensures exists i :: 0 <= i < |rs| && rs[i].vaStart <= v < rs[i].End()
    decreases k
  {
    if v < rs[k].vaStart {
      assert rs[k - 1].End() == rs[k - 1 + 1].vaStart;
      Covered(rs, m, root, upTo, v, k - 1);
    }
  }

  /** A chart of the whole address space determines every translation. */
  lemma ChartDeterminesTable(rs: seq<Region>, m: Mem, root: nat, m': Mem, root': nat)
    requires Charts(rs, m, root, VPNS) && Charts(rs, m', root', VPNS)
    ensures Flat(m, root) == Flat(m', root')
  {
    forall v: nat | v < VPNS ensures Lookup(m, root, v) == Lookup(m', root', v) {
      Covered(rs, m, root, VPNS, v, |rs| - 1);
      var i :| 0 <= i < |rs| && rs[i].vaStart <= v < rs[i].End();
      assert Describes(rs[i], m, root) && Describes(rs[i], m', root');
    }
    hide Lookup;
    assert forall v: nat :: v in Flat(m, root) <==> v in Flat(m', root');
  }

  /** First page of entry i of the table at position (level, prefix). */
  function Start(level: nat, prefix: nat, i: nat): nat
    requires 1 <= level <= 4
  {
    (prefix * PT_NUM_ENTRIES + i) * PagesAt(level)
  }

  lemma StartNext(level: nat, prefix: nat, i: nat)
    requires 1 <= level <= 4
    ensures Start(level, prefix, i) + PagesAt(level) == Start(level, prefix, i + 1)
  {}

  lemma StartEnds(level: nat, prefix: nat)
    requires 1 <= level <= 4
    ensures Start(level, prefix, 0) == prefix * PagesAt(level + 1)
    ensures Start(level, prefix, PT_NUM_ENTRIES) == (prefix + 1) * PagesAt(level + 1)
  {
    if level == 1 {} else if level == 2 {} else if level == 3 {} else {}
  }

  /** The pages of entry i are those that agree with it on table and index. */
  lemma EntryPages(level: nat, prefix: nat, i: nat, v: nat)
    requires 1 <= level <= 4 && i < PT_NUM_ENTRIES
    requires Start(level, prefix, i) <= v < Start(level, prefix, i) + PagesAt(level)
    ensures Prefix(v, level) == prefix && Index(v, level) == i
    ensures v % PagesAt(level) == v - Start(level, prefix, i)
  {
    DivLevel(v, level);
    var e := prefix * PT_NUM_ENTRIES + i;
    assert v / PagesAt(level) == e && v % PagesAt(level) == v - e * PagesAt(level) by {
      if level == 1 {} else if level == 2 {} else if level == 3 {} else {}
    }
    assert e / PT_NUM_ENTRIES == prefix && e % PT_NUM_ENTRIES == i;
  }

  /** The walk of every page of the position passes through the table in `frame`. */
  ghost predicate Reaches(m: Mem, root: nat, frame: nat, level: nat, prefix: nat)
    requires 1 <= level <= 4
  {
    forall v: nat :: Prefix(v, level) == prefix ==> Lookup(m, root, v) == LookupFrom(m, frame, level, v)
  }

  /** A leaf entry, or an invalid one, translates its pages uniformly. */
  lemma EntryUniform(m: Mem, root: nat, pos: map<nat, Pos>, frame: nat, level: nat, prefix: nat, i: nat)
    requires 1 <= level <= 4 && i < PT_NUM_ENTRIES
    requires Tree(m, root, pos) && frame in pos && pos[frame] == Pos(level, prefix)
    requires Reaches(m, root, frame, level, prefix)
    requires var w := Read(m, frame, i); !Present(w) || level == 1 || Huge(w)
    ensures var w := Read(m, frame, i);
            Uniform(m, root, Start(level, prefix, i), PagesAt(level), FrameNo(w), FlagBits(w))
  {
    var w, x := Read(m, frame, i), Start(level, prefix, i);
    var r := Region(x, FrameNo(w), PagesAt(level), FlagBits(w));
    FlagBitsPresent(w);
    hide Tree, Reaches, Lookup, FlagBits, FrameNo, Present, Start;
    forall v: nat | r.vaStart <= v < r.End()
      ensures Lookup(m, root, v) == if r.Mapped() then Some(Mapping(r.paStart + (v - r.vaStart), r.mappedFlags)) else None
    {
      EntryTranslates(m, root, pos, frame, level, prefix, i, v);
    }
  }

  lemma EntryTranslates(m: Mem, root: nat, pos: map<nat, Pos>, frame: nat, level: nat, prefix: nat, i: nat, v: nat)
    requires 1 <= level <= 4 && i < PT_NUM_ENTRIES
    requires Tree(m, root, pos) && frame in pos && pos[frame] == Pos(level, prefix)
    requires Reaches(m, root, frame, level, prefix)
    requires var w := Read(m, frame, i); !Present(w) || level == 1 || Huge(w)
    requires Start(level, prefix, i) <= v < Start(level, prefix, i) + PagesAt(level)
    ensures var w := Read(m, frame, i);
            Lookup(m, root, v) == if Present(w) then Some(Mapping(FrameNo(w) + (v - Start(level, prefix, i)), FlagBits(w))) else None
  {
    var w := Read(m, frame, i);
    EntryPages(level, prefix, i, v);
    assert EntryOk(m, pos, frame, i);
    assert Walk(m, frame, level, v, 1) == Slot(level, frame, i);
    assert LookupFrom(m, frame, level, v) == Meaning(w, level, v);
    assert Lookup(m, root, v) == Meaning(w, level, v);
    hide Walk, Lookup, Tree, Reaches, LookupFrom;
    if Present(w) { FrameBase(FrameNo(w), PagesAt(level)); }
  }

  /** A link passes the walks of its pages on to the table it points at. */
  lemma EntryReaches(m: Mem, root: nat, pos: map<nat, Pos>, frame: nat, level: nat, prefix: nat, i: nat)
    requires 2 <= level <= 4 && i < PT_NUM_ENTRIES
    requires Tree(m, root, pos) && frame in pos && pos[frame] == Pos(level, prefix)
    requires Reaches(m, root, frame, level, prefix)
    requires var w := Read(m, frame, i); Present(w) && !Huge(w)
    ensures var f := FrameNo(Read(m, frame, i));
            && f in pos && pos[f] == Pos(level - 1, prefix * PT_NUM_ENTRIES + i)
            && Reaches(m, root, f, level - 1, prefix * PT_NUM_ENTRIES + i)
  {
    var w := Read(m, frame, i);
    assert EntryOk(m, pos, frame, i);
    forall v: nat | Prefix(v, level - 1) == prefix * PT_NUM_ENTRIES + i
      ensures Lookup(m, root, v) == LookupFrom(m, FrameNo(w), level - 1, v)
    {
      PrefixDown(v, level);
      assert Prefix(v, level) == prefix && Index(v, level) == i;
      assert Walk(m, frame, level, v, 1) == Walk(m, FrameNo(w), level - 1, v, 1);
    }
  }

  class VirtmemChart {
    /** The region list; the last element is the source's `current_region`. */
    var regions: seq<Region>

    constructor ()
      ensures regions == [Region(0, 0, 0, 0)]
    {
      regions := [Region(0, 0, 0, 0)];
    }

    /** `virtmem_region_add_next`, followed by the assignments to the new region's fields. */
    method AddNext(pa: nat, length: nat, flags: nat)
      requires regions != []
      modifies this
      ensures regions == old(regions) + [Region(Last(old(regions)).End(), pa, length, flags)]
    {
      var va := Last(regions).End();
      regions := regions + [Region(va, 0, 0, 0)];
      regions := regions[|regions| - 1 := Region(va, pa, length, flags)];
    }

    method Grow(length: nat)
      requires regions != []
      modifies this
      ensures regions == Extend(old(regions), length)
    {
      regions := regions[|regions| - 1 := Last(regions).(length := Last(regions).length + length)];
    }

    /** `virtmem_chart_layout_internal`: charts the pages of one table. */
    method ChartLayoutInternal(m: Mem, ghost root: nat, ghost pos: map<nat, Pos>, frame: nat, level: nat, ghost prefix: nat)
      requires 1 <= level <= 4 && Tree(m, root, pos) && frame in pos && pos[frame] == Pos(level, prefix)
      requires Reaches(m, root, frame, level, prefix)
      requires Charts(regions, m, root, prefix * PagesAt(level + 1))
      modifies this
      ensures Charts(regions, m, root, (prefix + 1) * PagesAt(level + 1))
      ensures InvalidClear(m, pos) && old(Tidy(regions)) ==> Tidy(regions)
      decreases level
    {
      hide Charts, Tree, Reaches, PagesAt, Lookup, Tidy, InvalidClear;
      var i := 0;
      StartEnds(level, prefix);
      while i < PT_NUM_ENTRIES
        invariant i <= PT_NUM_ENTRIES
        invariant Charts(regions, m, root, Start(level, prefix, i))
        invariant InvalidClear(m, pos) && old(Tidy(regions)) ==> Tidy(regions)
      {
        StartNext(level, prefix, i);
        var pte := Read(m, frame, i);
        if level > 1 && Present(pte) && !Huge(pte) {
          // an empty table says nothing about the current region, so descend
          EntryReaches(m, root, pos, frame, level, prefix, i);
          ChartLayoutInternal(m, root, pos, FrameNo(pte), level - 1, prefix * PT_NUM_ENTRIES + i);
        } else {
          ChartEntry(m, root, pos, frame, level, prefix, i);
        }
        i := i + 1;
      }
    }

    /** The cases of the loop body that do not descend. */
    method ChartEntry(m: Mem, ghost root: nat, ghost pos: map<nat, Pos>, frame: nat, level: nat, ghost prefix: nat, i: nat)
      requires 1 <= level <= 4 && i < PT_NUM_ENTRIES
      requires Tree(m, root, pos) && frame in pos && pos[frame] == Pos(level, prefix)
      requires Reaches(m, root, frame, level, prefix)
      requires Charts(regions, m, root, Start(level, prefix, i))
      requires var w := Read(m, frame, i); !Present(w) || level == 1 || Huge(w)
      modifies this
      ensures Charts(regions, m, root, Start(level, prefix, i) + PagesAt(level))
      ensures InvalidClear(m, pos) && old(Tidy(regions)) ==> Tidy(regions)
    {
      EntryUniform(m, root, pos, frame, level, prefix, i);
      ghost var x := Start(level, prefix, i);
      assert regions != [] && Last(regions).End() == x;
      var pte := Read(m, frame, i);
      FlagBitsPresent(pte);
      hide Charts, Tree, Reaches, PagesAt, Lookup, Uniform, FlagBits, FrameNo, Describes, Start;
      assert InvalidClear(m, pos) && !Present(pte) ==> FlagBits(pte) == 0;
      ghost var tidy := InvalidClear(m, pos) && Tidy(regions);
      if tidy { LastTidy(regions); }
      hide InvalidClear, Tidy;
      var ptePa, pteFlags, mappedLength := FrameNo(pte), FlagBits(pte), PagesAt(level);
      var current := Last(regions);
      var currentEnd := current.paStart + current.length;
      if level > 1 {
        if Present(pte) {
          if pteFlags == current.mappedFlags && ptePa == currentEnd {
            ExtendCharts(regions, m, root, x, mappedLength, ptePa, pteFlags);
            if tidy { ExtendTidy(regions, mappedLength); }
            Grow(mappedLength);
          } else {
            AddCharts(regions, m, root, x, mappedLength, ptePa, pteFlags);
            if tidy { AddTidy(regions, Region(x, ptePa, mappedLength, pteFlags)); }
            AddNext(ptePa, mappedLength, pteFlags);
          }
        } else if current.Mapped() {
          UnmappedAnywhere(m, root, x, mappedLength, ptePa, 0, pteFlags);
          AddCharts(regions, m, root, x, mappedLength, 0, pteFlags);
          if tidy { AddTidy(regions, Region(x, 0, mappedLength, pteFlags)); }
          AddNext(0, mappedLength, pteFlags);
        } else {
          ExtendCharts(regions, m, root, x, mappedLength, ptePa, pteFlags);
          if tidy { ExtendTidy(regions, mappedLength); }
          Grow(mappedLength);
        }
      } else {
        if pteFlags == current.mappedFlags && (!Present(pte) || ptePa == currentEnd) {
          ExtendCharts(regions, m, root, x, mappedLength, ptePa, pteFlags);
          if tidy { ExtendTidy(regions, mappedLength); }
          Grow(mappedLength);
        } else {
          var pa := if Present(pte) then ptePa else 0;
          UnmappedAnywhere(m, root, x, mappedLength, ptePa, pa, pteFlags);
          AddCharts(regions, m, root, x, mappedLength, pa, pteFlags);
          if tidy { AddTidy(regions, Region(x, pa, mappedLength, pteFlags)); }
          AddNext(pa, mappedLength, pteFlags);
        }
      }
    }
  }

  lemma LastTidy(rs: seq<Region>)
    requires rs != [] && Tidy(rs)
    ensures !Last(rs).Mapped() ==> Last(rs).paStart == 0 && Last(rs).mappedFlags == 0
  {
    assert rs[|rs| - 1].Mapped() || !rs[|rs| - 1].Mapped();
  }

  lemma UnmappedAnywhere(m: Mem, root: nat, x: nat, n: nat, pa: nat, pa': nat, flags: nat)
    requires Uniform(m, root, x, n, pa, flags) && (pa == pa' || !Present(flags))
    ensures Uniform(m, root, x, n, pa', flags)
  {}

  /**
   `virtmem_chart_layout`: regions that tile the whole address space, say for every page how it is
   translated, and could not be merged further.
   */
  method ChartLayout(m: Mem, root: nat, ghost pos: map<nat, Pos>) returns (rs: seq<Region>)
    requires Tree(m, root, pos)
    ensures Charts(rs, m, root, VPNS)
    ensures NoneEmpty(rs)
    ensures InvalidClear(m, pos) ==> Tidy(rs)
  {
    StartTidy();
    hide Charts, Tree, Reaches, Lookup, Tidy, InvalidClear;
    var chart := new VirtmemChart();
    ChartStart(m, root);
    RootReaches(m, root, pos);
    chart.ChartLayoutInternal(m, root, pos, root, 4, 0);
    rs := chart.regions;
    ChartLengths(rs, m, root, VPNS);
    if rs[0].length == 0 {
      DropFirst(rs, m, root, VPNS);
      if Tidy(rs) { RestTidy(rs); }
      rs := rs[1..];
      ChartLengths(rs, m, root, VPNS);
    }
  }

  lemma StartTidy()
    ensures Tidy([Region(0, 0, 0, 0)])
  {}

  lemma RestTidy(rs: seq<Region>)
    requires rs != [] && Tidy(rs)
    ensures Tidy(rs[1..])
  {
    hide Present;
    forall i | 0 <= i < |rs| - 1 ensures rs[1..][i] == rs[i + 1] {}
    forall i | 0 <= i < |rs| - 2 ensures rs[1..][i].Mapped() || rs[1..][i + 1].Mapped() { assert rs[i + 1].Mapped() || rs[i + 1 + 1].Mapped(); }
  }

  lemma ChartStart(m: Mem, root: nat)
    ensures Charts([Region(0, 0, 0, 0)], m, root, 0)
  {
    assert Describes(Region(0, 0, 0, 0), m, root) by { hide Lookup, Present; }
    hide Lookup, Present, Describes;
  }

  lemma RootReaches(m: Mem, root: nat, pos: map<nat, Pos>)
    requires Tree(m, root, pos)
    ensures root in pos && pos[root] == Pos(4, 0) && Reaches(m, root, root, 4, 0)
  {}

  lemma ChartLengths(rs: seq<Region>, m: Mem, root: nat, x: nat)
    requires Charts(rs, m, root, x)
    ensures rs != [] && forall i :: 0 < i < |rs| ==> rs[i].length > 0
  {
    hide Describes;
  }

  // ---- there is only one such chart

  predicate NoneEmpty(rs: seq<Region>) {
    forall i :: 0 <= i < |rs| ==> rs[i].length > 0
  }

  lemma {:induction false} EndsBelow(rs: seq<Region>, m: Mem, root: nat, upTo: nat, k: nat)
    requires Charts(rs, m, root, upTo) && NoneEmpty(rs) && k < |rs|
    ensures rs[k].End() <= upTo && (k < |rs| - 1 ==> rs[k].End() < upTo)
    decreases |rs| - k
  {
    if k < |rs| - 1 {
      assert rs[k].End() == rs[k + 1].vaStart;
      EndsBelow(rs, m, root, upTo, k + 1);
    }
  }

  /** A region that begins inside another one goes on where the part before it ends. */
  lemma GoesOn(r: Region, next: Region, u: Region, m: Mem, root: nat)
    requires Describes(next, m, root) && Describes(u, m, root)
    requires r.vaStart == u.vaStart && r.End() == next.vaStart < u.End() && next.length > 0
    requires r.Mapped() == u.Mapped() && (r.Mapped() ==> r.paStart == u.paStart && r.mappedFlags == u.mappedFlags)
    ensures Mergeable(r, next) || !(r.Mapped() || next.Mapped())
  {
    hide Lookup;
    var t := Lookup(m, root, next.vaStart);
    assert t.Some? <==> next.Mapped();
  }

  /** Of two regions that start together neither is longer: the next region of the chart would belong to it. */
  lemma NotShorter(rs: seq<Region>, rs': seq<Region>, m: Mem, root: nat, k: nat)
    requires Charts(rs, m, root, VPNS) && Charts(rs', m, root, VPNS) && Tidy(rs) && NoneEmpty(rs) && NoneEmpty(rs')
    requires k < |rs| && k < |rs'| && rs[k].vaStart == rs'[k].vaStart && rs[k].Mapped() == rs'[k].Mapped()
    requires rs[k].Mapped() ==> rs[k].paStart == rs'[k].paStart && rs[k].mappedFlags == rs'[k].mappedFlags
    ensures rs[k].length >= rs'[k].length
  {
    hide Describes, Mergeable, Region.Mapped;
    EndsBelow(rs', m, root, VPNS, k);
    if rs[k].length < rs'[k].length {
      assert rs[k].End() == rs[k + 1].vaStart;
      GoesOn(rs[k], rs[k + 1], rs'[k], m, root);
    }
  }

  lemma SameStart(r: Region, u: Region, m: Mem, root: nat)
    requires Describes(r, m, root) && Describes(u, m, root) && r.vaStart == u.vaStart && r.length > 0 && u.length > 0
    ensures r.Mapped() == u.Mapped() && (r.Mapped() ==> r.paStart == u.paStart && r.mappedFlags == u.mappedFlags)
  {
    hide Lookup, Present;
    var t := Lookup(m, root, r.vaStart);
    assert (t.Some? <==> r.Mapped()) && (t.Some? <==> u.Mapped());
  }

  lemma SameRegion(rs: seq<Region>, rs': seq<Region>, m: Mem, root: nat, k: nat)
    requires Charts(rs, m, root, VPNS) && Charts(rs', m, root, VPNS) && Tidy(rs) && Tidy(rs') && NoneEmpty(rs) && NoneEmpty(rs')
    requires k < |rs| && k < |rs'| && rs[k].vaStart == rs'[k].vaStart
    ensures rs[k] == rs'[k]
  {
    SameStart(rs[k], rs'[k], m, root);
    NotShorter(rs, rs', m, root, k);
    NotShorter(rs', rs, m, root, k);
    hide Charts, Describes, Present;
  }

  lemma {:induction false} SamePrefix(rs: seq<Region>, rs': seq<Region>, m: Mem, root: nat, k: nat)
    requires Charts(rs, m, root, VPNS) && Charts(rs', m, root, VPNS) && Tidy(rs) && Tidy(rs') && NoneEmpty(rs) && NoneEmpty(rs')
    requires k < |rs| && k < |rs'|
    ensures rs[k] == rs'[k]
    decreases k
  {
    hide Describes, Tidy, NoneEmpty;
    if k > 0 {
      SamePrefix(rs, rs', m, root, k - 1);
      assert rs[k - 1].End() == rs[k - 1 + 1].vaStart && rs'[k - 1].End() == rs'[k - 1 + 1].vaStart;
    }
    SameRegion(rs, rs', m, root, k);
  }

  /** A page table has one chart: what `virtmem_chart_layout` answers could not be written otherwise. */
  lemma ChartUnique(rs: seq<Region>, rs': seq<Region>, m: Mem, root: nat)
    requires Charts(rs, m, root, VPNS) && Charts(rs', m, root, VPNS) && Tidy(rs) && Tidy(rs') && NoneEmpty(rs) && NoneEmpty(rs')
    ensures rs == rs'
  {
    hide Describes, Tidy, NoneEmpty;
    forall k: nat | k < |rs| && k < |rs'| ensures rs[k] == rs'[k] { SamePrefix(rs, rs', m, root, k); }
    if |rs| < |rs'| {
      EndsBelow(rs', m, root, VPNS, |rs| - 1);
    } else if |rs'| < |rs| {
      EndsBelow(rs, m, root, VPNS, |rs'| - 1);
    }
  }
}

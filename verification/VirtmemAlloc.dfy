/** The virtual page allocator: first fit over an address-ordered, coalescing list of spans. */
module VirtmemAlloc {
  import opened PageMath
  import opened Spans
  import opened SpanList

  /** Node k of the list holds the byte addresses of span k. */
  ghost predicate Shows(nodes: seq<VpSpan>, spans: seq<Span>)
    reads nodes
  {
    && |nodes| == |spans|
    && forall i {:trigger nodes[i].start} {:trigger nodes[i].end} {:trigger spans[i]} :: 0 <= i < |nodes| ==>
         nodes[i].start == spans[i].first * PGSIZE && nodes[i].end == spans[i].limit * PGSIZE
  }

  /** As `Shows`, with nothing said about position i. */
  ghost predicate ShowsExcept(nodes: seq<VpSpan>, spans: seq<Span>, i: nat)
    reads nodes
  {
    && |nodes| == |spans|
    && forall k {:trigger nodes[k].start} {:trigger nodes[k].end} {:trigger spans[k]} :: 0 <= k < |nodes| && k != i ==>
         nodes[k].start == spans[k].first * PGSIZE && nodes[k].end == spans[k].limit * PGSIZE
  }

  ghost predicate Subset(a: seq<VpSpan>, b: seq<VpSpan>) {
    forall s :: s in a ==> s in b
  }

  lemma WithoutSubset(nodes: seq<VpSpan>, k: nat)
    requires k < |nodes|
    ensures Subset(Without(nodes, k), nodes)
  {}

  /**
   What `freelist_alloc` promises: the lowest address starting n free pages, those pages gone from
   the free set; or NULL and nothing changed, because no run of n pages is free anywhere.
   */
  ghost predicate Allocated(before: set<nat>, after: set<nat>, npages: nat, va: nat) {
    va % PGSIZE == 0 &&
    if va == 0 && after == before && !RunAt(before, 0, npages)
    then forall q: nat :: !RunAt(before, q, npages)
    else
      && RunAt(before, va / PGSIZE, npages)
      && after == before - PageRange(va / PGSIZE, npages)
      && forall q: nat :: q < va / PGSIZE ==> !RunAt(before, q, npages)
  }

  lemma RunIsAllocated(before: set<nat>, after: set<nat>, npages: nat, first: nat)
    requires RunAt(before, first, npages) && after == before - PageRange(first, npages)
    requires forall q: nat :: q < first ==> !RunAt(before, q, npages)
    ensures Allocated(before, after, npages, first * PGSIZE)
  {
    hide RunAt, PageRange;
    assert first * PGSIZE / PGSIZE == first && first * PGSIZE % PGSIZE == 0;
  }

  lemma FitAllocates(spans: seq<Span>, i: nat, npages: nat)
    requires Canonical(spans) && i < |spans| && npages <= spans[i].limit - spans[i].first
    requires forall k :: 0 <= k < i ==> spans[k].limit - spans[k].first < npages
    ensures Canonical(TakeFrom(spans, i, npages))
    ensures Allocated(Pages(spans), Pages(TakeFrom(spans, i, npages)), npages, spans[i].first * PGSIZE)
  {
    FirstFitIsLowest(spans, i, npages);
    TakeFromPages(spans, i, npages);
    hide Pages, Canonical, TakeFrom;
    RunIsAllocated(Pages(spans), Pages(TakeFrom(spans, i, npages)), npages, spans[i].first);
  }

  lemma RemainderParts(s: Span, n: nat)
    requires n <= s.limit - s.first
    ensures Remainder(s, n) == if s.first + n == s.limit then [] else [Span(s.first + n, s.limit)]
  {}

  lemma NoFitFails(spans: seq<Span>, npages: nat)
    requires Canonical(spans)
    requires forall k :: 0 <= k < |spans| ==> spans[k].limit - spans[k].first < npages
    ensures Allocated(Pages(spans), Pages(spans), npages, 0)
  {
    NoLargeSpanNoRun(spans, npages);
  }

  /** Dropping a node whose remaining span is empty. */
  lemma ShowsWithout(nodes: seq<VpSpan>, spans: seq<Span>, i: nat)
    requires ShowsExcept(nodes, spans, i) && i < |nodes|
    ensures Shows(Without(nodes, i), Splice(spans, i, i + 1, []))
  {
    var ns, ss := Without(nodes, i), Splice(spans, i, i + 1, []);
    forall k | 0 <= k < |ns| ensures ns[k].start == ss[k].first * PGSIZE && ns[k].end == ss[k].limit * PGSIZE {
      assert ns[k] == nodes[if k < i then k else k + 1];
    }
  }

  /** Changing the bounds of node i changes span i. */
  lemma ShowsChanged(nodes: seq<VpSpan>, spans: seq<Span>, i: nat, s: Span)
    requires ShowsExcept(nodes, spans, i) && i < |nodes|
    requires nodes[i].start == s.first * PGSIZE && nodes[i].end == s.limit * PGSIZE
    ensures Shows(nodes, Splice(spans, i, i + 1, [s]))
  {
    var ss := Splice(spans, i, i + 1, [s]);
    forall k | 0 <= k < |ss| ensures nodes[k].start == ss[k].first * PGSIZE && nodes[k].end == ss[k].limit * PGSIZE {
      if k != i { assert ss[k] == spans[k]; }
    }
  }

  /** Inserting a node at position i inserts its span. */
  lemma ShowsWith(nodes: seq<VpSpan>, spans: seq<Span>, i: nat, elm: VpSpan, s: Span)
    requires Shows(nodes, spans) && i <= |nodes|
    requires elm.start == s.first * PGSIZE && elm.end == s.limit * PGSIZE
    ensures Shows(With(nodes, i, elm), Splice(spans, i, i, [s]))
  {
    var ns, ss := With(nodes, i, elm), Splice(spans, i, i, [s]);
    forall k | 0 <= k < |ns| ensures ns[k].start == ss[k].first * PGSIZE && ns[k].end == ss[k].limit * PGSIZE {
      if k != i { assert ns[k] == nodes[if k < i then k else k - 1]; }
    }
  }

  lemma SpliceTwice(spans: seq<Span>, k: nat, s: Span)
    requires k + 1 < |spans|
    ensures Splice(Splice(spans, k, k + 1, [s]), k + 1, k + 2, []) == Splice(spans, k, k + 2, [s])
  {}

  lemma SpliceOver(spans: seq<Span>, k: nat, s: Span, t: Span)
    requires k + 1 < |spans|
    ensures Splice(Splice(spans, k, k + 1, [s]), k, k + 2, [t]) == Splice(spans, k, k + 2, [t])
  {}

  lemma WithSubset(nodes: seq<VpSpan>, i: nat, elm: VpSpan)
    requires i <= |nodes|
    ensures forall s :: s in With(nodes, i, elm) ==> s in nodes || s == elm
  {}

  /** The range of npages pages starting at byte address `p`. */
  function RangeOf(p: nat, npages: nat): Span { Span(p / PGSIZE, p / PGSIZE + npages) }

  /** The position found by the search separates the spans below the range from those above it. */
  lemma GapSeparates(spans: seq<Span>, i: nat, s: Span)
    requires Canonical(spans) && i <= |spans| && s.first < s.limit
    requires Pages(spans) !! PageRange(s.first, s.limit - s.first)
    requires forall k :: 0 <= k < i ==> spans[k].first < s.limit
    requires i < |spans| ==> s.limit <= spans[i].first
    ensures InsertsAt(spans, i, s)
  {
    hide Pages, PageRange;
    forall k | 0 <= k < |spans|
      ensures k < i ==> spans[k].limit <= s.first
      ensures k >= i ==> s.limit <= spans[k].first
    {
      DisjointFromSpan(spans, s, k);
      if i < |spans| { Apart(spans, i, k); }
    }
  }

  /** Nothing touches the range, so neither neighbouring page is free. */
  lemma NoNeighbour(spans: seq<Span>, i: nat, s: Span)
    requires Canonical(spans) && InsertsAt(spans, i, s) && s.first < s.limit
    requires !TouchesLeft(spans, i, s) && !TouchesRight(spans, i, s)
    ensures s.first > 0 ==> s.first - 1 !in Pages(spans)
    ensures s.limit !in Pages(spans)
  {
    if s.first > 0 { NotCoveredBelow(spans, i, s); }
    NotCoveredAbove(spans, i, s);
  }

  lemma NotCoveredBelow(spans: seq<Span>, i: nat, s: Span)
    requires Canonical(spans) && InsertsAt(spans, i, s) && !TouchesLeft(spans, i, s) && 0 < s.first < s.limit
    ensures !InSome(spans, s.first - 1)
  {
    forall k | 0 <= k < |spans| ensures !spans[k].Has(s.first - 1) {
      if k < i { Apart(spans, k, i - 1); }
    }
  }

  lemma NotCoveredAbove(spans: seq<Span>, i: nat, s: Span)
    requires Canonical(spans) && InsertsAt(spans, i, s) && !TouchesRight(spans, i, s) && s.first < s.limit
    ensures !InSome(spans, s.limit)
  {
    forall k | 0 <= k < |spans| ensures !spans[k].Has(s.limit) {
      if k >= i { Apart(spans, i, k); }
    }
  }

  class VpFreelist {
    const items: SpanListHead
    /** Whether the system allocator may refuse a span. */
    const mayRefuse: bool
    var nallocs: nat
    ghost var spans: seq<Span>
    /** How often a span could not be allocated. */
    ghost var refusals: nat

    ghost predicate Valid()
      reads this, items, items.nodes
    {
      items.Linked() && Shows(items.nodes, spans) && Canonical(spans)
    }

    /** The pages that can be handed out. */
    ghost function FreePages(): set<nat>
      reads this
    {
      Pages(spans)
    }

    ghost function Repr(): set<object>
      reads this, items
    {
      {this, items} + set s | s in items.nodes
    }

    constructor (mayRefuse: bool)
      ensures Valid() && FreePages() == {} && fresh(Repr()) && this.mayRefuse == mayRefuse
    {
      this.mayRefuse := mayRefuse;
      items := new SpanListHead();
      nallocs, spans, refusals := 0, [], 0;
    }

    /** The LIST_FOREACH search of `freelist_alloc`. */
    method FindFit(npages: nat) returns (span: VpSpan?, ghost i: nat)
      requires Valid()
      ensures i <= |spans| && span == Nth(items.nodes, i)
      ensures forall k :: 0 <= k < i ==> spans[k].limit - spans[k].first < npages
      ensures span != null ==> npages <= spans[i].limit - spans[i].first
    {
      span, i := items.first, 0;
      while span != null && (span.end - span.start) / PGSIZE < npages
        invariant i <= |spans| && span == Nth(items.nodes, i)
        invariant forall k :: 0 <= k < i ==> spans[k].limit - spans[k].first < npages
        decreases |spans| - i
      {
        span, i := span.next, i + 1;
      }
    }

    /** `freelist_alloc`: 0 stands for NULL. */
    method Alloc(npages: nat) returns (va: nat)
      requires Valid()
      modifies Repr()
      ensures Valid() && Repr() <= old(Repr()) && refusals == old(refusals)
      ensures Allocated(old(FreePages()), FreePages(), npages, va)
    {
      hide Pages, Canonical, TakeFrom, Allocated;
      var span: VpSpan?;
      ghost var i: nat;
      span, i := FindFit(npages);
      if span == null {
        NoFitFails(spans, npages);
        return 0;
      }
      FitAllocates(spans, i, npages);
      va := span.start;
      TakeFromSpan(span, i, npages);
      nallocs := nallocs + 1;
    }

    /** The update of the chosen span. */
    method TakeFromSpan(span: VpSpan, ghost i: nat, npages: nat)
      requires Valid() && i < |spans| && span == items.nodes[i]
      requires npages <= spans[i].limit - spans[i].first
      requires Canonical(TakeFrom(spans, i, npages))
      modifies this`spans, items, items.nodes
      ensures Valid() && Subset(items.nodes, old(items.nodes))
      ensures spans == TakeFrom(old(spans), i, npages)
    {
      hide Pages, Canonical, Splice, Chain, ShowsExcept, Remainder;
      ghost var s := spans[i];
      RemainderParts(s, npages);
      StartMoves(span, i, npages);
      assert span.start == span.end <==> s.first + npages == s.limit;
      if span.start == span.end {
        Unlink(span, i);
      } else {
        Rebound(span, i, Span(s.first + npages, s.limit));
      }
    }

    method StartMoves(span: VpSpan, ghost i: nat, npages: nat)
      requires items.Linked() && Shows(items.nodes, spans) && i < |spans| && span == items.nodes[i]
      modifies span`start
      ensures items.Linked()
      ensures ShowsExcept(items.nodes, spans, i)
      ensures span.start == (spans[i].first + npages) * PGSIZE && span.end == spans[i].limit * PGSIZE
    {
      span.start := span.start + npages * PGSIZE;
    }

    /** LIST_REMOVE followed by FREE: the span leaves the list. */
    method Unlink(span: VpSpan, ghost i: nat)
      requires items.Linked() && ShowsExcept(items.nodes, spans, i) && i < |spans| && span == items.nodes[i]
      modifies this`spans, items, items.nodes`next, items.nodes`prev
      ensures items.Linked() && Shows(items.nodes, spans) && spans == Splice(old(spans), i, i + 1, [])
      ensures Subset(items.nodes, old(items.nodes))
    {
      ghost var nodes := items.nodes;
      hide Splice, Without;
      items.Remove(span, i);
      ShowsWithout(nodes, spans, i);
      WithoutSubset(nodes, i);
      spans := Splice(spans, i, i + 1, []);
    }

    /** The abstract counterpart of assigning the bounds of one span. */
    ghost method Rebound(span: VpSpan, i: nat, s: Span)
      requires items.Linked() && ShowsExcept(items.nodes, spans, i) && i < |spans| && span == items.nodes[i]
      requires span.start == s.first * PGSIZE && span.end == s.limit * PGSIZE
      modifies this`spans
      ensures Shows(items.nodes, spans) && spans == Splice(old(spans), i, i + 1, [s])
    {
      ShowsChanged(items.nodes, spans, i, s);
      spans := Splice(spans, i, i + 1, [s]);
    }

    /** The LIST_FOREACH search of `freelist_free`. */
    method FindGap(end: nat, ghost limit: nat) returns (prev: VpSpan?, next: VpSpan?, ghost i: nat)
      requires Valid() && end == limit * PGSIZE
      ensures i <= |spans| && next == Nth(items.nodes, i) && prev == if i == 0 then null else items.nodes[i - 1]
      ensures forall k :: 0 <= k < i ==> spans[k].first < limit
      ensures i < |spans| ==> limit <= spans[i].first
    {
      prev, next, i := null, items.first, 0;
      while next != null && next.start < end
        invariant i <= |spans| && next == Nth(items.nodes, i)
        invariant prev == if i == 0 then null else items.nodes[i - 1]
        invariant forall k :: 0 <= k < i ==> spans[k].first < limit
        decreases |spans| - i
      {
        prev, next, i := next, next.next, i + 1;
      }
    }

    /** `try_merge_spans` */
    method TryMergeSpans(left: VpSpan, right: VpSpan, ghost k: nat) returns (merged: VpSpan?)
      requires items.Linked() && Shows(items.nodes, spans) && k + 1 < |spans|
      requires left == items.nodes[k] && right == items.nodes[k + 1] && left.end <= right.start
      modifies this`spans, items, items.nodes
      ensures items.Linked() && Shows(items.nodes, spans) && Subset(items.nodes, old(items.nodes))
      ensures merged == if old(spans[k].limit == spans[k + 1].first) then left else null
      ensures spans == if merged == null then old(spans)
                       else Splice(old(spans), k, k + 2, [Span(old(spans)[k].first, old(spans)[k + 1].limit)])
    {
      if left.end != right.start {
        return null;
      }
      hide Splice;
      ghost var s := Span(spans[k].first, spans[k + 1].limit);
      SpliceTwice(spans, k, s);
      SetEnd(left, right.end, k, s);
      Unlink(right, k + 1);
      merged := left;
    }

    method SetEnd(span: VpSpan, end: nat, ghost k: nat, ghost s: Span)
      requires items.Linked() && Shows(items.nodes, spans) && k < |spans| && span == items.nodes[k]
      requires s.first == spans[k].first && end == s.limit * PGSIZE
      modifies this`spans, span`end
      ensures items.Linked() && Shows(items.nodes, spans) && spans == Splice(old(spans), k, k + 1, [s])
    {
      span.end := end;
      Rebound(span, k, s);
    }

    method SetStart(span: VpSpan, start: nat, ghost k: nat, ghost s: Span)
      requires items.Linked() && Shows(items.nodes, spans) && k < |spans| && span == items.nodes[k]
      requires s.limit == spans[k].limit && start == s.first * PGSIZE
      modifies this`spans, span`start
      ensures items.Linked() && Shows(items.nodes, spans) && spans == Splice(old(spans), k, k + 1, [s])
    {
      span.start := start;
      Rebound(span, k, s);
    }

    /** Extending the span below the range, and merging it with the one above if they now touch. */
    method ExtendPrev(prev: VpSpan, next: VpSpan?, end: nat, ghost i: nat, ghost s: Span)
      requires items.Linked() && Shows(items.nodes, spans) && 0 < i <= |spans| && end == s.limit * PGSIZE
      requires prev == items.nodes[i - 1] && next == Nth(items.nodes, i)
      requires TouchesLeft(spans, i, s) && (i < |spans| ==> s.limit <= spans[i].first)
      modifies this`spans, items, items.nodes
      ensures items.Linked() && Shows(items.nodes, spans) && Subset(items.nodes, old(items.nodes))
      ensures spans == Coalesce(old(spans), i, s)
    {
      ghost var before, t := spans, Span(spans[i - 1].first, s.limit);
      SetEnd(prev, end, i - 1, t);
      if next != null {
        SpliceOver(before, i - 1, t, Span(t.first, before[i].limit));
        var _ := TryMergeSpans(prev, next, i - 1);
      }
    }

    /** MALLOC of the new span, which may fail, and its insertion between its neighbours. */
    method InsertSpan(prev: VpSpan?, next: VpSpan?, start: nat, end: nat, ghost i: nat, ghost s: Span) returns (r: int)
      requires items.Linked() && Shows(items.nodes, spans) && i <= |spans|
      requires next == Nth(items.nodes, i) && prev == if i == 0 then null else items.nodes[i - 1]
      requires start == s.first * PGSIZE && end == s.limit * PGSIZE
      modifies this`spans, this`refusals, items, items.nodes
      ensures items.Linked() && Shows(items.nodes, spans)
      ensures (r == 0 && refusals == old(refusals)) || (r == -1 && mayRefuse && refusals == old(refusals) + 1)
      ensures forall n :: n in items.nodes ==> n in old(items.nodes) || fresh(n)
      ensures spans == if r == 0 then Splice(old(spans), i, i, [s]) else old(spans)
    {
      if mayRefuse {
        if * {
          refusals := refusals + 1;
          return -1;
        }
      }
      hide Splice, With, Chain;
      var span := new VpSpan(start, end);
      ghost var nodes := items.nodes;
      LinkIn(prev, next, span, i);
      ShowsWith(nodes, spans, i, span, s);
      WithSubset(nodes, i, span);
      spans := Splice(spans, i, i, [s]);
      r := 0;
    }

    method LinkIn(prev: VpSpan?, next: VpSpan?, span: VpSpan, ghost i: nat)
      requires items.Linked() && i <= |items.nodes| && span !in items.nodes
      requires next == Nth(items.nodes, i) && prev == if i == 0 then null else items.nodes[i - 1]
      modifies items, items.nodes`next, items.nodes`prev, span`next, span`prev
      ensures items.Linked() && items.nodes == With(old(items.nodes), i, span)
    {
      if prev != null {
        items.InsertAfter(prev, span, i - 1);
      } else if next != null {
        items.InsertBefore(next, span, i);
      } else {
        items.InsertHead(span);
      }
    }

    /**
     `freelist_free`: the range joins the free set; the list stays canonical. It can fail only when
     a new span must be allocated, that is when neither neighbouring page is free.
     */
    method Free(p: nat, npages: nat) returns (r: int)
      requires Valid()
      requires p % PGSIZE == 0 && npages > 0
      requires FreePages() !! PageRange(p / PGSIZE, npages)
      modifies Repr()
      ensures Valid() && fresh(Repr() - old(Repr()))
      ensures (r == 0 && refusals == old(refusals)) || (r == -1 && mayRefuse && refusals == old(refusals) + 1)
      ensures r == 0 ==> FreePages() == old(FreePages()) + PageRange(p / PGSIZE, npages)
      ensures r == -1 ==> FreePages() == old(FreePages())
      ensures r == -1 ==> (p > 0 ==> p / PGSIZE - 1 !in FreePages()) && p / PGSIZE + npages !in FreePages()
    {
      hide Pages, Canonical, InsertsAt, Coalesce, PageRange, TouchesLeft, TouchesRight, Chain, Shows;
      var end := p + npages * PGSIZE;
      var prev, next: VpSpan?;
      ghost var i: nat;
      ghost var s := RangeOf(p, npages);
      prev, next, i := FindGap(end, s.limit);
      GapSeparates(spans, i, s);
      CoalescePages(spans, i, s);
      r := FreeAt(prev, next, p, end, i, s);
      if r == -1 { NoNeighbour(spans, i, s); }
    }

    /** The three ways `freelist_free` adds a range at the position it found. */
    method FreeAt(prev: VpSpan?, next: VpSpan?, start: nat, end: nat, ghost i: nat, ghost s: Span) returns (r: int)
      requires Valid() && InsertsAt(spans, i, s) && Canonical(Coalesce(spans, i, s))
      requires next == Nth(items.nodes, i) && prev == if i == 0 then null else items.nodes[i - 1]
      requires start == s.first * PGSIZE && end == s.limit * PGSIZE
      modifies this`spans, this`refusals, items, items.nodes
      ensures Valid()
      ensures forall n :: n in items.nodes ==> n in old(items.nodes) || fresh(n)
      ensures (r == 0 && refusals == old(refusals)) || (r == -1 && mayRefuse && refusals == old(refusals) + 1)
      ensures spans == if r == 0 then Coalesce(old(spans), i, s) else old(spans)
      ensures r == -1 ==> !TouchesLeft(spans, i, s) && !TouchesRight(spans, i, s)
    {
      hide Canonical, Pages, Splice;
      if prev != null && prev.end == start {
        ExtendPrev(prev, next, end, i, s);
        return 0;
      }
      if next != null && next.start == end {
        SetStart(next, start, i, Span(s.first, spans[i].limit));
        if prev != null {
          var merged := TryMergeSpans(prev, next, i - 1);
          assert merged == null;
        }
        return 0;
      }
      r := InsertSpan(prev, next, start, end, i, s);
    }

    /** `freelist_reset` */
    method Reset()
      requires Valid()
      modifies Repr()
      ensures Valid() && FreePages() == {} && Repr() <= old(Repr())
    {
      items.RemoveAll();
      nallocs, spans := 0, [];
    }
  }

  /** Lists that hold the same pages, however they came about, are the same list. */
  lemma SamePagesSameList(a: VpFreelist, b: VpFreelist)
    requires a.Valid() && b.Valid() && a.FreePages() == b.FreePages()
    ensures a.spans == b.spans && |a.items.nodes| == |b.items.nodes|
    ensures forall i :: 0 <= i < |a.items.nodes| ==>
      a.items.nodes[i].start == b.items.nodes[i].start && a.items.nodes[i].end == b.items.nodes[i].end
  {
    CanonicalUnique(a.spans, b.spans);
  }

  ghost predicate Disjoint(spans: seq<Span>, s: Span) {
    s.first < s.limit && Pages(spans) !! PageRange(s.first, s.limit - s.first)
  }

  /** Where `freelist_free` puts a range: `FreeAt` is called with exactly such a position. */
  lemma GapExists(spans: seq<Span>, s: Span) returns (i: nat)
    requires Canonical(spans) && Disjoint(spans, s)
    ensures InsertsAt(spans, i, s)
  {
    hide Pages;
    i := 0;
    while i < |spans| && spans[i].first < s.limit
      invariant i <= |spans|
      invariant forall k :: 0 <= k < i ==> spans[k].first < s.limit
    {
      i := i + 1;
    }
    GapSeparates(spans, i, s);
  }

  /** The list after one successful `freelist_free`. */
  ghost function Insert(spans: seq<Span>, s: Span): (r: seq<Span>)
    requires Canonical(spans) && Disjoint(spans, s)
    ensures Canonical(r) && Pages(r) == Pages(spans) + PageRange(s.first, s.limit - s.first)
  {
    assert exists i: nat :: InsertsAt(spans, i, s) by { var i := GapExists(spans, s); }
    var i: nat :| InsertsAt(spans, i, s);
    CoalescePages(spans, i, s);
    Coalesce(spans, i, s)
  }

  /** Every range is disjoint from what is free when its turn comes. */
  ghost predicate Insertable(spans: seq<Span>, ranges: seq<Span>)
    requires Canonical(spans)
    decreases |ranges|
  {
    ranges != [] ==> Disjoint(spans, ranges[0]) && Insertable(Insert(spans, ranges[0]), ranges[1..])
  }

  ghost function InsertAll(spans: seq<Span>, ranges: seq<Span>): (r: seq<Span>)
    requires Canonical(spans) && Insertable(spans, ranges)
    ensures Canonical(r)
    decreases |ranges|
  {
    if ranges == [] then spans else InsertAll(Insert(spans, ranges[0]), ranges[1..])
  }

  lemma InsertMember(spans: seq<Span>, s: Span, v: nat)
    requires Canonical(spans) && Disjoint(spans, s)
    ensures v in Pages(Insert(spans, s)) <==> v in Pages(spans) || s.Has(v)
  {
    hide Insert, Canonical, Pages;
  }

  lemma {:induction false} InsertAllPages(spans: seq<Span>, ranges: seq<Span>, v: nat)
    requires Canonical(spans) && Insertable(spans, ranges)
    ensures v in Pages(InsertAll(spans, ranges)) <==> v in Pages(spans) || InSome(ranges, v)
    decreases |ranges|
  {
    assert ranges == [] ==> !InSome(ranges, v);
    hide Insert, Canonical, InSome, Pages;
    if ranges != [] {
      var s, rest := ranges[0], ranges[1..];
      InsertMember(spans, s, v);
      InsertAllPages(Insert(spans, s), rest, v);
      InSomeCons(ranges, v);
    }
  }

  lemma InSomeCons(ranges: seq<Span>, v: nat)
    requires ranges != []
    ensures InSome(ranges, v) <==> ranges[0].Has(v) || InSome(ranges[1..], v)
  {
    if InSome(ranges, v) && !ranges[0].Has(v) {
      var i :| 0 <= i < |ranges| && ranges[i].Has(v);
      assert ranges[1..][i - 1].Has(v);
    }
    if InSome(ranges[1..], v) {
      var i :| 0 <= i < |ranges[1..]| && ranges[1..][i].Has(v);
      assert ranges[i + 1].Has(v);
    }
  }

  /** Freeing the same ranges in any order yields the same list. */
  lemma OrderIndependent(spans: seq<Span>, a: seq<Span>, b: seq<Span>)
    requires Canonical(spans) && Insertable(spans, a) && Insertable(spans, b)
    requires forall s :: s in a <==> s in b
    ensures InsertAll(spans, a) == InsertAll(spans, b)
  {
    hide InsertAll, Insertable, Pages, Canonical, InSome;
    var x, y := InsertAll(spans, a), InsertAll(spans, b);
    forall v: nat ensures v in Pages(x) <==> v in Pages(y) {
      InsertAllPages(spans, a, v);
      InsertAllPages(spans, b, v);
      SameCover(a, b, v);
      SameCover(b, a, v);
    }
    CanonicalUnique(x, y);
  }

  lemma SameCover(a: seq<Span>, b: seq<Span>, v: nat)
    requires forall s :: s in a ==> s in b
    ensures InSome(a, v) ==> InSome(b, v)
  {
    if InSome(a, v) {
      var i :| 0 <= i < |a| && a[i].Has(v);
      assert a[i] in b;
      var j :| 0 <= j < |b| && b[j] == a[i];
      assert b[j].Has(v);
    }
  }
}

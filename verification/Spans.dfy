/**
 The contents of the virtual page allocator as values: sequences of page spans and the sets of
 pages they stand for. A canonical sequence is ordered, disjoint and fully coalesced, and is
 determined by its page set.
 */
module Spans {
  import opened PageMath

  /** The pages [first, limit). */
  datatype Span = Span(first: nat, limit: nat) {
    predicate Has(v: int) { first <= v < limit }
  }

  ghost predicate InSome(spans: seq<Span>, v: nat) {
    exists i :: 0 <= i < |spans| && spans[i].Has(v)
  }

  /** Non-empty, strictly ordered, disjoint and non-adjacent spans. */
  ghost predicate Canonical(spans: seq<Span>) {
    && (forall i :: 0 <= i < |spans| ==> spans[i].first < spans[i].limit)
    && (forall i, j :: 0 <= i < j < |spans| ==> spans[i].limit < spans[j].first)
  }

  /** The pages covered by the spans. */
  ghost function Pages(spans: seq<Span>): (r: set<nat>)
    ensures forall v :: v in r <==> InSome(spans, v)
  {
    if spans == [] then {}
    else
      var init, last := spans[..|spans| - 1], spans[|spans| - 1];
      var r := Pages(init) + if last.first < last.limit then PageRange(last.first, last.limit - last.first) else {};
      assert forall v :: v in r <==> InSome(spans, v) by {
        forall v: nat ensures v in r <==> InSome(spans, v) { PagesStep(spans, v); }
      }
      r
  }

  lemma PagesStep(spans: seq<Span>, v: nat)
    requires spans != []
    ensures InSome(spans, v) <==> (InSome(spans[..|spans| - 1], v) || spans[|spans| - 1].Has(v))
  {
    var init := spans[..|spans| - 1];
    if InSome(init, v) {
      var i :| 0 <= i < |init| && init[i].Has(v);
      assert spans[i].Has(v);
    }
    if InSome(spans, v) {
      var i :| 0 <= i < |spans| && spans[i].Has(v);
      if i < |init| { assert init[i].Has(v); }
    }
  }

  lemma Apart(spans: seq<Span>, i: nat, k: nat)
    requires Canonical(spans) && i < |spans| && k < |spans|
    ensures i < k ==> spans[i].limit < spans[k].first
    ensures k < i ==> spans[k].limit < spans[i].first
  {}

  /** Page v is covered by span i and by no other. */
  lemma Owner(spans: seq<Span>, i: nat, v: nat)
    requires Canonical(spans) && i < |spans| && spans[i].Has(v)
    ensures v in Pages(spans)
    ensures forall k :: 0 <= k < |spans| && spans[k].Has(v) ==> k == i
  {
    forall k | 0 <= k < |spans| && spans[k].Has(v) ensures k == i {
      Apart(spans, i, k);
    }
  }

  /** n consecutive pages starting at page q, at least one, are all in the set. */
  ghost predicate RunAt(free: set<nat>, q: nat, n: nat) {
    q in free && PageRange(q, n) <= free
  }

  /** A run of free pages never crosses from one canonical span into another. */
  lemma {:induction false} RunInOneSpan(spans: seq<Span>, q: nat, n: nat, i: nat)
    requires Canonical(spans) && RunAt(Pages(spans), q, n)
    requires i < |spans| && spans[i].Has(q)
    ensures q + n <= spans[i].limit
    decreases n
  {
    if n > 1 {
      assert PageRange(q, n - 1) <= PageRange(q, n);
      RunInOneSpan(spans, q, n - 1, i);
      assert q + n - 1 in PageRange(q, n);
      NextPage(spans, i, q + n - 1);
    }
  }

  /** If the page before a free page lies in span i, so does that page. */
  lemma NextPage(spans: seq<Span>, i: nat, v: nat)
    requires Canonical(spans) && i < |spans| && spans[i].Has(v - 1) && v in Pages(spans)
    ensures spans[i].Has(v)
  {
    assert InSome(spans, v);
    var k :| 0 <= k < |spans| && spans[k].Has(v);
    Apart(spans, i, k);
  }

  /** No span is large enough, so no run exists. */
  lemma NoLargeSpanNoRun(spans: seq<Span>, n: nat)
    requires Canonical(spans)
    requires forall i :: 0 <= i < |spans| ==> spans[i].limit - spans[i].first < n
    ensures forall q: nat :: !RunAt(Pages(spans), q, n)
  {
    forall q: nat | RunAt(Pages(spans), q, n) ensures false {
      var i :| 0 <= i < |spans| && spans[i].Has(q);
      RunInOneSpan(spans, q, n, i);
    }
  }

  /** The spans from `lo` up to `hi` replaced by the spans of `mid`. */
  function Splice(spans: seq<Span>, lo: nat, hi: nat, mid: seq<Span>): (r: seq<Span>)
    requires lo <= hi <= |spans|
    ensures |r| == |spans| - (hi - lo) + |mid|
    ensures forall k :: 0 <= k < lo ==> r[k] == spans[k]
    ensures forall k :: lo <= k < lo + |mid| ==> r[k] == mid[k - lo]
    ensures forall k :: lo + |mid| <= k < |r| ==> r[k] == spans[k - lo - |mid| + hi]
  {
    spans[..lo] + mid + spans[hi..]
  }

  lemma SpliceCanonical(spans: seq<Span>, lo: nat, hi: nat, mid: seq<Span>)
    requires Canonical(spans) && lo <= hi <= |spans| && |mid| <= 1
    requires |mid| == 1 ==> mid[0].first < mid[0].limit
    requires |mid| == 1 ==> forall k :: 0 <= k < lo ==> spans[k].limit < mid[0].first
    requires |mid| == 1 ==> forall k :: hi <= k < |spans| ==> mid[0].limit < spans[k].first
    ensures Canonical(Splice(spans, lo, hi, mid))
  {
    var r := Splice(spans, lo, hi, mid);
    forall i, j | 0 <= i < j < |r| ensures r[i].limit < r[j].first { SplicePair(spans, lo, hi, mid, i, j); }
    forall i | 0 <= i < |r| ensures r[i].first < r[i].limit {
      assert lo <= i < lo + |mid| || r[i] == spans[if i < lo then i else i - lo - |mid| + hi];
    }
  }

  lemma SplicePair(spans: seq<Span>, lo: nat, hi: nat, mid: seq<Span>, i: nat, j: nat)
    requires Canonical(spans) && lo <= hi <= |spans| && |mid| <= 1
    requires |mid| == 1 ==> forall k :: 0 <= k < lo ==> spans[k].limit < mid[0].first
    requires |mid| == 1 ==> forall k :: hi <= k < |spans| ==> mid[0].limit < spans[k].first
    requires i < j < |Splice(spans, lo, hi, mid)|
    ensures var r := Splice(spans, lo, hi, mid); r[i].limit < r[j].first
  {
    hide Canonical, Splice;
    var r := Splice(spans, lo, hi, mid);
    var jj := if j < lo then j else j - lo - |mid| + hi;
    if i < lo {
      if !(lo <= j < lo + |mid|) { Apart(spans, i, jj); }
    } else if i < lo + |mid| {
      assert r[i] == mid[0];
    } else {
      Apart(spans, i - lo - |mid| + hi, jj);
    }
  }

  /** Page v is covered by a span outside [lo, hi). */
  ghost predicate InOther(spans: seq<Span>, lo: nat, hi: nat, v: nat) {
    exists k :: 0 <= k < |spans| && !(lo <= k < hi) && spans[k].Has(v)
  }

  lemma SplicePage(spans: seq<Span>, lo: nat, hi: nat, mid: seq<Span>, v: nat)
    requires lo <= hi <= |spans| && |mid| <= 1
    ensures InSome(Splice(spans, lo, hi, mid), v) <==> InOther(spans, lo, hi, v) || (|mid| == 1 && mid[0].Has(v))
  {
    var r := Splice(spans, lo, hi, mid);
    if InSome(r, v) {
      var k :| 0 <= k < |r| && r[k].Has(v);
      if k < lo {
        assert spans[k].Has(v);
      } else if k >= lo + |mid| {
        assert spans[k - lo - |mid| + hi].Has(v);
      }
    }
    if InOther(spans, lo, hi, v) {
      var k :| 0 <= k < |spans| && !(lo <= k < hi) && spans[k].Has(v);
      assert r[if k < lo then k else k - hi + lo + |mid|].Has(v);
    }
    if |mid| == 1 && mid[0].Has(v) { assert r[lo].Has(v); }
  }

  /** What is left of one span after its first n pages are handed out. */
  function Remainder(s: Span, n: nat): (r: seq<Span>)
    ensures |r| <= 1
  {
    if s.first + n == s.limit then [] else [Span(s.first + n, s.limit)]
  }

  /** What is left of the list after the first n pages of span i are handed out. */
  function TakeFrom(spans: seq<Span>, i: nat, n: nat): seq<Span>
    requires i < |spans|
  {
    Splice(spans, i, i + 1, Remainder(spans[i], n))
  }

  lemma TakeFromPage(spans: seq<Span>, i: nat, n: nat, v: nat)
    requires Canonical(spans) && i < |spans| && n <= spans[i].limit - spans[i].first
    ensures v in Pages(TakeFrom(spans, i, n)) <==> v in Pages(spans) && !(spans[i].first <= v < spans[i].first + n)
  {
    SplicePage(spans, i, i + 1, Remainder(spans[i], n), v);
    if spans[i].Has(v) { Owner(spans, i, v); }
  }

  lemma TakeFromCanonical(spans: seq<Span>, i: nat, n: nat)
    requires Canonical(spans) && i < |spans| && n <= spans[i].limit - spans[i].first
    ensures Canonical(TakeFrom(spans, i, n))
  {
    SpliceCanonical(spans, i, i + 1, Remainder(spans[i], n));
  }

  lemma TakeFromPages(spans: seq<Span>, i: nat, n: nat)
    requires Canonical(spans) && i < |spans| && n <= spans[i].limit - spans[i].first
    ensures Canonical(TakeFrom(spans, i, n))
    ensures Pages(TakeFrom(spans, i, n)) == Pages(spans) - PageRange(spans[i].first, n)
  {
    TakeFromCanonical(spans, i, n);
    TakeFromMembers(spans, i, n);
    SetMinus(Pages(TakeFrom(spans, i, n)), Pages(spans), spans[i].first, n);
  }

  lemma TakeFromMembers(spans: seq<Span>, i: nat, n: nat)
    requires Canonical(spans) && i < |spans| && n <= spans[i].limit - spans[i].first
    ensures forall v: nat :: v in Pages(TakeFrom(spans, i, n))
                        <==> v in Pages(spans) && !(spans[i].first <= v < spans[i].first + n)
  {
    forall v: nat
      ensures v in Pages(TakeFrom(spans, i, n)) <==> v in Pages(spans) && !(spans[i].first <= v < spans[i].first + n)
    {
      TakeFromPage(spans, i, n, v);
    }
  }

  lemma SetMinus(after: set<nat>, before: set<nat>, first: nat, n: nat)
    requires forall v: nat :: v in after <==> v in before && !(first <= v < first + n)
    ensures after == before - PageRange(first, n)
  {}

  /** The first span that is large enough starts the lowest run of n free pages. */
  lemma FirstFitIsLowest(spans: seq<Span>, i: nat, n: nat)
    requires Canonical(spans) && i < |spans| && n <= spans[i].limit - spans[i].first
    requires forall k :: 0 <= k < i ==> spans[k].limit - spans[k].first < n
    ensures RunAt(Pages(spans), spans[i].first, n)
    ensures forall q: nat :: q < spans[i].first ==> !RunAt(Pages(spans), q, n)
  {
    var s := spans[i].first;
    forall v: nat | s <= v < s + n || v == s ensures v in Pages(spans) {
      Owner(spans, i, v);
    }
    forall q: nat | q < s && RunAt(Pages(spans), q, n) ensures false {
      var k :| 0 <= k < |spans| && spans[k].Has(q);
      Apart(spans, i, k);
      RunInOneSpan(spans, q, n, k);
    }
  }

  /** Position i separates the spans below s from those above it. */
  ghost predicate InsertsAt(spans: seq<Span>, i: nat, s: Span) {
    && i <= |spans|
    && (forall k :: 0 <= k < i ==> spans[k].limit <= s.first)
    && (forall k :: i <= k < |spans| ==> s.limit <= spans[k].first)
  }

  /** A span of the list and a range disjoint from the list lie entirely to one side of each other. */
  lemma DisjointFromSpan(spans: seq<Span>, s: Span, k: nat)
    requires Canonical(spans) && s.first < s.limit && k < |spans|
    requires Pages(spans) !! PageRange(s.first, s.limit - s.first)
    ensures spans[k].limit <= s.first || s.limit <= spans[k].first
  {
    var v := if spans[k].first >= s.first then spans[k].first else s.first;
    if spans[k].Has(v) { Owner(spans, k, v); }
    assert s.Has(v) ==> v in PageRange(s.first, s.limit - s.first);
  }

  ghost predicate TouchesLeft(spans: seq<Span>, i: nat, s: Span) {
    0 < i <= |spans| && spans[i - 1].limit == s.first
  }

  ghost predicate TouchesRight(spans: seq<Span>, i: nat, s: Span) {
    i < |spans| && spans[i].first == s.limit
  }

  /** The range s merged with the neighbours it touches at position i. */
  ghost function Merged(spans: seq<Span>, i: nat, s: Span): Span {
    Span(if TouchesLeft(spans, i, s) then spans[i - 1].first else s.first,
         if TouchesRight(spans, i, s) then spans[i].limit else s.limit)
  }

  /** The list with a disjoint range added at position i, merged with whatever it touches. */
  ghost function Coalesce(spans: seq<Span>, i: nat, s: Span): seq<Span>
    requires i <= |spans|
  {
    Splice(spans, if TouchesLeft(spans, i, s) then i - 1 else i, if TouchesRight(spans, i, s) then i + 1 else i,
           [Merged(spans, i, s)])
  }

  lemma CoalesceCanonical(spans: seq<Span>, i: nat, s: Span)
    requires Canonical(spans) && s.first < s.limit && InsertsAt(spans, i, s)
    ensures Canonical(Coalesce(spans, i, s))
  {
    var lo := if TouchesLeft(spans, i, s) then i - 1 else i;
    var hi := if TouchesRight(spans, i, s) then i + 1 else i;
    var m := Merged(spans, i, s);
    forall k | 0 <= k < lo ensures spans[k].limit < m.first {
      if k < i - 1 { assert spans[k].limit < spans[i - 1].first; }
    }
    forall k | hi <= k < |spans| ensures m.limit < spans[k].first {
      if k > i { assert spans[i].limit < spans[k].first; }
    }
    SpliceCanonical(spans, lo, hi, [m]);
  }

  lemma CoalescePage(spans: seq<Span>, i: nat, s: Span, v: nat)
    requires Canonical(spans) && s.first < s.limit && InsertsAt(spans, i, s)
    ensures InSome(Coalesce(spans, i, s), v) <==> InSome(spans, v) || s.Has(v)
  {
    var lo := if TouchesLeft(spans, i, s) then i - 1 else i;
    var hi := if TouchesRight(spans, i, s) then i + 1 else i;
    SplicePage(spans, lo, hi, [Merged(spans, i, s)], v);
    if InSome(spans, v) && !InOther(spans, lo, hi, v) {
      var k :| 0 <= k < |spans| && spans[k].Has(v);
      assert Merged(spans, i, s).Has(v);
    }
    if Merged(spans, i, s).Has(v) && !s.Has(v) {
      assert if v < s.first then spans[i - 1].Has(v) else spans[i].Has(v);
    }
  }

  lemma CoalescePages(spans: seq<Span>, i: nat, s: Span)
    requires Canonical(spans) && s.first < s.limit && InsertsAt(spans, i, s)
    ensures Canonical(Coalesce(spans, i, s))
    ensures Pages(Coalesce(spans, i, s)) == Pages(spans) + PageRange(s.first, s.limit - s.first)
  {
    CoalesceCanonical(spans, i, s);
    forall v: nat ensures v in Pages(Coalesce(spans, i, s)) <==> v in Pages(spans) || s.Has(v) {
      CoalescePage(spans, i, s, v);
    }
    SetPlus(Pages(Coalesce(spans, i, s)), Pages(spans), s);
  }

  lemma SetPlus(after: set<nat>, before: set<nat>, s: Span)
    requires s.first <= s.limit && forall v: nat :: v in after <==> v in before || s.Has(v)
    ensures after == before + PageRange(s.first, s.limit - s.first)
  {}

  /** A canonical list is determined by the set of pages it covers. */
  lemma {:induction false} CanonicalUnique(a: seq<Span>, b: seq<Span>)
    requires Canonical(a) && Canonical(b) && Pages(a) == Pages(b)
    ensures a == b
    decreases |a|
  {
    NonEmpty(a);
    NonEmpty(b);
    if a != [] {
      SameLast(a, b);
      CanonicalUnique(a[..|a| - 1], b[..|b| - 1]);
      SnocUnique(a, b);
    }
  }

  lemma NonEmpty(a: seq<Span>)
    requires Canonical(a)
    ensures a == [] <==> Pages(a) == {}
  {
    if a != [] { Owner(a, 0, a[0].first); }
  }

  lemma SnocUnique(a: seq<Span>, b: seq<Span>)
    requires a != [] && b != [] && a[..|a| - 1] == b[..|b| - 1] && a[|a| - 1] == b[|b| - 1]
    ensures a == b
  {
    assert a == a[..|a| - 1] + [a[|a| - 1]];
    assert b == b[..|b| - 1] + [b[|b| - 1]];
  }

  lemma SameLast(a: seq<Span>, b: seq<Span>)
    requires Canonical(a) && Canonical(b) && Pages(a) == Pages(b) && a != [] && b != []
    ensures a[|a| - 1] == b[|b| - 1]
    ensures Canonical(a[..|a| - 1]) && Canonical(b[..|b| - 1])
    ensures Pages(a[..|a| - 1]) == Pages(b[..|b| - 1])
  {
    hide Canonical, Pages, PageRange;
    LastSpanInside(a, b);
    LastSpanInside(b, a);
    InitPages(a);
    InitPages(b);
  }

  /** With the same pages, the last span of one list lies inside the last span of the other. */
  lemma LastSpanInside(a: seq<Span>, b: seq<Span>)
    requires Canonical(a) && Canonical(b) && Pages(a) == Pages(b) && a != [] && b != []
    ensures b[|b| - 1].first <= a[|a| - 1].first && a[|a| - 1].limit <= b[|b| - 1].limit
  {
    var i := SpanInside(a, |a| - 1, b);
    Apart(b, i, |b| - 1);
    LastPageIn(a, b, b[|b| - 1].first);
  }

  /** Each span of one list lies inside some span of the other. */
  lemma SpanInside(a: seq<Span>, k: nat, b: seq<Span>) returns (i: nat)
    requires Canonical(a) && Canonical(b) && Pages(a) == Pages(b) && k < |a|
    ensures i < |b| && b[i].first <= a[k].first && a[k].limit <= b[i].limit
  {
    var s := a[k];
    forall v: nat | s.Has(v) ensures v in Pages(a) { Owner(a, k, v); }
    assert RunAt(Pages(b), s.first, s.limit - s.first);
    assert InSome(b, s.first);
    i :| 0 <= i < |b| && b[i].Has(s.first);
    RunInOneSpan(b, s.first, s.limit - s.first, i);
  }

  lemma LastPageIn(a: seq<Span>, b: seq<Span>, v: nat)
    requires Canonical(a) && Canonical(b) && Pages(a) == Pages(b) && a != [] && b != []
    requires v == b[|b| - 1].first
    ensures v < a[|a| - 1].limit
  {
    Owner(b, |b| - 1, v);
    assert InSome(a, v);
    var k :| 0 <= k < |a| && a[k].Has(v);
    Apart(a, k, |a| - 1);
  }

  lemma InitPages(a: seq<Span>)
    requires Canonical(a) && a != []
    ensures Canonical(a[..|a| - 1])
    ensures var s := a[|a| - 1]; Pages(a[..|a| - 1]) == Pages(a) - PageRange(s.first, s.limit - s.first)
  {
    var i := |a| - 1;
    hide Pages, PageRange;
    TakeFromPages(a, i, a[i].limit - a[i].first);
    hide Canonical;
    assert TakeFrom(a, i, a[i].limit - a[i].first) == a[..i];
  }
}

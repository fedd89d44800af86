/**
 The doubly linked list of free spans. `prev` plays the part of `le_prev`, the address of the
 pointer that points at this element: either the list head or the `next` field of a span.
 */
module SpanList {

  class VpSpan {
    var start: nat
    var end: nat
    var next: VpSpan?
    var prev: BackLink

    constructor (start: nat, end: nat)
      ensures this.start == start && this.end == end
    {
      this.start, this.end, this.next, this.prev := start, end, null, AtHead;
    }
  }

  datatype BackLink = AtHead | NextOf(span: VpSpan)

  function Nth(nodes: seq<VpSpan>, i: nat): VpSpan? {
    if i < |nodes| then nodes[i] else null
  }

  function LinkTo(nodes: seq<VpSpan>, i: nat): BackLink
    requires i <= |nodes|
  {
    if i == 0 then AtHead else NextOf(nodes[i - 1])
  }

  ghost predicate Distinct(nodes: seq<VpSpan>) {
    forall i, j :: 0 <= i < j < |nodes| ==> nodes[i] != nodes[j]
  }

  /** Forward and back links agree with each other and with the sequence of elements. */
  ghost predicate Chain(nodes: seq<VpSpan>)
    reads nodes
  {
    && Distinct(nodes)
    && (forall i {:trigger nodes[i].next} :: 0 <= i < |nodes| ==> nodes[i].next == Nth(nodes, i + 1))
    && (forall i {:trigger nodes[i].prev} :: 0 <= i < |nodes| ==> nodes[i].prev == LinkTo(nodes, i))
  }

  /** The sequence without its element k. */
  function Without(nodes: seq<VpSpan>, k: nat): (r: seq<VpSpan>)
    requires k < |nodes|
    ensures |r| == |nodes| - 1
    ensures forall i :: 0 <= i < k ==> r[i] == nodes[i]
    ensures forall i :: k <= i < |r| ==> r[i] == nodes[i + 1]
  {
    nodes[..k] + nodes[k + 1..]
  }

  /** The sequence with `elm` inserted at position k. */
  function With(nodes: seq<VpSpan>, k: nat, elm: VpSpan): (r: seq<VpSpan>)
    requires k <= |nodes|
    ensures |r| == |nodes| + 1 && r[k] == elm
    ensures forall i :: 0 <= i < k ==> r[i] == nodes[i]
    ensures forall i :: k < i < |r| ==> r[i] == nodes[i - 1]
  {
    nodes[..k] + [elm] + nodes[k..]
  }

  /** Unlinking element k leaves a chain of the others. */
  lemma WithoutChain(nodes: seq<VpSpan>, k: nat)
    requires k < |nodes| && Distinct(nodes)
    requires forall i {:trigger nodes[i].next} :: 0 <= i < |nodes| ==> nodes[i].next == if i == k - 1 then Nth(nodes, k + 1) else Nth(nodes, i + 1)
    requires forall i {:trigger nodes[i].prev} :: 0 <= i < |nodes| ==> nodes[i].prev == if i == k + 1 then LinkTo(nodes, k) else LinkTo(nodes, i)
    ensures Chain(Without(nodes, k))
  {
    var r := Without(nodes, k);
    forall i | 0 <= i < |r| ensures r[i].next == Nth(r, i + 1) && r[i].prev == LinkTo(r, i) {
      assert r[i] == nodes[if i < k then i else i + 1];
    }
    forall i, j | 0 <= i < j < |r| ensures r[i] != r[j] {
      assert nodes[if i < k then i else i + 1] != nodes[if j < k then j else j + 1];
    }
  }

  /** Linking `elm` in at position k makes a chain of the extended sequence. */
  lemma WithChain(nodes: seq<VpSpan>, k: nat, elm: VpSpan)
    requires k <= |nodes| && Distinct(nodes) && elm !in nodes
    requires forall i {:trigger nodes[i].next} :: 0 <= i < |nodes| ==> nodes[i].next == if i + 1 == k then elm else Nth(nodes, i + 1)
    requires forall i {:trigger nodes[i].prev} :: 0 <= i < |nodes| ==> nodes[i].prev == if i == k then NextOf(elm) else LinkTo(nodes, i)
    requires elm.next == Nth(nodes, k) && elm.prev == LinkTo(nodes, k)
    ensures Chain(With(nodes, k, elm))
  {
    var r := With(nodes, k, elm);
    forall i | 0 <= i < |r| ensures r[i].next == Nth(r, i + 1) && r[i].prev == LinkTo(r, i) {
      if i != k { assert r[i] == nodes[if i < k then i else i - 1]; }
    }
    forall i, j | 0 <= i < j < |r| ensures r[i] != r[j] {
      if i != k && j != k {
        assert nodes[if i < k then i else i - 1] != nodes[if j < k then j else j - 1];
      }
    }
  }

  class SpanListHead {
    var first: VpSpan?
    ghost var nodes: seq<VpSpan>

    ghost predicate Linked()
      reads this, nodes
    {
      first == Nth(nodes, 0) && Chain(nodes)
    }

    constructor ()
      ensures Linked() && nodes == []
    {
      first, nodes := null, [];
    }

    /** LIST_REMOVE */
    method Remove(elm: VpSpan, ghost k: nat)
      requires Linked() && k < |nodes| && nodes[k] == elm
      modifies this, nodes`next, nodes`prev
      ensures Linked() && nodes == Without(old(nodes), k)
    {
      if elm.next != null {
        elm.next.prev := elm.prev;
      }
      match elm.prev {
        case AtHead => first := elm.next;
        case NextOf(s) => s.next := elm.next;
      }
      WithoutChain(nodes, k);
      nodes := Without(nodes, k);
    }

    /** LIST_INSERT_AFTER */
    method InsertAfter(listelm: VpSpan, elm: VpSpan, ghost k: nat)
      requires Linked() && k < |nodes| && nodes[k] == listelm && elm !in nodes
      modifies this, nodes`next, nodes`prev, elm`next, elm`prev
      ensures Linked() && nodes == With(old(nodes), k + 1, elm)
    {
      elm.next := listelm.next;
      if elm.next != null {
        listelm.next.prev := NextOf(elm);
      }
      listelm.next := elm;
      elm.prev := NextOf(listelm);
      WithChain(nodes, k + 1, elm);
      nodes := With(nodes, k + 1, elm);
    }

    /** LIST_INSERT_BEFORE */
    method InsertBefore(listelm: VpSpan, elm: VpSpan, ghost k: nat)
      requires Linked() && k < |nodes| && nodes[k] == listelm && elm !in nodes
      modifies this, nodes`next, nodes`prev, elm`next, elm`prev
      ensures Linked() && nodes == With(old(nodes), k, elm)
    {
      elm.prev := listelm.prev;
      elm.next := listelm;
      match listelm.prev {
        case AtHead => first := elm;
        case NextOf(s) => s.next := elm;
      }
      listelm.prev := NextOf(elm);
      WithChain(nodes, k, elm);
      nodes := With(nodes, k, elm);
    }

    /** LIST_INSERT_HEAD */
    method InsertHead(elm: VpSpan)
      requires Linked() && elm !in nodes
      modifies this, nodes`next, nodes`prev, elm`next, elm`prev
      ensures Linked() && nodes == With(old(nodes), 0, elm)
    {
      elm.next := first;
      if elm.next != null {
        first.prev := NextOf(elm);
      }
      first := elm;
      elm.prev := AtHead;
      WithChain(nodes, 0, elm);
      nodes := With(nodes, 0, elm);
    }

    /** The traversal of `freelist_reset`: LIST_FOREACH_SAFE, removing each element. */
    method RemoveAll()
      requires Linked()
      modifies this, nodes`next, nodes`prev
      ensures Linked() && nodes == []
    {
      var span := first;
      while span != null
        invariant Linked() && span == Nth(nodes, 0)
        invariant forall i :: 0 <= i < |nodes| ==> nodes[i] in old(nodes)
        decreases |nodes|
      {
        var tmp := span.next;
        Remove(span, 0);
        span := tmp;
      }
    }
  }
}

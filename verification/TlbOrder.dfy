/**
 The order of stores and flushes against a processor that may cache a translation between any two
 of them (section 4.10.4 of Intel SDM Volume 3A). The page table is a flat map here.
 */
module TlbOrder {
  import opened Options
  import opened PageTree

  datatype Micro =
    /** the entry of a page is overwritten */
    | Store(vpn: nat, entry: Option<Mapping>)
    /** the entry that covers these pages is zeroed */
    | Clear(pages: set<nat>)
    | Flush(vpn: nat)
    /** the processor caches the translation of a page, if there is one */
    | Fill(vpn: nat)

  datatype Mmu = Mmu(flat: map<nat, Mapping>, tlb: map<nat, Mapping>) {
    function Do(op: Micro): Mmu {
      match op
      case Store(v, e) => this.(flat := Stored(flat, v, e))
      case Clear(pages) => this.(flat := flat - pages)
      case Flush(v) => this.(tlb := tlb - {v})
      case Fill(v) => if v in flat then this.(tlb := tlb[v := flat[v]]) else this
    }

    function DoAll(ops: seq<Micro>): Mmu
      decreases |ops|
    {
      if ops == [] then this else Do(ops[0]).DoAll(ops[1..])
    }

    /** Every cached translation, except of the given pages, is the one in the page table. */
    ghost predicate CoherentExcept(pages: set<nat>) {
      forall v :: v in tlb && v !in pages ==> v in flat && tlb[v] == flat[v]
    }
  }

  function Stored(flat: map<nat, Mapping>, v: nat, e: Option<Mapping>): map<nat, Mapping> {
    match e case Some(m) => flat[v := m] case None => flat - {v}
  }

  /** A processor's trace without the fills: what the program did. */
  function Code(trace: seq<Micro>): seq<Micro> {
    if trace == [] then []
    else (if trace[0].Fill? then [] else [trace[0]]) + Code(trace[1..])
  }

  /** The pages whose valid entry was changed and that were not flushed since. */
  function Pending(flat: map<nat, Mapping>, code: seq<Micro>, pages: set<nat>): set<nat>
    decreases |code|
  {
    if code == [] then pages
    else match code[0] {
      case Store(v, e) =>
        Pending(Stored(flat, v, e), code[1..], if v in flat && e != Some(flat[v]) then pages + {v} else pages)
      case Clear(gone) => Pending(flat - gone, code[1..], pages + (gone * flat.Keys))
      case Flush(v) => Pending(flat, code[1..], pages - {v})
      case Fill(_) => Pending(flat, code[1..], pages)
    }
  }

  /** However fills are interleaved, only pages still to be flushed can have a stale translation. */
  lemma {:induction false} OnlyPendingStale(u: Mmu, trace: seq<Micro>, pages: set<nat>)
    requires u.CoherentExcept(pages)
    ensures u.DoAll(trace).CoherentExcept(Pending(u.flat, Code(trace), pages))
    decreases |trace|
  {
    if trace != [] {
      var op, rest := trace[0], trace[1..];
      var pages' := match op {
        case Store(v, e) => if v in u.flat && e != Some(u.flat[v]) then pages + {v} else pages
        case Clear(gone) => pages + (gone * u.flat.Keys)
        case Flush(v) => pages - {v}
        case Fill(_) => pages
      };
      assert u.Do(op).CoherentExcept(pages');
      OnlyPendingStale(u.Do(op), rest, pages');
      assert Code(trace) == if op.Fill? then Code(rest) else [op] + Code(rest);
      if !op.Fill? { assert ([op] + Code(rest))[1..] == Code(rest); }
    }
  }

  /** The code leaves every cache coherent that was coherent before, whatever fills come between. */
  ghost predicate AlwaysCoherent(flat: map<nat, Mapping>, code: seq<Micro>) {
    forall tlb, trace :: Mmu(flat, tlb).CoherentExcept({}) && Code(trace) == code ==>
      Mmu(flat, tlb).DoAll(trace).CoherentExcept({})
  }

  lemma NothingPending(flat: map<nat, Mapping>, code: seq<Micro>)
    requires Pending(flat, code, {}) == {}
    ensures AlwaysCoherent(flat, code)
  {
    forall tlb, trace | Mmu(flat, tlb).CoherentExcept({}) && Code(trace) == code
      ensures Mmu(flat, tlb).DoAll(trace).CoherentExcept({})
    {
      OnlyPendingStale(Mmu(flat, tlb), trace, {});
    }
  }

  /** The stores and flushes of `pt_map_page`, `pt_unmap_page` and `virtual_invalidate` for one page. */
  datatype Operation = MapPage(vpn: nat, m: Mapping) | UnmapPage(vpn: nat) | InvalidatePage(vpn: nat) {
    function Code(flat: map<nat, Mapping>): seq<Micro> {
      match this
      case MapPage(v, m) => (if v in flat then [Flush(v)] else []) + [Store(v, Some(m))]
      case UnmapPage(v) => [Store(v, None)] + (if v in flat then [Flush(v)] else [])
      case InvalidatePage(v) => [Store(v, None), Flush(v)]
    }

    function Effect(flat: map<nat, Mapping>): map<nat, Mapping> {
      Stored(flat, vpn, if MapPage? then Some(m) else None)
    }

    /** The assertion of `pt_map_page`: the page has no mapping yet. */
    predicate Allowed(flat: map<nat, Mapping>) { MapPage? ==> vpn !in flat }
  }

  function CodeOf(flat: map<nat, Mapping>, ops: seq<Operation>): seq<Micro>
    decreases |ops|
  {
    if ops == [] then [] else ops[0].Code(flat) + CodeOf(ops[0].Effect(flat), ops[1..])
  }

  predicate AllAllowed(flat: map<nat, Mapping>, ops: seq<Operation>)
    decreases |ops|
  {
    ops == [] || (ops[0].Allowed(flat) && AllAllowed(ops[0].Effect(flat), ops[1..]))
  }

  /** An allowed operation leaves nothing to be flushed, and goes on as its effect says. */
  lemma OneOperation(flat: map<nat, Mapping>, op: Operation, rest: seq<Micro>)
    requires op.Allowed(flat)
    ensures Pending(flat, op.Code(flat) + rest, {}) == Pending(op.Effect(flat), rest, {})
  {
    var code := op.Code(flat) + rest;
    if |op.Code(flat)| == 1 {
      assert code[1..] == rest;
    } else {
      assert code[1..][1..] == rest;
      assert code[1..][0] == Flush(op.vpn);
      assert {op.vpn} - {op.vpn} == {} && {} - {op.vpn} == {} && {} + {op.vpn} == {op.vpn};
    }
  }

  /** TLB coherence over whole runs, with fills between any two instructions. */
  lemma {:induction false} OperationsCoherent(flat: map<nat, Mapping>, ops: seq<Operation>)
    requires AllAllowed(flat, ops)
    ensures Pending(flat, CodeOf(flat, ops), {}) == {} && AlwaysCoherent(flat, CodeOf(flat, ops))
    decreases |ops|
  {
    if ops != [] {
      OneOperation(flat, ops[0], CodeOf(ops[0].Effect(flat), ops[1..]));
      OperationsCoherent(ops[0].Effect(flat), ops[1..]);
    }
    NothingPending(flat, CodeOf(flat, ops));
  }

  /** A fill between the flush and the store of a replaced mapping leaves the old one cached. */
  lemma StaleFill(flat: map<nat, Mapping>, v: nat, m: Mapping)
    requires v in flat && flat[v] != m
    ensures var trace := [Flush(v), Fill(v), Store(v, Some(m))];
            && Code(trace) == MapPage(v, m).Code(flat)
            && Mmu(flat, map[]).CoherentExcept({}) && !Mmu(flat, map[]).DoAll(trace).CoherentExcept({})
  {
    var store := [Store(v, Some(m))];
    var last := [Fill(v)] + store;
    var trace := [Flush(v)] + last;
    assert store[1..] == [] && last[1..] == store && trace[1..] == last;
    assert Code([]) == [] && Code(store) == store;
    assert Code(last) == [] + Code(store) == store;
    assert Code(trace) == [Flush(v)] + store;
    var u := Mmu(flat, map[]);
    var u2 := u.Do(Flush(v)).Do(Fill(v));
    var u3 := u2.Do(Store(v, Some(m)));
    assert u2.DoAll(store) == u3.DoAll([]) == u3;
    assert u.DoAll(trace) == u3;
    assert u3.tlb[v] == flat[v] && u3.flat[v] == m;
  }

  /**
   `pt_map_page` flushes before it stores. That is coherent exactly when the page was unmapped or
   keeps its mapping.
   */
  lemma MapOrderExact(flat: map<nat, Mapping>, v: nat, m: Mapping)
    ensures AlwaysCoherent(flat, MapPage(v, m).Code(flat)) <==> (v !in flat || flat[v] == m)
  {
    var code, store := MapPage(v, m).Code(flat), [Store(v, Some(m))];
    if v !in flat || flat[v] == m {
      assert store[1..] == [] && Pending(flat, store, {}) == {};
      if v in flat { assert code[1..] == store && {} - {v} == {}; }
      NothingPending(flat, code);
    } else {
      StaleFill(flat, v, m);
    }
  }

  /** The store of `pt_unmap_page` on an entry that covers `unit`, and its flush if the entry was valid. */
  function UnmapUnit(unit: set<nat>, v: nat, valid: bool): seq<Micro> {
    [Clear(unit)] + if valid then [Flush(v)] else []
  }

  /** A cached translation of another page of the unit survives. */
  lemma StaleUnit(flat: map<nat, Mapping>, unit: set<nat>, v: nat, valid: bool, w: nat)
    requires w in unit && w != v && w in flat
    ensures var code, u := UnmapUnit(unit, v, valid), Mmu(flat, map[w := flat[w]]);
            Code(code) == code && u.CoherentExcept({}) && !u.DoAll(code).CoherentExcept({})
  {
    var code, u := UnmapUnit(unit, v, valid), Mmu(flat, map[w := flat[w]]);
    var rest := if valid then [Flush(v)] else [];
    assert code[1..] == rest && (valid ==> rest[1..] == []);
    assert Code([]) == [] && Code(rest) == rest && Code(code) == [Clear(unit)] + Code(rest);
    var u1 := u.Do(Clear(unit));
    var u2 := if valid then u1.Do(Flush(v)) else u1;
    assert u1.DoAll(rest) == if valid then u2.DoAll([]) else u1;
    assert u.DoAll(code) == u2;
    assert w in u2.tlb && w !in u2.flat;
  }

  /**
   `pt_unmap_page` flushes one page of the unit its entry covers. Whatever was cached before, and
   whatever fills come between, that is coherent exactly when no other page of the unit was mapped.
   */
  lemma UnmapUnitExact(flat: map<nat, Mapping>, unit: set<nat>, v: nat, valid: bool)
    requires v in unit && (v in flat ==> valid)
    ensures AlwaysCoherent(flat, UnmapUnit(unit, v, valid)) <==> forall w :: w in unit && w != v ==> w !in flat
  {
    var code := UnmapUnit(unit, v, valid);
    if w :| w in unit && w != v && w in flat {
      StaleUnit(flat, unit, v, valid, w);
    } else {
      var rest, mapped := if valid then [Flush(v)] else [], {} + (unit * flat.Keys);
      assert code[1..] == rest && (valid ==> rest[1..] == []);
      assert mapped <= {v} && (!valid ==> mapped == {}) && mapped - {v} == {};
      assert Pending(flat, code, {}) == Pending(flat - unit, rest, mapped);
      NothingPending(flat, code);
    }
  }
}

/**
 The undo log on bytes. Words are eight bytes wide and may straddle one another here; the lemmas say
 when writing the logged words back in the order of the log restores memory, and that the word memory
 of `Fixup`, in which no two words share a byte, is then a faithful picture of the bytes.
 */
module ByteLog {
  import opened PageMath
  import opened Machine
  import opened Runs
  import opened Fixup

  const WORD := 8

  type Bytes = map<nat, nat>

  /** Eight bytes, least significant first, stored from `loc` on. */
  datatype Store = Store(loc: nat, word: seq<nat>) {
    predicate Covers(a: nat) { loc <= a < loc + WORD }
  }

  ghost predicate Fits(m: Bytes, loc: nat) {
    forall a :: loc <= a < loc + WORD ==> a in m
  }

  function WordAt(m: Bytes, loc: nat): (w: seq<nat>)
    requires Fits(m, loc)
    ensures |w| == WORD && forall i :: 0 <= i < WORD ==> w[i] == m[loc + i]
  {
    seq(WORD, i requires 0 <= i < WORD => m[loc + i])
  }

  /** Memory after one word is stored. */
  function Put(m: Bytes, s: Store): (r: Bytes)
    requires |s.word| == WORD
    ensures r.Keys == m.Keys
    ensures forall a :: a in m ==> r[a] == if s.Covers(a) then s.word[a - s.loc] else m[a]
  {
    map a | a in m :: if s.Covers(a) then s.word[a - s.loc] else m[a]
  }

  ghost predicate AllFit(m: Bytes, stores: seq<Store>) {
    forall s :: s in stores ==> |s.word| == WORD && Fits(m, s.loc)
  }

  /** Memory after the words are stored in turn: the fix-up, and the restore in the order of the log. */
  function After(m: Bytes, stores: seq<Store>): (r: Bytes)
    requires AllFit(m, stores)
    ensures r.Keys == m.Keys
    decreases |stores|
  {
    if stores == [] then m else After(Put(m, stores[0]), stores[1..])
  }

  /** The log of the fix-up: each location with the word it held just before it was overwritten. */
  function Log(m: Bytes, stores: seq<Store>): (r: seq<Store>)
    requires AllFit(m, stores)
    ensures |r| == |stores| && forall i :: 0 <= i < |r| ==> r[i].loc == stores[i].loc && |r[i].word| == WORD
    decreases |stores|
  {
    if stores == [] then []
    else [Store(stores[0].loc, WordAt(m, stores[0].loc))] + Log(Put(m, stores[0]), stores[1..])
  }

  ghost predicate Covered(stores: seq<Store>, a: nat) {
    exists i :: 0 <= i < |stores| && stores[i].Covers(a)
  }

  /** No two stores are less than a word apart. */
  ghost predicate StoresApart(stores: seq<Store>) {
    forall i, j :: 0 <= i < j < |stores| ==> stores[i].loc + WORD <= stores[j].loc || stores[j].loc + WORD <= stores[i].loc
  }

  lemma CoveredCons(stores: seq<Store>, a: nat)
    requires stores != []
    ensures Covered(stores, a) <==> stores[0].Covers(a) || Covered(stores[1..], a)
  {
    if Covered(stores, a) && !stores[0].Covers(a) {
      var i :| 0 <= i < |stores| && stores[i].Covers(a);
      assert stores[1..][i - 1].Covers(a);
    }
    if Covered(stores[1..], a) {
      var i :| 0 <= i < |stores[1..]| && stores[1..][i].Covers(a);
      assert stores[i + 1].Covers(a);
    }
  }

  lemma LogFits(m: Bytes, stores: seq<Store>)
    requires AllFit(m, stores)
    ensures AllFit(m, Log(m, stores))
  {
    var log := Log(m, stores);
    forall s | s in log ensures |s.word| == WORD && Fits(m, s.loc) {
      var i :| 0 <= i < |log| && log[i] == s;
      assert stores[i] in stores;
    }
  }

  /** Every logged word is the one memory held at the start. */
  ghost predicate Original(m: Bytes, log: seq<Store>) {
    forall s :: s in log && Fits(m, s.loc) ==> s.word == WordAt(m, s.loc)
  }

  /** A store at least a word away does not change what is read. */
  lemma ReadApart(m: Bytes, s: Store, loc: nat)
    requires |s.word| == WORD && Fits(m, loc) && (loc + WORD <= s.loc || s.loc + WORD <= loc)
    ensures Fits(Put(m, s), loc) && WordAt(Put(m, s), loc) == WordAt(m, loc)
  {
    forall i | 0 <= i < WORD ensures WordAt(Put(m, s), loc)[i] == WordAt(m, loc)[i] {
      assert !s.Covers(loc + i);
    }
  }

  lemma ReadBack(m: Bytes, s: Store)
    requires |s.word| == WORD && Fits(m, s.loc)
    ensures Fits(Put(m, s), s.loc) && WordAt(Put(m, s), s.loc) == s.word
  {}

  lemma LogNext(m: Bytes, stores: seq<Store>, i: nat)
    requires AllFit(m, stores) && 0 < i < |stores|
    ensures |stores[0].word| == WORD && AllFit(Put(m, stores[0]), stores[1..])
    ensures Log(m, stores)[i] == Log(Put(m, stores[0]), stores[1..])[i - 1]
  {
    assert stores[0] in stores;
  }

  /** When the stores keep apart, no logged word has been touched before it is logged. */
  lemma {:induction false} ApartLogsOriginal(m: Bytes, stores: seq<Store>, i: nat)
    requires AllFit(m, stores) && StoresApart(stores) && i < |stores|
    ensures Fits(m, stores[i].loc) && Log(m, stores)[i].word == WordAt(m, stores[i].loc)
    decreases i
  {
    assert stores[i] in stores && stores[0] in stores;
    if i > 0 {
      LogNext(m, stores, i);
      hide Log, AllFit, WordAt, Put, Fits;
      assert stores[1..][i - 1] == stores[i] && StoresApart(stores[1..]);
      ApartLogsOriginal(Put(m, stores[0]), stores[1..], i - 1);
      ReadApart(m, stores[0], stores[i].loc);
    }
  }

  lemma LogIsOriginal(m: Bytes, stores: seq<Store>)
    requires AllFit(m, stores) && StoresApart(stores)
    ensures Original(m, Log(m, stores))
  {
    hide Log, WordAt, StoresApart;
    forall s | s in Log(m, stores) ensures Fits(m, s.loc) && s.word == WordAt(m, s.loc) {
      var i: nat :| i < |stores| && Log(m, stores)[i] == s;
      ApartLogsOriginal(m, stores, i);
    }
  }

  /** Writing original words back, in any order, restores every byte they cover and leaves the others. */
  lemma {:induction false} OriginalRestores(m: Bytes, host: Bytes, log: seq<Store>, a: nat)
    requires AllFit(m, log) && AllFit(host, log) && host.Keys == m.Keys && Original(m, log) && a in m
    ensures After(host, log)[a] == if Covered(log, a) then m[a] else host[a]
    decreases |log|
  {
    if log != [] {
      assert log[0] in log && log[0].word == WordAt(m, log[0].loc);
      CoveredCons(log, a);
      OriginalRestores(m, Put(host, log[0]), log[1..], a);
    }
  }

  lemma SameCover(m: Bytes, stores: seq<Store>, a: nat)
    requires AllFit(m, stores)
    ensures Covered(Log(m, stores), a) <==> Covered(stores, a)
  {
    var log := Log(m, stores);
    if Covered(stores, a) {
      var i :| 0 <= i < |stores| && stores[i].Covers(a);
      assert log[i].Covers(a);
    }
    if Covered(log, a) {
      var i :| 0 <= i < |log| && log[i].Covers(a);
      assert stores[i].Covers(a);
    }
  }

  /**
   The restore in the order of the log is exact when no two overwritten words are less than a word
   apart: logged bytes are as before the call, and all others as the host left them.
   */
  lemma ForwardRestoreExact(m: Bytes, stores: seq<Store>, host: Bytes)
    requires AllFit(m, stores) && StoresApart(stores) && host.Keys == m.Keys
    ensures AllFit(host, Log(m, stores))
    ensures forall a :: a in m ==> After(host, Log(m, stores))[a] == if Covered(stores, a) then m[a] else host[a]
  {
    var log := Log(m, stores);
    LogFits(m, stores);
    LogIsOriginal(m, stores);
    forall a | a in m ensures After(host, log)[a] == if Covered(stores, a) then m[a] else host[a] {
      OriginalRestores(m, host, log, a);
      SameCover(m, stores, a);
    }
  }

  /** Written back in its own order, the log gives overwritten bytes their first value and touches no other. */
  ghost predicate RestoredExactly(m: Bytes, stores: seq<Store>, host: Bytes)
    requires AllFit(m, stores) && AllFit(host, Log(m, stores)) && host.Keys == m.Keys
  {
    forall a :: a in m ==> After(host, Log(m, stores))[a] == if Covered(stores, a) then m[a] else host[a]
  }

  function Locations(stores: seq<Store>): (r: seq<nat>)
    ensures |r| == |stores| && forall i :: 0 <= i < |r| ==> r[i] == stores[i].loc
  {
    seq(|stores|, i requires 0 <= i < |stores| => stores[i].loc)
  }

  /** No two of the locations are less than a word apart. */
  ghost predicate LocationsApart(locs: seq<nat>) {
    forall i, j :: 0 <= i < j < |locs| ==> locs[i] + WORD <= locs[j] || locs[j] + WORD <= locs[i]
  }

  /** Memory, words written over it, and what the host has made of it, for the given locations. */
  ghost predicate CallAt(m: Bytes, stores: seq<Store>, host: Bytes, locs: seq<nat>) {
    AllFit(m, stores) && Locations(stores) == locs && host.Keys == m.Keys
  }

  /** The restore is exact whatever memory holds, is overwritten with, and the host writes. */
  ghost predicate AlwaysRestored(locs: seq<nat>) {
    forall m, stores, host :: CallAt(m, stores, host, locs) ==>
      AllFit(host, Log(m, stores)) && RestoredExactly(m, stores, host)
  }

  const ONES: seq<nat> := [1, 1, 1, 1, 1, 1, 1, 1]

  ghost predicate AllOnes(stores: seq<Store>) {
    forall s :: s in stores ==> s.word == ONES
  }

  lemma {:induction false} UncoveredKept(m: Bytes, stores: seq<Store>, a: nat)
    requires AllFit(m, stores) && a in m && !Covered(stores, a)
    ensures After(m, stores)[a] == m[a]
    decreases |stores|
  {
    if stores != [] {
      assert stores[0] in stores;
      CoveredCons(stores, a);
      UncoveredKept(Put(m, stores[0]), stores[1..], a);
    }
  }

  /** The restore puts the first record back and goes on with the others. */
  lemma RestoreStep(m: Bytes, stores: seq<Store>, host: Bytes) returns (m': Bytes, rest: seq<Store>, host': Bytes)
    requires stores != [] && AllFit(m, stores) && AllFit(host, Log(m, stores)) && host.Keys == m.Keys
    ensures rest == stores[1..] && AllFit(m, [stores[0]]) && m' == Put(m, stores[0]) && AllFit(m', rest)
    ensures host' == Put(host, Store(stores[0].loc, WordAt(m, stores[0].loc)))
    ensures AllFit(host', Log(m', rest)) && After(host, Log(m, stores)) == After(host', Log(m', rest))
  {
    var log := Log(m, stores);
    assert stores[0] in stores && log[0] in log;
    m', rest, host' := Put(m, stores[0]), stores[1..], Put(host, log[0]);
    assert log[1..] == Log(m', rest);
  }

  lemma OnesFirst(stores: seq<Store>)
    requires stores != [] && AllOnes(stores)
    ensures stores[0].word == ONES && AllOnes(stores[1..])
  {
    assert stores[0] in stores;
  }

  /** The step on one byte, when ones are written. */
  lemma OnesStep(m: Bytes, stores: seq<Store>, host: Bytes, a: nat) returns (m': Bytes, rest: seq<Store>, host': Bytes)
    requires stores != [] && AllFit(m, stores) && AllOnes(stores) && AllFit(host, Log(m, stores)) && host.Keys == m.Keys && a in m
    ensures rest == stores[1..] && AllFit(m', rest) && AllOnes(rest) && AllFit(host', Log(m', rest)) && host'.Keys == m'.Keys == m.Keys
    ensures After(host, Log(m, stores)) == After(host', Log(m', rest))
    ensures if stores[0].Covers(a) then m'[a] == 1 && host'[a] == m[a] else m'[a] == m[a]
  {
    OnesFirst(stores);
    assert stores[0] in stores;
    m', rest, host' := RestoreStep(m, stores, host);
    hide AllFit, AllOnes, After, Log, Fits;
    assert stores[0].Covers(a) ==> m'[a] == ONES[a - stores[0].loc];
  }

  /** A byte that holds 1 when it is first logged is left at 1 by the restore. */
  lemma {:induction false} OneStays(m: Bytes, stores: seq<Store>, host: Bytes, a: nat)
    requires AllFit(m, stores) && AllOnes(stores) && AllFit(host, Log(m, stores)) && host.Keys == m.Keys
    requires a in m && m[a] == 1 && Covered(stores, a)
    ensures After(host, Log(m, stores))[a] == 1
    decreases |stores|
  {
    assert stores != [];
    hide AllFit, AllOnes, After, Log, Covered;
    CoveredCons(stores, a);
    var m', rest, host' := OnesStep(m, stores, host, a);
    if Covered(rest, a) {
      OneStays(m', rest, host', a);
    } else {
      SameCover(m', rest, a);
      UncoveredKept(host', Log(m', rest), a);
    }
  }

  /** A byte that two stores of ones cover is left at 1, whatever it held before. */
  lemma {:induction false} TwiceCovered(m: Bytes, stores: seq<Store>, host: Bytes, i: nat, j: nat, a: nat)
    requires AllFit(m, stores) && AllOnes(stores) && AllFit(host, Log(m, stores)) && host.Keys == m.Keys
    requires i < j < |stores| && a in m && stores[i].Covers(a) && stores[j].Covers(a)
    ensures After(host, Log(m, stores))[a] == 1
    decreases i
  {
    hide AllFit, AllOnes, After, Log;
    var m', rest, host' := OnesStep(m, stores, host, a);
    assert rest[j - 1] == stores[j];
    if i == 0 {
      OneStays(m', rest, host', a);
    } else {
      assert rest[i - 1] == stores[i];
      TwiceCovered(m', rest, host', i - 1, j - 1, a);
    }
  }

  function EndOf(locs: seq<nat>): (r: nat)
    ensures forall i :: 0 <= i < |locs| ==> locs[i] + WORD <= r
  {
    if locs == [] then 0
    else
      var r := EndOf(locs[1..]);
      assert forall i :: 0 < i < |locs| ==> locs[i] == locs[1..][i - 1];
      if r < locs[0] + WORD then locs[0] + WORD else r
  }

  /** Two locations less than a word apart, zeros there, and ones written over them. */
  lemma OverlapFails(locs: seq<nat>, i: nat, j: nat)
    requires i < j < |locs| && !(locs[i] + WORD <= locs[j] || locs[j] + WORD <= locs[i])
    ensures !AlwaysRestored(locs)
  {
    var m, stores := ZerosAndOnes(locs);
    LogFits(m, stores);
    hide AllFit, AllOnes, After, Log, AlwaysRestored, EndOf, Store.Covers;
    var a := CommonByte(locs, stores, i, j);
    TwiceCovered(m, stores, m, i, j, a);
    NotRestored(locs, m, stores, m, a);
  }

  lemma CommonByte(locs: seq<nat>, stores: seq<Store>, i: nat, j: nat) returns (a: nat)
    requires Locations(stores) == locs && i < j < |locs|
    requires !(locs[i] + WORD <= locs[j] || locs[j] + WORD <= locs[i])
    ensures stores[i].Covers(a) && stores[j].Covers(a) && Covered(stores, a) && a < EndOf(locs)
  {
    a := if locs[i] < locs[j] then locs[j] else locs[i];
    assert stores[i].Covers(a);
  }

  lemma NotRestored(locs: seq<nat>, m: Bytes, stores: seq<Store>, host: Bytes, a: nat)
    requires CallAt(m, stores, host, locs) && AllFit(host, Log(m, stores)) && a in m && Covered(stores, a)
    requires After(host, Log(m, stores))[a] != m[a]
    ensures !AlwaysRestored(locs)
  {
    hide AllFit, After, Log, Covered;
    assert !RestoredExactly(m, stores, host);
  }

  /** Zeroed memory, and a word of ones for each location. */
  lemma ZerosAndOnes(locs: seq<nat>) returns (m: Bytes, stores: seq<Store>)
    ensures AllFit(m, stores) && AllOnes(stores) && Locations(stores) == locs
    ensures forall a: nat :: a < EndOf(locs) ==> a in m && m[a] == 0
  {
    var zeros: seq<nat> := seq(EndOf(locs), _ => 0);
    m := map a: nat | a < |zeros| :: zeros[a];
    stores := seq(|locs|, k requires 0 <= k < |locs| => Store(locs[k], ONES));
    forall s | s in stores ensures s.word == ONES && Fits(m, s.loc) {
      var k :| 0 <= k < |stores| && stores[k] == s;
      assert s.loc == locs[k];
    }
  }

  /**
   The exact condition: the restore in the order of the log is exact, for all contents of memory, all
   words written and whatever the host does, if and only if no two locations are less than 8 bytes apart.
   */
  lemma RestoredExactlyApart(locs: seq<nat>)
    ensures AlwaysRestored(locs) <==> LocationsApart(locs)
  {
    if LocationsApart(locs) {
      forall m, stores, host | CallAt(m, stores, host, locs)
        ensures AllFit(host, Log(m, stores)) && RestoredExactly(m, stores, host)
      {
        assert StoresApart(stores);
        ForwardRestoreExact(m, stores, host);
      }
    } else {
      var i, j :| 0 <= i < j < |locs| && !(locs[i] + WORD <= locs[j] || locs[j] + WORD <= locs[i]);
      OverlapFails(locs, i, j);
    }
  }

  /** Memory after the log is written back from its end to its start. */
  function Undone(m: Bytes, log: seq<Store>): (r: Bytes)
    requires AllFit(m, log)
    ensures r.Keys == m.Keys
    decreases |log|
  {
    if log == [] then m else Put(Undone(m, log[1..]), log[0])
  }

  /** Written back from its end, the log would restore memory whatever words overlap. */
  lemma {:induction false} BackwardAlwaysExact(m: Bytes, stores: seq<Store>)
    requires AllFit(m, stores)
    ensures AllFit(m, Log(m, stores)) && Undone(After(m, stores), Log(m, stores)) == m
    decreases |stores|
  {
    LogFits(m, stores);
    if stores != [] {
      assert stores[0] in stores;
      var m', rest := Put(m, stores[0]), stores[1..];
      BackwardAlwaysExact(m', rest);
      assert Log(m, stores)[1..] == Log(m', rest);
      hide Log, AllFit, After, Put, WordAt;
      PutBack(m, stores[0]);
    }
  }

  lemma PutBack(m: Bytes, s: Store)
    requires |s.word| == WORD && Fits(m, s.loc)
    ensures Put(Put(m, s), Store(s.loc, WordAt(m, s.loc))) == m
  {}

  /** The number a word stands for. */
  function Value(w: seq<nat>): nat {
    if w == [] then 0 else w[0] + 256 * Value(w[1..])
  }

  lemma ValueStep(w: seq<nat>, k: nat)
    requires k < |w|
    ensures Value(w[k..]) == w[k] + 256 * Value(w[k + 1..])
  {
    assert w[k..][1..] == w[k + 1..];
  }

  /** The number eight bytes stand for. */
  lemma ValueOfEight(a: nat, b: nat, c: nat, d: nat, e: nat, f: nat, g: nat, h: nat)
    ensures Value([a, b, c, d, e, f, g, h]) == a + 0x100 * b + 0x1_0000 * c + 0x100_0000 * d + 0x1_0000_0000 * Value([e, f, g, h])
    ensures Value([e, f, g, h]) == e + 0x100 * f + 0x1_0000 * g + 0x100_0000 * h
  {
    assert [a, b, c, d, e, f, g, h] == [a, b, c, d] + [e, f, g, h] && [e, f, g, h] == [e, f, g, h] + [];
    ValueOfFour(a, b, c, d, [e, f, g, h]);
    ValueOfFour(e, f, g, h, []);
  }

  lemma ValueOfFour(a: nat, b: nat, c: nat, d: nat, w: seq<nat>)
    ensures Value([a, b, c, d] + w) == a + 0x100 * b + 0x1_0000 * c + 0x100_0000 * d + 0x1_0000_0000 * Value(w)
  {
    var x := [a, b, c, d] + w;
    assert x[0..] == x && x[4..] == w;
    ValueStep(x, 3);
    ValueStep(x, 2);
    ValueStep(x, 1);
    ValueStep(x, 0);
  }

  /** The bytes of a number, least significant first. */
  function Encode(v: nat, n: nat): (w: seq<nat>)
    ensures |w| == n && forall i :: 0 <= i < n ==> w[i] < 256
  {
    if n == 0 then [] else [v % 256] + Encode(v / 256, n - 1)
  }

  /** 2^(8n) */
  function Limit(n: nat): (r: nat)
    ensures r > 0
  {
    if n == 0 then 1 else 256 * Limit(n - 1)
  }

  ghost predicate AreBytes(w: seq<nat>) {
    forall i :: 0 <= i < |w| ==> w[i] < 256
  }

  lemma {:induction false} ValueOfEncoded(v: nat, n: nat)
    requires v < Limit(n)
    ensures Value(Encode(v, n)) == v
  {
    if n > 0 {
      ValueOfEncoded(v / 256, n - 1);
      assert Encode(v, n)[1..] == Encode(v / 256, n - 1);
    }
  }

  lemma LowByte(a: nat, x: nat)
    requires a < 256
    ensures (a + 256 * x) % 256 == a && (a + 256 * x) / 256 == x
  {}

  lemma {:induction false} EncodeOfValue(w: seq<nat>)
    requires AreBytes(w)
    ensures Value(w) < Limit(|w|) && Encode(Value(w), |w|) == w
    decreases |w|
  {
    if w != [] {
      EncodeOfValue(w[1..]);
      var x, n := Value(w[1..]), |w| - 1;
      LowByte(w[0], x);
      assert Value(w) == w[0] + 256 * x && Encode(Value(w), |w|) == [w[0]] + Encode(x, n) && Limit(|w|) == 256 * Limit(n);
      hide Value, Encode, Limit, AreBytes;
      assert w == [w[0]] + w[1..];
    }
  }

  /** The words at the given places, as numbers. */
  function Words(m: Bytes, places: set<nat>): (r: Memory)
    requires forall p :: p in places ==> Fits(m, p)
    ensures r.Keys == places
  {
    map p | p in places :: Value(WordAt(m, p))
  }

  lemma WordsChanged(m: Bytes, m': Bytes, places: set<nat>, loc: nat)
    requires (forall p :: p in places ==> Fits(m, p) && Fits(m', p)) && loc in places
    requires forall p :: p in places && p != loc ==> WordAt(m', p) == WordAt(m, p)
    ensures Words(m', places) == Words(m, places)[loc := Value(WordAt(m', loc))]
  {
    hide WordAt, Value, Fits;
  }

  /** A store to one of the words changes that word, and no other exactly if they are apart. */
  lemma WordsFaithful(m: Bytes, places: set<nat>, s: Store)
    requires (forall p :: p in places ==> Fits(m, p)) && s.loc in places && |s.word| == WORD
    requires WordsApart(Words(m, places))
    ensures forall p :: p in places ==> Fits(Put(m, s), p)
    ensures Words(Put(m, s), places) == Words(m, places)[s.loc := Value(s.word)]
  {
    hide WordAt, Put, Value, Fits;
    ReadBack(m, s);
    forall p | p in places && p != s.loc
      ensures Fits(Put(m, s), p) && WordAt(Put(m, s), p) == WordAt(m, p)
    {
      assert p in Words(m, places) && s.loc in Words(m, places);
      ReadApart(m, s, p);
    }
    hide Words, WordsApart;
    WordsChanged(m, Put(m, s), places, s.loc);
  }

  /** Stores on the words alone, in turn. */
  function Updated(m: Memory, stores: seq<Store>): Memory
    decreases |stores|
  {
    if stores == [] then m else Updated(m[stores[0].loc := Value(stores[0].word)], stores[1..])
  }

  /** On words that are apart, a fix-up or a restore on bytes is the one on words. */
  lemma {:induction false} StoresFaithful(m: Bytes, places: set<nat>, stores: seq<Store>)
    requires (forall p :: p in places ==> Fits(m, p)) && AllFit(m, stores)
    requires WordsApart(Words(m, places)) && forall s :: s in stores ==> s.loc in places
    ensures forall p :: p in places ==> Fits(After(m, stores), p)
    ensures Words(After(m, stores), places) == Updated(Words(m, places), stores)
    decreases |stores|
  {
    if stores != [] {
      assert stores[0] in stores;
      WordsFaithful(m, places, stores[0]);
      StoresFaithful(Put(m, stores[0]), places, stores[1..]);
    }
  }

  ghost predicate AllWords(m: Bytes, locs: seq<nat>) {
    forall i :: 0 <= i < |locs| ==> Fits(m, locs[i])
  }

  lemma OtherWords(m: Bytes, s: Store, locs: seq<nat>)
    requires AllWords(m, locs) && locs != [] && |s.word| == WORD
    ensures AllWords(m, locs[1..]) && AllWords(Put(m, s), locs[1..])
  {
    forall i | 0 <= i < |locs[1..]| ensures Fits(m, locs[1..][i]) { assert locs[1..][i] == locs[i + 1]; }
  }

  /** The stores of a fix-up of the words at the given locations, in turn: a word that stays is not stored. */
  ghost function FixStores(s: State, m: Bytes, locs: seq<nat>): (r: seq<Store>)
    requires s.lay.Ok() && AllWords(m, locs)
    ensures AllFit(m, r)
    decreases |locs|
  {
    if locs == [] then []
    else
      var v := Value(WordAt(m, locs[0]));
      var c := Canon(s, v);
      var st := Store(locs[0], Encode(c, WORD));
      OtherWords(m, st, locs);
      if c == v then FixStores(s, m, locs[1..])
      else
        [st] + FixStores(s, Put(m, st), locs[1..])
  }

  /** What a rewritten word is stored as can be read back. */
  lemma CanonFits(s: State, v: nat)
    requires Inv(s) && s.lay.Ok() && Canon(s, v) != v
    ensures Value(Encode(Canon(s, v), WORD)) == Canon(s, v)
  {
    hide Inv, Resolve, Value, Encode;
    CanonLaws(s, v);
    if v < VIRTMEM_END { LowCanon(s, v); } else { HighCanon(s, v); }
    assert Limit(WORD) == 0x1_0000_0000_0000_0000;
    ValueOfEncoded(Canon(s, v), WORD);
  }

  /** The first word stays, and nothing is stored. */
  lemma FixSkips(s: State, m: Bytes, locs: seq<nat>)
    requires s.lay.Ok() && locs != [] && AllWords(m, locs)
    requires var v := Value(WordAt(m, locs[0])); Canon(s, v) == v
    ensures AllWords(m, locs[1..]) && FixStores(s, m, locs) == FixStores(s, m, locs[1..])
  {
    OtherWords(m, Store(locs[0], WordAt(m, locs[0])), locs);
  }

  /** The first word is rewritten, and the pass goes on with the others. */
  lemma FixStoresFirst(s: State, m: Bytes, locs: seq<nat>, st: Store)
    requires s.lay.Ok() && locs != [] && AllWords(m, locs)
    requires var v := Value(WordAt(m, locs[0])); Canon(s, v) != v && st == Store(locs[0], Encode(Canon(s, v), WORD))
    ensures AllWords(Put(m, st), locs[1..])
    ensures FixStores(s, m, locs) == [st] + FixStores(s, Put(m, st), locs[1..])
    ensures After(m, FixStores(s, m, locs)) == After(Put(m, st), FixStores(s, Put(m, st), locs[1..]))
  {
    OtherWords(m, st, locs);
    var rest := FixStores(s, Put(m, st), locs[1..]);
    hide Value, WordAt, Canon, Encode;
    assert FixStores(s, m, locs) == [st] + rest;
    hide FixStores;
    assert ([st] + rest)[1..] == rest;
  }

  /** Visited places are the same or do not share a byte. */
  ghost predicate SameOrApart(locs: seq<nat>) {
    forall i, j :: 0 <= i < j < |locs| ==> locs[i] == locs[j] || locs[i] + WORD <= locs[j] || locs[j] + WORD <= locs[i]
  }

  ghost predicate SameOrAway(locs: seq<nat>, l: nat) {
    forall i :: 0 <= i < |locs| ==> locs[i] == l || locs[i] + WORD <= l || l + WORD <= locs[i]
  }

  ghost predicate AwayFrom(stores: seq<Store>, l: nat) {
    forall i :: 0 <= i < |stores| ==> stores[i].loc + WORD <= l || l + WORD <= stores[i].loc
  }

  /** A word that is canonical is not stored, however often the pass comes by. */
  lemma {:induction false} FixSettled(s: State, m: Bytes, locs: seq<nat>, l: nat)
    requires s.lay.Ok() && AllWords(m, locs) && Fits(m, l) && SameOrAway(locs, l)
    requires var v := Value(WordAt(m, l)); Canon(s, v) == v
    ensures AwayFrom(FixStores(s, m, locs), l)
    decreases |locs|
  {
    if locs != [] {
      var v := Value(WordAt(m, locs[0]));
      SettledRest(locs, l);
      hide Value, WordAt, Canon, Encode, SameOrAway, AllWords, FixStores;
      if Canon(s, v) == v {
        FixSkips(s, m, locs);
        FixSettled(s, m, locs[1..], l);
      } else {
        var st := Store(locs[0], Encode(Canon(s, v), WORD));
        FixStoresFirst(s, m, locs, st);
        ReadApart(m, st, l);
        FixSettled(s, Put(m, st), locs[1..], l);
        AwayCons(st, FixStores(s, Put(m, st), locs[1..]), l);
      }
    }
  }

  lemma SettledRest(locs: seq<nat>, l: nat)
    requires SameOrAway(locs, l) && locs != []
    ensures SameOrAway(locs[1..], l) && (locs[0] != l ==> locs[0] + WORD <= l || l + WORD <= locs[0])
  {}

  lemma AwayCons(st: Store, stores: seq<Store>, l: nat)
    requires AwayFrom(stores, l) && (st.loc + WORD <= l || l + WORD <= st.loc)
    ensures AwayFrom([st] + stores, l)
  {}

  /** So the pass stores to no two places that share a byte. */
  lemma {:induction false} FixStoresApart(s: State, m: Bytes, locs: seq<nat>)
    requires Inv(s) && s.lay.Ok() && AllWords(m, locs) && SameOrApart(locs)
    ensures StoresApart(FixStores(s, m, locs))
    decreases |locs|
  {
    if locs != [] {
      var v := Value(WordAt(m, locs[0]));
      RestApart(locs);
      hide Inv, Value, WordAt, Canon, Encode, SameOrApart, SameOrAway, AllWords, FixStores;
      if Canon(s, v) == v {
        FixSkips(s, m, locs);
        FixStoresApart(s, m, locs[1..]);
      } else {
        var st := Store(locs[0], Encode(Canon(s, v), WORD));
        var m', rest := Put(m, st), locs[1..];
        FixStoresFirst(s, m, locs, st);
        FixStoresApart(s, m', rest);
        StoredSettles(s, m, locs[0], v);
        FixSettled(s, m', rest, locs[0]);
        ApartCons(st, FixStores(s, m', rest));
      }
    } else {
      assert FixStores(s, m, locs) == [];
    }
  }

  lemma RestApart(locs: seq<nat>)
    requires SameOrApart(locs) && locs != []
    ensures SameOrApart(locs[1..]) && SameOrAway(locs[1..], locs[0])
  {}

  lemma ApartCons(st: Store, stores: seq<Store>)
    requires StoresApart(stores) && AwayFrom(stores, st.loc)
    ensures StoresApart([st] + stores)
  {}

  /** What the fix-up stores is canonical. */
  lemma StoredSettles(s: State, m: Bytes, l: nat, v: nat)
    requires Inv(s) && s.lay.Ok() && Fits(m, l) && Canon(s, v) != v
    ensures var m' := Put(m, Store(l, Encode(Canon(s, v), WORD)));
            Fits(m', l) && Canon(s, Value(WordAt(m', l))) == Value(WordAt(m', l))
  {
    hide Inv, Canon, Value, Encode;
    ReadBack(m, Store(l, Encode(Canon(s, v), WORD)));
    CanonFits(s, v);
    CanonLaws(s, v);
  }

  /**
   The round trip of the pass on bytes: if visited places are the same or 8 bytes apart, as those of
   overlapping arrays of aligned words are, every byte it overwrote gets its first value back, and all
   others are as the host left them.
   */
  lemma PassRestored(s: State, m: Bytes, locs: seq<nat>, host: Bytes)
    requires Inv(s) && s.lay.Ok() && AllWords(m, locs) && SameOrApart(locs) && host.Keys == m.Keys
    ensures AllFit(host, Log(m, FixStores(s, m, locs))) && RestoredExactly(m, FixStores(s, m, locs), host)
  {
    hide Inv, FixStores, After, Log;
    FixStoresApart(s, m, locs);
    ForwardRestoreExact(m, FixStores(s, m, locs), host);
  }

  ghost function Visited(locs: seq<nat>): set<nat> {
    set i | 0 <= i < |locs| :: locs[i]
  }

  /** On words, the fix-up of a list of words is that of the first and then of the others. */
  lemma FixedFirst(s: State, w: Memory, locs: seq<nat>)
    requires Inv(s) && s.lay.Ok() && locs != [] && locs[0] in w
    ensures Fixed(s, w, Visited(locs)) == Fixed(s, w[locs[0] := Canon(s, w[locs[0]])], Visited(locs[1..]))
    ensures Canon(s, w[locs[0]]) == w[locs[0]] ==> w[locs[0] := Canon(s, w[locs[0]])] == w
  {
    assert locs == [locs[0]] + locs[1..];
    assert Visited(locs) == {locs[0]} + Visited(locs[1..]);
    hide Inv, Canon, Visited, Fixed;
    FixedOne(s, w, locs[0]);
    FixedTwice(s, w, {locs[0]}, Visited(locs[1..]));
  }

  /** On words that are apart, the fix-up on bytes is the one on words. */
  lemma {:induction false} FixFaithful(s: State, m: Bytes, places: set<nat>, locs: seq<nat>)
    requires Inv(s) && s.lay.Ok() && (forall p :: p in places ==> Fits(m, p)) && Visited(locs) <= places
    requires WordsApart(Words(m, places))
    ensures AllWords(m, locs) && forall p :: p in places ==> Fits(After(m, FixStores(s, m, locs)), p)
    ensures Words(After(m, FixStores(s, m, locs)), places) == Fixed(s, Words(m, places), Visited(locs))
    decreases |locs|
  {
    var w := Words(m, places);
    if locs == [] {
      FixedNone(s, w);
      assert Visited(locs) == {};
    } else {
      VisitedFit(m, places, locs);
      FixedFirst(s, w, locs);
      FixNext(s, m, places, locs);
    }
  }

  lemma VisitedFit(m: Bytes, places: set<nat>, locs: seq<nat>)
    requires (forall p :: p in places ==> Fits(m, p)) && Visited(locs) <= places
    ensures AllWords(m, locs) && (locs != [] ==> locs[0] in places && Visited(locs[1..]) <= places)
  {
    hide Fits;
    forall i | 0 <= i < |locs| ensures locs[i] in places { assert locs[i] in Visited(locs); }
    if locs != [] {
      forall i | 0 <= i < |locs[1..]| ensures locs[1..][i] in places { assert locs[1..][i] == locs[i + 1]; }
    }
  }

  /** One word of the pass, and the rest of it. */
  lemma {:induction false} FixNext(s: State, m: Bytes, places: set<nat>, locs: seq<nat>)
    requires Inv(s) && s.lay.Ok() && (forall p :: p in places ==> Fits(m, p)) && Visited(locs) <= places
    requires WordsApart(Words(m, places)) && locs != [] && locs[0] in places && Visited(locs[1..]) <= places && AllWords(m, locs)
    ensures forall p :: p in places ==> Fits(After(m, FixStores(s, m, locs)), p)
    ensures var w, l := Words(m, places), locs[0];
            Words(After(m, FixStores(s, m, locs)), places) == Fixed(s, w[l := Canon(s, w[l])], Visited(locs[1..]))
    decreases |locs|, 1
  {
    var l := locs[0];
    var v := Value(WordAt(m, l));
    assert Words(m, places)[l] == v;
    hide Inv, Canon, Value, WordsApart, Fits, WordAt, FixStores, After, Encode, AllWords, Words, Fixed, Visited;
    if Canon(s, v) == v {
      FixSkips(s, m, locs);
      FixFaithful(s, m, places, locs[1..]);
      KeptWord(Words(m, places), l);
    } else {
      FixStored(s, m, places, locs);
    }
  }

  lemma KeptWord(w: Memory, l: nat)
    requires l in w
    ensures w[l := w[l]] == w
  {}

  lemma {:induction false} FixStored(s: State, m: Bytes, places: set<nat>, locs: seq<nat>)
    requires Inv(s) && s.lay.Ok() && (forall p :: p in places ==> Fits(m, p)) && locs != []
    requires WordsApart(Words(m, places)) && locs[0] in places && Visited(locs[1..]) <= places && AllWords(m, locs)
    requires var v := Value(WordAt(m, locs[0])); Canon(s, v) != v
    ensures forall p :: p in places ==> Fits(After(m, FixStores(s, m, locs)), p)
    ensures var w, l := Words(m, places), locs[0];
            Words(After(m, FixStores(s, m, locs)), places) == Fixed(s, w[l := Canon(s, w[l])], Visited(locs[1..]))
    decreases |locs|, 0
  {
    var l, rest := locs[0], locs[1..];
    var v := Value(WordAt(m, l));
    var st := Store(l, Encode(Canon(s, v), WORD));
    var m' := Put(m, st);
    assert Words(m, places)[l] == v;
    hide Inv, Canon, Value, WordsApart, Fits, WordAt, FixStores, After, Encode, AllWords, Words, Fixed, Visited, Put;
    FixStoresFirst(s, m, locs, st);
    WordsFaithful(m, places, st);
    CanonFits(s, v);
    WordsStayApart(Words(m, places), Words(m', places));
    FixFaithful(s, m', places, rest);
  }

  lemma WordsStayApart(m: Memory, m': Memory)
    requires WordsApart(m) && m'.Keys == m.Keys
    ensures WordsApart(m')
  {}
}

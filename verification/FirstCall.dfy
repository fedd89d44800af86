/** A system call on an alias: the pointer in an iovec on the heap page is rewritten, and restored. */
module FirstCall {
  import opened Options
  import opened PageMath
  import opened Machine
  import opened Runs
  import opened Steps
  import opened Dangless
  import opened FirstUse
  import opened FixupRestore
  import opened Fixup

  /** The iovec lies behind the first block, and describes it. */
  const IOVEC := PGSIZE + 16

  function UserMemory(q: nat): Memory { map[IOVEC := q, IOVEC + 8 := 16] }

  /** The arguments of writev: a descriptor, the array, and its length. */
  const TYPES := [NoFixup, IovecParam, NoFixup]
  const VALUES: seq<nat> := [1, IOVEC, 1]

  /** The alias of the first block is held. */
  ghost predicate HoldsAlias(s: State, q: nat) {
    Inv(s) && 1 in s.canon && q in s.live && s.live[q].remapped && s.live[q].c == PGSIZE
  }

  lemma AliasCanon(s: State, q: nat)
    requires HoldsAlias(s, q)
    ensures s.lay.Ok() && Resolvable(s, q) && Remapped(s, q) && Canon(s, q) == PGSIZE
  {
    hide Inv, Resolve;
    HeldResolves(s, q);
    CanonLaws(s, q);
    LowCanon(s, q);
  }

  lemma IovecCanon(s: State)
    requires Inv(s) && 1 in s.canon
    ensures s.lay.Ok() && Resolvable(s, IOVEC) && Backed(s, IOVEC) && Canon(s, IOVEC) == IOVEC
  {
    hide Inv, Resolve;
    InvParts(s);
    ResolveCanonical(s, IOVEC);
  }

  /** The call meets the conditions of the fix-up, and the base pointer of the iovec is rewritten. */
  lemma CallReady(s: State, q: nat)
    requires HoldsAlias(s, q)
    ensures s.lay.Ok() && CountsFollow(TYPES, VALUES) && WordsApart(UserMemory(q))
    ensures AllReadable(s, UserMemory(q), TYPES, VALUES, 0)
    ensures Rewritten(s, UserMemory(q), Some(TYPES), VALUES, IOVEC)
  {
    hide Inv, Resolve, Resolvable, Remapped, Backed, Canon;
    AliasCanon(s, q);
    IovecCanon(s);
    var m, g := UserMemory(q), Iovec(IOVEC, 1);
    assert ArgAt(TYPES, VALUES, 1) == g && NextArg(TYPES, VALUES, 0) == 1 && NextArg(TYPES, VALUES, 1) == 3;
    assert AllReadable(s, m, TYPES, VALUES, 3) && AllSlots(s, m, TYPES, VALUES, 3) == {};
    assert Pointer(s, m, IOVEC);
    assert VecReadable(s, m, IOVEC, 1);
    assert Readable(s, m, g) && IOVEC in Slots(s, m, g);
    assert AllReadable(s, m, TYPES, VALUES, 1) && IOVEC in AllSlots(s, m, TYPES, VALUES, 1);
  }

  /** After a call in which the host writes nothing and no record is lost, memory is as before. */
  lemma IdleCall(s: State, m: Memory, m': Memory, lost: set<nat>)
    requires s.lay.Ok() && CountsFollow(TYPES, VALUES) && m'.Keys == m.Keys && lost == {}
    requires forall a :: a in m ==>
      m'[a] == WordAfter(s, m, map[], Rewritten(s, m, Some(TYPES), VALUES, a), a in lost, a)
    ensures m' == m
  {
    hide Rewritten, Canon;
  }

  /** The hooks over such a heap and that memory, if the log gets its buffer. */
  method FirstHooks(heap: DanglessMalloc, q: nat, ghost s: State, mayRefuse: bool) returns (hooks: VmcallHooks?)
    requires heap.Valid() && heap.kernelMode && heap.View() == s && HoldsAlias(s, q)
    ensures !mayRefuse ==> hooks != null
    ensures hooks != null ==>
      && hooks.Valid(s) && fresh(hooks.Writes()) && hooks.dangless == heap
      && hooks.mem == UserMemory(q) && hooks.hookDepth == 0 && hooks.fixupDepth == 0 && hooks.log.Log() == []
      && hooks.log.MayLose() == mayRefuse
  {
    hide Inv, DanglessMalloc.Valid, DanglessMalloc.Sound, Rewritten, Canon, AllReadable;
    var log := new RestoreLog(4, false, mayRefuse);
    if log.records.Length == 0 {
      return null;
    }
    CallReady(s, q);
    hooks := new VmcallHooks(heap, UserMemory(q), log);
  }

  method Arguments() returns (args: array<nat>)
    ensures fresh(args) && args[..] == VALUES
  {
    args := new nat[3](i requires 0 <= i < 3 => VALUES[i]);
  }

  /** The call itself. */
  method WriteVector(hooks: VmcallHooks, q: nat, ghost s: State)
    requires hooks.Valid(s) && HoldsAlias(s, q) && hooks.mem == UserMemory(q)
    requires hooks.hookDepth == 0 && hooks.fixupDepth == 0 && hooks.log.Log() == []
    modifies hooks.Writes(), hooks.dangless`vremapLastResult
    ensures !hooks.log.MayLose() ==> hooks.mem == UserMemory(q)
  {
    hide Inv, VmcallHooks.Valid, Rewritten, Canon, AllReadable, WordAfter, HoldsAlias;
    CallReady(s, q);
    var args := Arguments();
    ghost var lost := hooks.Call(Some(TYPES), args, map[], s);
    if !hooks.log.MayLose() { IdleCall(s, UserMemory(q), hooks.mem, lost); }
  }

  /**
   malloc, and a call on the block's alias. If no allocation is refused, the host sees the canonical
   address of the block in the iovec, and the program finds its alias there afterwards.
   */
  method CallOnAlias(mayRefuse: bool) returns (hooks: VmcallHooks?, q: nat, ghost s: State)
    ensures !mayRefuse ==> hooks != null
    ensures hooks != null ==>
      && HoldsAlias(s, q) && s.lay.Ok() && CountsFollow(TYPES, VALUES)
      && Rewritten(s, UserMemory(q), Some(TYPES), VALUES, IOVEC) && Canon(s, q) == PGSIZE
      && (!mayRefuse ==> hooks.mem == UserMemory(q))
  {
    hide Inv, DanglessMalloc.Valid, DanglessMalloc.Sound, VmcallHooks.Valid, Rewritten, Canon, AllReadable, WordAfter, HoldsAlias,
      VmcallHooks.Writes, RestoreLog.Log, DanglessMalloc.View, RestoreLog.Valid;
    var heap;
    heap, q, s := HeapWithAlias(mayRefuse);
    if heap == null {
      return null, q, s;
    }
    hooks := FirstHooks(heap, q, s, mayRefuse);
    if hooks == null {
      return;
    }
    AliasCanon(s, q);
    CallReady(s, q);
    WriteVector(hooks, q, s);
  }

  /** A heap, and the alias of its first block. */
  method HeapWithAlias(mayRefuse: bool) returns (heap: DanglessMalloc?, q: nat, ghost s: State)
    ensures !mayRefuse ==> heap != null
    ensures heap != null ==> fresh(heap) && heap.Valid() && heap.kernelMode && heap.View() == s && HoldsAlias(s, q)
  {
    hide Inv, DanglessMalloc.Valid, DanglessMalloc.Sound, FreshBlock;
    q, s := 0, SmallStart();
    heap := DedicatedHeap(mayRefuse);
    if heap == null {
      return;
    }
    heap.ValidInv();
    FirstBlock(heap.View());
    q := heap.Malloc(16, PGSIZE, 16);
    heap.ValidInv();
    s := heap.View();
    if heap.vremapLastResult != VREM_OK {
      return null, 0, s;
    }
  }
}

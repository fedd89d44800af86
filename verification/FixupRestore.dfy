/** The undo log of a system call: a growable buffer of the words that were overwritten. */
module FixupRestore {
  import opened Options

  /** A word of user memory that was overwritten, and what it held. */
  datatype Record = Record(location: nat, value: nat)

  /** How full the log's buffer is. */
  datatype Fill = Fill(count: nat, capacity: nat)

  /**
   `vmcall_fixup_restore_on_return` on the counts alone: the index it writes to, if any. `granted` is
   whether the system allocator answers its request, if there is one, with something other than NULL.
   */
  function OneMore(b: Fill, granted: bool): (Fill, Option<nat>) {
    if b.count == b.capacity && !granted then (b, None)
    else (Fill(b.count + 1, if b.count == b.capacity then b.capacity * 2 else b.capacity), Some(b.count))
  }

  /** Every record is written inside the buffer, for the given answers. */
  predicate StaysInside(b: Fill, answers: seq<bool>)
    decreases |answers|
  {
    answers == [] ||
    var (b', at) := OneMore(b, answers[0]);
    (at.Some? ==> at.value < b'.capacity) && StaysInside(b', answers[1..])
  }

  ghost predicate AlwaysInside(b: Fill) {
    forall answers :: StaysInside(b, answers)
  }

  lemma {:induction false} RoomStays(b: Fill, answers: seq<bool>)
    requires 0 < b.capacity && b.count <= b.capacity
    ensures StaysInside(b, answers)
    decreases |answers|
  {
    if answers != [] { RoomStays(OneMore(b, answers[0]).0, answers[1..]); }
  }

  /**
   Doubling a capacity of 0 makes no room: the log stays inside its buffer for every pattern of answers
   exactly when it got a buffer at the start, and without one exactly when every request for no bytes
   is answered with NULL. After one other answer it never asks again and writes past the buffer.
   */
  lemma RoomExactly(capacity: nat)
    ensures capacity > 0 <==> AlwaysInside(Fill(0, capacity))
    ensures forall answers: seq<bool> :: StaysInside(Fill(0, 0), answers) <==> forall i :: 0 <= i < |answers| ==> !answers[i]
    ensures OneMore(Fill(0, 0), true) == (Fill(1, 0), Some(0))
    ensures forall k: nat, g :: k > 0 ==> OneMore(Fill(k, 0), g) == (Fill(k + 1, 0), Some(k))
  {
    if capacity > 0 {
      forall answers ensures StaysInside(Fill(0, capacity), answers) { RoomStays(Fill(0, capacity), answers); }
    } else {
      var granted := [true];
      assert !StaysInside(Fill(0, 0), granted);
    }
    forall answers: seq<bool>
      ensures StaysInside(Fill(0, 0), answers) <==> forall i :: 0 <= i < |answers| ==> !answers[i]
    {
      EmptyExactly(answers);
    }
  }

  lemma {:induction false} EmptyExactly(answers: seq<bool>)
    ensures StaysInside(Fill(0, 0), answers) <==> forall i :: 0 <= i < |answers| ==> !answers[i]
    decreases |answers|
  {
    if answers != [] && !answers[0] {
      EmptyExactly(answers[1..]);
      forall i | 0 < i < |answers| ensures answers[i] == answers[1..][i - 1] {}
    }
  }

  /** The undo log: a growable buffer. */
  class RestoreLog {
    var records: array<Record>
    var count: nat
    /** How often the buffer could not grow. */
    ghost var refusals: nat

    /** Whether the system allocator answers a request for no bytes with NULL. */
    const nullForZero: bool

    /** Whether the system allocator may refuse a request for some bytes. */
    const mayRefuse: bool

    /** Whether a record may ever be lost. */
    predicate MayLose() { mayRefuse || nullForZero }

    /** Records are only written inside the buffer (`RoomExactly` says why this is the condition). */
    ghost predicate Valid()
      reads this
    {
      count <= records.Length && (records.Length > 0 || nullForZero)
    }

    ghost function Log(): seq<Record>
      requires Valid()
      reads this, records
    {
      records[..count]
    }

    ghost function Repr(): set<object>
      reads this
    {
      {this, records}
    }

    /** `vmcall_fixup_restore_init`: the allocation it asks for may be refused. */
    constructor (initialSize: nat, nullForZero: bool, mayRefuse: bool)
      requires initialSize > 0
      ensures this.nullForZero == nullForZero && this.mayRefuse == mayRefuse && count == 0 && fresh(Repr())
      ensures !mayRefuse ==> refusals == 0
      ensures (records.Length == initialSize && refusals == 0) || (records.Length == 0 && refusals == 1)
      ensures Valid() <==> refusals == 0 || nullForZero
    {
      this.nullForZero, this.mayRefuse, count := nullForZero, mayRefuse, 0;
      var refused := false;
      if mayRefuse {
        if * { refused := true; }
      }
      if refused {
        records, refusals := new Record[0], 1;
      } else {
        records, refusals := new Record[initialSize](_ => Record(0, 0)), 0;
      }
    }

    /** `grow_records_buffer`: the old records are copied, or nothing happens. */
    method Grow(newCapacity: nat) returns (ok: bool)
      requires Valid() && newCapacity >= count && (newCapacity > 0 || nullForZero)
      modifies this`records, this`refusals
      ensures Valid() && count == old(count) && Log() == old(Log())
      ensures refusals == (if ok then old(refusals) else old(refusals) + 1) && (!ok ==> MayLose())
      ensures if ok then newCapacity > 0 && fresh(records) && records.Length == newCapacity else records == old(records)
    {
      if newCapacity == 0 {
        refusals := refusals + 1;
        return false;
      }
      if mayRefuse {
        if * {
          refusals := refusals + 1;
          return false;
        }
      }
      var bigger := new Record[newCapacity](_ => Record(0, 0));
      var i := 0;
      while i < count
        invariant unchanged(this) && i <= count && bigger[..i] == records[..i]
      {
        bigger[i] := records[i];
        i := i + 1;
      }
      records := bigger;
      ok := true;
    }

    /** `vmcall_fixup_restore_on_return`: a full buffer is doubled first; if that fails the record is lost. */
    method OnReturn(location: nat, value: nat) returns (ghost ok: bool)
      requires Valid()
      modifies Repr()
      ensures Valid() && fresh(Repr() - old(Repr()))
      ensures Log() == if ok then old(Log()) + [Record(location, value)] else old(Log())
      ensures if ok then refusals == old(refusals) else refusals == old(refusals) + 1 && old(count) == old(records.Length)
      ensures !ok ==> MayLose()
      ensures OneMore(old(Fill(count, records.Length)), ok).0 == Fill(count, records.Length)
    {
      if count == records.Length {
        var grown := Grow(records.Length * 2);
        if !grown {
          return false;
        }
      }
      records[count] := Record(location, value);
      count := count + 1;
      ok := true;
    }
  }
}

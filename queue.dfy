/**
 * The bounded ring-buffer queue that connects the pipeline stages.
 *
 * The class RingQueue is the C struct Queue: a buffer of `capacity` slots and
 * the `size`, `head` and `tail` counters. Items are written at `head` and read
 * at `tail`; both advance modulo `capacity`. The ghost field Contents is the
 * abstract FIFO sequence, oldest item first. The mutex and the two condition
 * variables of the C struct are not modelled.
 *
 * The functions after the class state the same behaviour on plain sequences,
 * and the lemmas about them prove FIFO order for any run of operations.
 */
module Queue {
  import opened Wrappers

  class RingQueue<T(0)> {
    const capacity: nat
    const buffer: array<T>
    var size: nat
    var head: nat
    var tail: nat

    /** The items in the queue, in the order they will be extracted. */
    ghost var Contents: seq<T>

    /**
     * The occupancy and index invariant of the ring buffer: the occupied
     * slots run from tail, wrapping at capacity, and head is the first free
     * slot.
     */
    ghost predicate Valid()
      reads this, buffer
    {
      && buffer.Length == capacity
      && 0 < capacity
      && size <= capacity
      && head < capacity
      && tail < capacity
      && head == Slot(tail, size, capacity)
      && |Contents| == size
      && (forall i :: 0 <= i < size ==> Contents[i] == buffer[Slot(tail, i, capacity)])
    }

    /** The index invariant in the source's own terms. */
    lemma HeadFollowsTail()
      requires Valid()
      ensures head == (tail + size) % capacity
    {
      SlotIsMod(tail, size, capacity);
    }

    constructor Init(capacity: nat)
      requires 0 < capacity
      ensures Valid() && fresh(buffer)
      ensures this.capacity == capacity
      ensures size == 0 && head == 0 && tail == 0
      ensures Contents == []
    {
      this.capacity := capacity;
      buffer := new T[capacity];
      size, head, tail := 0, 0, 0;
      Contents := [];
    }

    /** queue_create: a capacity of 0 yields no queue (NULL). */
    static method Create(capacity: nat) returns (q: RingQueue?<T>)
      ensures q == null <==> capacity == 0
      ensures q != null ==>
        && fresh(q) && fresh(q.buffer) && q.Valid()
        && q.capacity == capacity
        && q.size == 0 && q.head == 0 && q.tail == 0
        && q.Contents == []
    {
      if capacity == 0 {
        return null;
      }
      q := new RingQueue.Init(capacity);
    }

    /** queue_is_empty */
    predicate IsEmpty()
      reads this, buffer
      requires Valid()
      ensures IsEmpty() <==> Contents == []
    {
      size == 0
    }

    /** queue_is_full */
    predicate IsFull()
      reads this, buffer
      requires Valid()
      ensures IsFull() <==> |Contents| == capacity
    {
      size == capacity
    }

    /**
     * queue_insert: on a full queue nothing changes; otherwise the item is
     * stored at the old head, head advances modulo capacity, size grows by
     * one and no other slot is written.
     */
    method Insert(x: T)
      requires Valid()
      modifies this, buffer
      ensures Valid()
      ensures (Contents, None) == Next(old(Contents), capacity, Put(x))
      ensures old(size) == capacity ==> unchanged(this, buffer)
      ensures old(size) < capacity ==>
        && buffer[old(head)] == x
        && (forall j :: 0 <= j < capacity && j != old(head) ==> buffer[j] == old(buffer[j]))
        && head == (old(head) + 1) % capacity
        && tail == old(tail)
        && size == old(size) + 1
    {
      if IsFull() {
        return;
      }
      buffer[head] := x;
      ModStep(head, capacity);
      head := (head + 1) % capacity;
      size := size + 1;
      Contents := Contents + [x];
    }

    /**
     * queue_extract: on an empty queue the result is NULL (None) and nothing
     * changes; otherwise the item at tail is returned, tail advances modulo
     * capacity and size shrinks by one.
     */
    method Extract() returns (r: Option<T>)
      requires Valid()
      modifies this
      ensures Valid()
      ensures (Contents, r) == Next(old(Contents), capacity, Take)
      ensures old(size) == 0 ==> unchanged(this)
      ensures old(size) > 0 ==>
        && r == Some(buffer[old(tail)])
        && tail == (old(tail) + 1) % capacity
        && head == old(head)
        && size == old(size) - 1
    {
      if IsEmpty() {
        return None;
      }
      r := Some(buffer[tail]);
      assert Contents[0] == buffer[Slot(tail, 0, capacity)];
      ModStep(tail, capacity);
      tail := (tail + 1) % capacity;
      size := size - 1;
      Contents := Contents[1..];
    }
  }

  // ---------------------------------------------------------------------
  // Modular index arithmetic of the ring buffer

  /** The slot `i` places after slot `t` in a ring of `c` slots. */
  function Slot(t: nat, i: nat, c: nat): nat
    requires t < c && i <= c
  {
    if t + i < c then t + i else t + i - c
  }

  lemma SlotIsMod(t: nat, i: nat, c: nat)
    requires t < c && i <= c
    ensures Slot(t, i, c) == (t + i) % c
  {
    if t + i < c {
      assert t + i == 0 * c + (t + i);
    } else {
      assert t + i == 1 * c + (t + i - c);
    }
  }

  /** Advancing an index modulo the capacity, as `(i + 1) % capacity` does. */
  lemma ModStep(i: nat, c: nat)
    requires i < c
    ensures (i + 1) % c == if i + 1 == c then 0 else i + 1
  {
    SlotIsMod(i, 1, c);
  }

  // ---------------------------------------------------------------------
  // The queue as a sequence, and FIFO order over runs of operations

  datatype Op<T> = Put(item: T) | Take

  /**
   * One operation on the abstract contents `s` of a queue of capacity `cap`:
   * the new contents and what the operation returns.
   */
  function Next<T>(s: seq<T>, cap: nat, op: Op<T>): (r: (seq<T>, Option<T>))
    ensures |s| <= cap ==> |r.0| <= cap
    ensures op.Put? ==> r.1.None? && (r.0 == s + [op.item] <==> |s| != cap)
    ensures op.Take? ==> (r.1.Some? <==> s != []) && (r.1.Some? ==> [r.1.value] + r.0 == s)
    ensures (op.Put? && |s| == cap) || (op.Take? && s == []) ==> r.0 == s
  {
    match op
    case Put(x) => if |s| == cap then (s, None) else (s + [x], None)
    case Take => if s == [] then (s, None) else (s[1..], Some(s[0]))
  }

  /** What a run of operations did: the final contents, the items extracted and the items accepted. */
  datatype Outcome<T> = Outcome(final: seq<T>, extracted: seq<T>, accepted: seq<T>)

  function Run<T>(s: seq<T>, cap: nat, ops: seq<Op<T>>): Outcome<T>
    decreases |ops|
  {
    if ops == [] then Outcome(s, [], [])
    else
      var (s', out) := Next(s, cap, ops[0]);
      var rest := Run(s', cap, ops[1..]);
      var taken := if out.Some? then [out.value] else [];
      var kept := if ops[0].Put? && |s'| > |s| then [ops[0].item] else [];
      Outcome(rest.final, taken + rest.extracted, kept + rest.accepted)
  }

  /** The items a run offers to the queue, in order. */
  function Offered<T>(ops: seq<Op<T>>): seq<T>
    decreases |ops|
  {
    if ops == [] then [] else (if ops[0].Put? then [ops[0].item] else []) + Offered(ops[1..])
  }

  /** No operation of the run is an insert into a full queue. */
  ghost predicate NeverOverfilled<T>(s: seq<T>, cap: nat, ops: seq<Op<T>>)
    decreases |ops|
  {
    ops != [] ==>
      && !(ops[0].Put? && |s| == cap)
      && NeverOverfilled(Next(s, cap, ops[0]).0, cap, ops[1..])
  }

  /**
   * FIFO: the items extracted, followed by the items still queued, are
   * exactly the items queued at the start followed by every accepted item.
   * Nothing is lost, duplicated or reordered.
   */
  lemma {:induction false} RunIsFifo<T>(s: seq<T>, cap: nat, ops: seq<Op<T>>)
    ensures Run(s, cap, ops).extracted + Run(s, cap, ops).final == s + Run(s, cap, ops).accepted
    decreases |ops|
  {
    if ops != [] {
      var (s', out) := Next(s, cap, ops[0]);
      RunIsFifo(s', cap, ops[1..]);
      var rest := Run(s', cap, ops[1..]);
      match ops[0]
      case Put(x) =>
        if |s| != cap {
          assert Run(s, cap, ops) == Outcome(rest.final, rest.extracted, [x] + rest.accepted);
          assert s + ([x] + rest.accepted) == (s + [x]) + rest.accepted;
        } else {
          assert Run(s, cap, ops) == Outcome(rest.final, rest.extracted, rest.accepted);
        }
      case Take =>
        if s != [] {
          assert Run(s, cap, ops) == Outcome(rest.final, [s[0]] + rest.extracted, rest.accepted);
          assert s == [s[0]] + s';
          assert [s[0]] + rest.extracted + rest.final == [s[0]] + (s' + rest.accepted);
        }
    }
  }

  /** An insert is dropped only when the queue is full: otherwise every offered item is accepted. */
  lemma {:induction false} NeverOverfilledAcceptsAll<T>(s: seq<T>, cap: nat, ops: seq<Op<T>>)
    requires NeverOverfilled(s, cap, ops)
    ensures Run(s, cap, ops).accepted == Offered(ops)
    decreases |ops|
  {
    if ops != [] {
      NeverOverfilledAcceptsAll(Next(s, cap, ops[0]).0, cap, ops[1..]);
    }
  }

  /** The occupancy bound 0 <= size <= capacity holds after any run. */
  lemma {:induction false} RunBounded<T>(s: seq<T>, cap: nat, ops: seq<Op<T>>)
    requires |s| <= cap
    ensures |Run(s, cap, ops).final| <= cap
    decreases |ops|
  {
    if ops != [] {
      RunBounded(Next(s, cap, ops[0]).0, cap, ops[1..]);
    }
  }

  /**
   * The queue test: a capacity-5 queue fills with five items, drops a sixth,
   * hands the five back in insertion order and then reports empty.
   */
  method CapacityFiveScenario()
    returns (startEmpty: bool, startFull: bool, first: Option<int>, afterInserts: seq<(bool, bool)>,
             out: seq<Option<int>>, endEmpty: bool, endFull: bool)
    ensures startEmpty && !startFull && first == None
    ensures afterInserts == [(false, false), (false, false), (false, false), (false, false), (false, true)]
    ensures out == [Some(0), Some(1), Some(2), Some(3), Some(4), None]
    ensures endEmpty && !endFull
  {
    var q := new RingQueue<int>.Init(5);
    startEmpty, startFull := q.IsEmpty(), q.IsFull();
    first := q.Extract();
    afterInserts := FillFive(q);
    q.Insert(111);
    out := DrainSix(q);
    endEmpty, endFull := q.IsEmpty(), q.IsFull();
  }

  /** The five inserts of the test, with emptiness and fullness read after each. */
  method FillFive(q: RingQueue<int>) returns (afterInserts: seq<(bool, bool)>)
    requires q.Valid() && q.capacity == 5 && q.Contents == []
    modifies q, q.buffer
    ensures q.Valid() && q.Contents == [0, 1, 2, 3, 4]
    ensures afterInserts == [(false, false), (false, false), (false, false), (false, false), (false, true)]
  {
    afterInserts := [];
    var k := 0;
    while k < 5
      invariant 0 <= k <= 5
      invariant q.Valid()
      invariant q.Contents == seq(k, i => i)
      invariant |afterInserts| == k
      invariant forall i :: 0 <= i < k ==> afterInserts[i] == (false, i == 4)
    {
      q.Insert(k);
      var empty, full := q.IsEmpty(), q.IsFull();
      assert !empty && full == (k == 4);
      afterInserts := afterInserts + [(empty, full)];
      k := k + 1;
    }
    assert q.Contents == [0, 1, 2, 3, 4];
  }

  /** The six extracts of the test from a full queue holding 0 to 4. */
  method DrainSix(q: RingQueue<int>) returns (out: seq<Option<int>>)
    requires q.Valid() && q.capacity == 5 && q.Contents == [0, 1, 2, 3, 4]
    modifies q
    ensures q.Valid() && q.Contents == []
    ensures out == [Some(0), Some(1), Some(2), Some(3), Some(4), None]
  {
    out := [];
    var k := 0;
    while k < 6
      invariant 0 <= k <= 6
      invariant q.Valid()
      invariant q.Contents == if k < 5 then seq(5 - k, i => i + k) else []
      invariant out == seq(k, i => if i < 5 then Some(i) else None)
    {
      var r := q.Extract();
      out := out + [r];
      k := k + 1;
    }
  }
}

/** The bounded multi-producer multi-consumer ring, as a step machine.

Every atomic action of `enqueueImpl` and `dequeue` is one step: load a position, load a
slot's sequence number, compare-and-swap a position (which may fail spuriously), move the
data, publish the new sequence number. Any number of threads interleave, with sequentially
consistent memory and unbounded positions. */
module LockFreeQueue {
  import opened SizeArithmetic
  import opened Wrappers

  /** `data` is None when the slot was never written or its value was moved out. */
  datatype Slot<T> = Slot(sequence: nat, data: Option<T>)

  /** Where a thread stands inside `enqueueImpl` or `dequeue`. */
  datatype Pc<T> =
    | Idle
    | EnqueueLoadPos(value: T)
    | EnqueueLoadSeq(value: T, pos: nat)
    | EnqueueCas(value: T, pos: nat)
    | EnqueueWrite(value: T, pos: nat)
    | EnqueuePublish(value: T, pos: nat)
    | EnqueueDone(ok: bool)
    | DequeueLoadPos
    | DequeueLoadSeq(pos: nat)
    | DequeueCas(pos: nat)
    | DequeueTake(pos: nat)
    | DequeueRelease(pos: nat, value: T)
    | DequeueDone(result: Option<T>)
  {
    /** The thread owns the slot of ticket `pos`: it won the compare-and-swap and has not yet
    published the slot's next sequence number. */
    predicate Producing() { EnqueueWrite? || EnqueuePublish? }

    predicate Consuming() { DequeueTake? || DequeueRelease? }

    predicate Owns() { Producing() || Consuming() }
  }

  /** A data access, by ticket. */
  datatype Event<T> = Wrote(ticket: nat, value: T) | Took(ticket: nat, value: T)

  /** The shared memory, one program counter a thread, and the history: `offered[t]` is the value
  of the thread that won enqueue ticket `t`, `log` lists the data accesses in order, and
  `released` holds the tickets whose slot was handed back to the producers. */
  datatype State<T> = State(
    enqueuePos: nat,
    dequeuePos: nat,
    slots: seq<Slot<T>>,
    threads: seq<Pc<T>>,
    offered: seq<T>,
    log: seq<Event<T>>,
    released: set<nat>)

  datatype Action<T> = Enqueue(value: T) | Dequeue | Advance(spurious: bool) | Return

  datatype Move<T> = Move(tid: nat, action: Action<T>)

  /** The slot of ticket `pos` in a ring of `n` slots. */
  function Index(pos: nat, n: nat): (i: nat)
    requires n > 0
    ensures i < n
  {
    if pos < n then pos else Index(pos - n, n)
  }

  function Init<T>(n: nat, threadCount: nat): State<T> {
    State(0, 0, seq(n, i requires 0 <= i < n => Slot(i, None)),
          seq(threadCount, i => Idle), [], [], {})
  }

  function At<T>(s: State<T>, tid: nat, pc: Pc<T>): State<T>
    requires tid < |s.threads|
  {
    s.(threads := s.threads[tid := pc])
  }

  function SlotOf<T>(s: State<T>, pos: nat): Slot<T>
    requires |s.slots| > 0
  {
    s.slots[Index(pos, |s.slots|)]
  }

  function SetSlot<T>(s: State<T>, pos: nat, slot: Slot<T>): State<T>
    requires |s.slots| > 0
  {
    s.(slots := s.slots[Index(pos, |s.slots|) := slot])
  }

  /** The next atomic action of a thread that is inside a call. */
  function Step<T>(s: State<T>, tid: nat, spurious: bool): State<T>
    requires |s.slots| > 0 && tid < |s.threads|
  {
    match s.threads[tid]
    case EnqueueLoadPos(v) => At(s, tid, EnqueueLoadSeq(v, s.enqueuePos))
    case EnqueueLoadSeq(v, pos) =>
      var seen := SlotOf(s, pos).sequence;
      if seen == pos then At(s, tid, EnqueueCas(v, pos))
      else if seen < pos then At(s, tid, EnqueueDone(false))
      else At(s, tid, EnqueueLoadPos(v))
    case EnqueueCas(v, pos) =>
      if s.enqueuePos == pos && !spurious
      then At(s, tid, EnqueueWrite(v, pos)).(enqueuePos := pos + 1, offered := s.offered + [v])
      else At(s, tid, EnqueueLoadSeq(v, s.enqueuePos))
    case EnqueueWrite(v, pos) =>
      At(SetSlot(s, pos, SlotOf(s, pos).(data := Some(v))), tid, EnqueuePublish(v, pos))
        .(log := s.log + [Wrote(pos, v)])
    case EnqueuePublish(v, pos) =>
      At(SetSlot(s, pos, SlotOf(s, pos).(sequence := pos + 1)), tid, EnqueueDone(true))
    case DequeueLoadPos => At(s, tid, DequeueLoadSeq(s.dequeuePos))
    case DequeueLoadSeq(pos) =>
      var seen := SlotOf(s, pos).sequence;
      if seen == pos + 1 then At(s, tid, DequeueCas(pos))
      else if seen < pos + 1 then At(s, tid, DequeueDone(None))
      else At(s, tid, DequeueLoadPos)
    case DequeueCas(pos) =>
      if s.dequeuePos == pos && !spurious
      then At(s, tid, DequeueTake(pos)).(dequeuePos := pos + 1)
      else At(s, tid, DequeueLoadSeq(s.dequeuePos))
    case DequeueTake(pos) =>
      (match SlotOf(s, pos).data
       case Some(v) =>
         At(SetSlot(s, pos, SlotOf(s, pos).(data := None)), tid, DequeueRelease(pos, v))
           .(log := s.log + [Took(pos, v)])
       case None => s)
    case DequeueRelease(pos, v) =>
      At(SetSlot(s, pos, SlotOf(s, pos).(sequence := pos + |s.slots|)), tid, DequeueDone(Some(v)))
        .(released := s.released + {pos})
    case _ => s
  }

  /** One move of a run. A move that does not fit the thread's program counter changes nothing. */
  function Apply<T>(s: State<T>, m: Move<T>): (r: State<T>)
    requires |s.slots| > 0
    ensures |r.slots| == |s.slots| && |r.threads| == |s.threads|
  {
    if m.tid >= |s.threads| then s
    else match m.action
      case Enqueue(v) => if s.threads[m.tid].Idle? then At(s, m.tid, EnqueueLoadPos(v)) else s
      case Dequeue => if s.threads[m.tid].Idle? then At(s, m.tid, DequeueLoadPos) else s
      case Advance(spurious) => Step(s, m.tid, spurious)
      case Return =>
        if s.threads[m.tid].EnqueueDone? || s.threads[m.tid].DequeueDone?
        then At(s, m.tid, Idle) else s
  }

  /** The state after the moves of a run. */
  function Run<T>(s: State<T>, moves: seq<Move<T>>): (r: State<T>)
    requires |s.slots| > 0
    ensures |r.slots| == |s.slots| && |r.threads| == |s.threads|
  {
    if moves == [] then s else Apply(Run(s, moves[..|moves| - 1]), moves[|moves| - 1])
  }

  // ---------- The slot of a ticket ----------

  lemma {:induction false} IndexIsRemainder(pos: nat, n: nat) returns (quotient: nat)
    requires n > 0
    ensures pos == n * quotient + Index(pos, n)
  {
    if pos < n {
      quotient := 0;
    } else {
      var q := IndexIsRemainder(pos - n, n);
      quotient := q + 1;
      assert n * quotient == n * q + n;
    }
  }

  /** The recursion is the masking of the source: position modulo the ring size. */
  lemma IndexIsModulo(pos: nat, n: nat)
    requires n > 0
    ensures Index(pos, n) == pos % n
  {
    var q := IndexIsRemainder(pos, n);
    assert pos == n * (pos / n) + pos % n;
    QuotientUnique(n, q, Index(pos, n), pos / n, pos % n);
  }

  /** Two tickets share a slot only when they are at least a whole ring apart. */
  lemma {:induction false} SameSlotFarApart(p: nat, q: nat, n: nat)
    requires n > 0 && p < q && Index(p, n) == Index(q, n)
    ensures q >= p + n
    decreases q
  {
    if p >= n {
      SameSlotFarApart(p - n, q - n, n);
    } else if q >= n {
      assert Index(q - n, n) == p;
      IndexAtMost(q - n, n);
    }
  }

  lemma {:induction false} IndexAtMost(p: nat, n: nat)
    requires n > 0
    ensures Index(p, n) <= p
  {
    if p >= n {
      IndexAtMost(p - n, n);
    }
  }

  lemma NextLap(p: nat, n: nat)
    requires n > 0
    ensures Index(p + n, n) == Index(p, n)
  {
  }

  lemma NeighboursDiffer(p: nat, n: nat)
    requires n >= 2
    ensures Index(p, n) != Index(p + 1, n)
  {
    if Index(p, n) == Index(p + 1, n) {
      SameSlotFarApart(p, p + 1, n);
    }
  }

  // ---------- Building a ring ----------

  /** With 2^k slots, the mask of the source selects the same slot. */
  lemma MaskSelectsSlot(pos: nat, k: nat)
    ensures BitAnd(pos, Ones(k)) == Index(pos, Pow2(k))
  {
    var q := MaskIsRemainder(pos, k);
    var q' := IndexIsRemainder(pos, Pow2(k));
    QuotientUnique(Pow2(k), q, BitAnd(pos, Ones(k)), q', Index(pos, Pow2(k)));
  }

  /** The constructor: the least power of two of slots, each waiting for its own first ticket. A capacity
  above 2^63 is rounded to no slot at all. */
  method Construct<T>(capacity: nat, threadCount: nat) returns (s: State<T>)
    requires 0 < capacity < SIZE_LIMIT
    ensures capacity <= 0x8000_0000_0000_0000 ==> LeastPowerOfTwo(|s.slots|, capacity)
    ensures capacity > 0x8000_0000_0000_0000 ==> s.slots == []
    ensures s == Init(|s.slots|, threadCount)
  {
    var n := RoundUpToPowerOf2(capacity);
    var slots: seq<Slot<T>> := [];
    for i := 0 to n
      invariant |slots| == i
      invariant forall j: nat :: j < i ==> slots[j] == Slot(j, None)
    {
      slots := slots + [Slot(i, None)];
    }
    s := State(0, 0, slots, seq(threadCount, i => Idle), [], [], {});
  }
}

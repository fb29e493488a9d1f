/** What every interleaving of the ring keeps: exclusive slots, one writer and at most one reader
a ticket, the right value, bounded occupancy, and first-in first-out order. */
module LockFreeQueueSafety {
  import opened Wrappers
  import opened LockFreeQueue

  // ---------- The invariant ----------

  /** Slot `i` waits for the producer of ticket `t`, or that producer is writing it. */
  ghost predicate WritableFor<T>(s: State<T>, t: nat) {
    && t - |s.slots| < s.dequeuePos <= t
    && t - |s.slots| < s.enqueuePos <= t + |s.slots|
  }

  /** Slot `i` holds the published value of ticket `t`, or its consumer is reading it. */
  ghost predicate ReadableFor<T>(s: State<T>, t: nat, data: Option<T>)
    requires |s.offered| == s.enqueuePos
  {
    && t < s.enqueuePos <= t + |s.slots|
    && t - |s.slots| < s.dequeuePos <= t + |s.slots|
    && Wrote(t, s.offered[t]) in s.log
    && (s.dequeuePos <= t ==> data == Some(s.offered[t]))
  }

  ghost predicate SlotOk<T>(s: State<T>, i: nat)
    requires i < |s.slots| && |s.offered| == s.enqueuePos
  {
    var n, q := |s.slots|, s.slots[i].sequence;
    || (Index(q, n) == i && WritableFor(s, q))
    || (q > 0 && Index(q - 1, n) == i && ReadableFor(s, q - 1, s.slots[i].data))
  }

  ghost predicate ThreadOk<T>(s: State<T>, k: nat)
    requires k < |s.threads| && |s.offered| == s.enqueuePos && |s.slots| > 0
  {
    match s.threads[k]
    case EnqueueLoadSeq(_, pos) => pos <= s.enqueuePos
    case EnqueueCas(_, pos) => pos <= s.enqueuePos && SlotOf(s, pos).sequence >= pos
    case EnqueueWrite(v, pos) =>
      pos < s.enqueuePos && SlotOf(s, pos).sequence == pos && s.offered[pos] == v
    case EnqueuePublish(v, pos) =>
      && pos < s.enqueuePos && SlotOf(s, pos) == Slot(pos, Some(v)) && s.offered[pos] == v
      && Wrote(pos, v) in s.log
    case DequeueLoadSeq(pos) => pos <= s.dequeuePos
    case DequeueCas(pos) => pos <= s.dequeuePos && SlotOf(s, pos).sequence > pos
    case DequeueTake(pos) =>
      && pos < s.dequeuePos && pos < s.enqueuePos
      && SlotOf(s, pos) == Slot(pos + 1, Some(s.offered[pos]))
    case DequeueRelease(pos, v) =>
      && pos < s.dequeuePos && pos < s.enqueuePos
      && SlotOf(s, pos).sequence == pos + 1 && s.offered[pos] == v
    case _ => true
  }

  /** No slot is touched by two threads at once. */
  ghost predicate Exclusive<T>(s: State<T>)
    requires |s.slots| > 0
  {
    forall j: nat, k: nat :: j < k < |s.threads| && s.threads[j].Owns() && s.threads[k].Owns() ==>
      Index(s.threads[j].pos, |s.slots|) != Index(s.threads[k].pos, |s.slots|)
  }

  /** A ticket counts as released exactly when its slot has moved on to the next lap. */
  ghost predicate ReleasedOk<T>(s: State<T>)
    requires |s.slots| > 0
  {
    forall t: nat :: t in s.released <==> SlotOf(s, t).sequence >= t + |s.slots|
  }

  ghost predicate EventOk<T>(s: State<T>, e: Event<T>)
    requires |s.offered| == s.enqueuePos && |s.slots| > 0
  {
    match e
    case Wrote(t, v) =>
      && t < s.enqueuePos && v == s.offered[t]
      && forall k: nat :: k < |s.threads| && s.threads[k].EnqueueWrite? ==> s.threads[k].pos != t
    case Took(t, v) =>
      && t < s.dequeuePos && t < s.enqueuePos && v == s.offered[t]
      && forall k: nat :: k < |s.threads| && s.threads[k].DequeueTake? ==> s.threads[k].pos != t
  }

  /** Each ticket is written at most once and read at most once, and only after its write. */
  ghost predicate LogOk<T>(log: seq<Event<T>>) {
    && (forall i: nat, j: nat :: i < j < |log| && log[i].Wrote? == log[j].Wrote? ==>
          log[i].ticket != log[j].ticket)
    && (forall j: nat :: j < |log| && log[j].Took? ==>
          Wrote(log[j].ticket, log[j].value) in log[..j])
  }

  ghost predicate Invariant<T>(s: State<T>) {
    && |s.slots| >= 2
    && |s.offered| == s.enqueuePos
    && s.dequeuePos <= s.enqueuePos
    && (forall i: nat :: i < |s.slots| ==> SlotOk(s, i))
    && (forall k: nat :: k < |s.threads| ==> ThreadOk(s, k))
    && Exclusive(s)
    && ReleasedOk(s)
    && (forall e :: e in s.log ==> EventOk(s, e))
    && LogOk(s.log)
  }

  lemma InitInvariant<T>(n: nat, threadCount: nat)
    requires n >= 2
    ensures Invariant(Init<T>(n, threadCount))
  {
  }

  // ---------- Preservation, one kind of step at a time ----------

  /** A step that only moves one thread between states that own nothing. */
  lemma LocalStep<T>(s: State<T>, k: nat, pc: Pc<T>)
    requires Invariant(s) && k < |s.threads|
    requires !s.threads[k].Owns() && !pc.Owns()
    requires ThreadOk(At(s, k, pc), k)
    ensures Invariant(At(s, k, pc))
  {
    var s' := At(s, k, pc);
    forall i: nat | i < |s.slots| ensures SlotOk(s', i) {
      assert SlotOk(s, i);
    }
    forall j: nat | j < |s.threads| ensures ThreadOk(s', j) {
      assert ThreadOk(s, j);
    }
    forall e | e in s'.log ensures EventOk(s', e) {
      assert EventOk(s, e);
    }
    assert forall t: nat :: SlotOf(s', t) == SlotOf(s, t);
  }

  /** Where the enqueue position stands, its slot is writable for exactly that ticket. This is
  where two slots are needed: with one slot, "published for `pos - 1`" and "writable for `pos`"
  are the same sequence number. */
  lemma EnqueueSlotIsFree<T>(s: State<T>)
    requires Invariant(s) && SlotOf(s, s.enqueuePos).sequence >= s.enqueuePos
    ensures SlotOf(s, s.enqueuePos).sequence == s.enqueuePos
    ensures WritableFor(s, s.enqueuePos)
  {
    var n, pos := |s.slots|, s.enqueuePos;
    var i := Index(pos, n);
    var q := s.slots[i].sequence;
    assert SlotOk(s, i);
    if Index(q, n) == i && WritableFor(s, q) {
      if q > pos { SameSlotFarApart(pos, q, n); }
    } else {
      assert q - 1 < pos;
      SameSlotFarApart(q - 1, pos, n);
    }
  }

  lemma DequeueSlotIsFull<T>(s: State<T>)
    requires Invariant(s) && SlotOf(s, s.dequeuePos).sequence > s.dequeuePos
    ensures SlotOf(s, s.dequeuePos).sequence == s.dequeuePos + 1
    ensures ReadableFor(s, s.dequeuePos, SlotOf(s, s.dequeuePos).data)
  {
    var n, pos := |s.slots|, s.dequeuePos;
    var i := Index(pos, n);
    var q := s.slots[i].sequence;
    assert SlotOk(s, i);
    if Index(q, n) == i && WritableFor(s, q) {
      SameSlotFarApart(pos, q, n);
    } else if q - 1 > pos {
      SameSlotFarApart(pos, q - 1, n);
    }
  }

  /** Winning the enqueue compare-and-swap. */
  lemma EnqueueClaim<T>(s: State<T>, k: nat)
    requires Invariant(s) && k < |s.threads|
    requires s.threads[k].EnqueueCas? && s.threads[k].pos == s.enqueuePos
    ensures Invariant(Step(s, k, false))
  {
    hide SlotOk, Index;
    var pos, v := s.enqueuePos, s.threads[k].value;
    var s' := Step(s, k, false);
    assert s' == At(s, k, EnqueueWrite(v, pos)).(enqueuePos := pos + 1, offered := s.offered + [v]);
    assert ThreadOk(s, k);
    EnqueueSlotIsFree(s);
    forall i: nat | i < |s.slots| ensures SlotOk(s', i) {
      EnqueueClaimSlot(s, s', i);
    }
    forall j: nat | j < |s.threads| ensures ThreadOk(s', j) {
      assert ThreadOk(s, j);
    }
    ClaimIsExclusive(s, k);
    forall e | e in s'.log ensures EventOk(s', e) {
      assert EventOk(s, e);
    }
    assert forall t: nat :: SlotOf(s', t) == SlotOf(s, t);
  }

  lemma EnqueueClaimSlot<T>(s: State<T>, s': State<T>, i: nat)
    requires Invariant(s) && i < |s.slots|
    requires SlotOf(s, s.enqueuePos).sequence == s.enqueuePos && WritableFor(s, s.enqueuePos)
    requires s' == s.(enqueuePos := s.enqueuePos + 1, offered := s'.offered, threads := s'.threads)
    requires |s'.offered| == |s.offered| + 1 && s.offered <= s'.offered
    ensures SlotOk(s', i)
  {
    hide ThreadOk, EventOk, LogOk, Exclusive, ReleasedOk;
    var n, q := |s.slots|, s.slots[i].sequence;
    assert SlotOk(s, i);
    NextLap(q, n);
    if q > 0 {
      NextLap(q - 1, n);
      NeighboursDiffer(q - 1, n);
    }
  }

  /** Nobody owns the slot of the next ticket. */
  lemma ClaimIsExclusive<T>(s: State<T>, k: nat)
    requires Invariant(s) && SlotOf(s, s.enqueuePos).sequence == s.enqueuePos
    ensures forall j: nat :: j < |s.threads| && s.threads[j].Owns() ==>
      Index(s.threads[j].pos, |s.slots|) != Index(s.enqueuePos, |s.slots|)
  {
    hide SlotOk, EventOk, LogOk, ReleasedOk;
    forall j: nat | j < |s.threads| && s.threads[j].Owns()
      ensures Index(s.threads[j].pos, |s.slots|) != Index(s.enqueuePos, |s.slots|)
    {
      assert ThreadOk(s, j);
      if Index(s.threads[j].pos, |s.slots|) == Index(s.enqueuePos, |s.slots|) {
        SameSlotFarApart(s.threads[j].pos, s.enqueuePos, |s.slots|);
      }
    }
  }

  /** Winning the dequeue compare-and-swap. */
  lemma DequeueClaim<T>(s: State<T>, k: nat)
    requires Invariant(s) && k < |s.threads|
    requires s.threads[k].DequeueCas? && s.threads[k].pos == s.dequeuePos
    ensures Invariant(Step(s, k, false))
  {
    hide SlotOk, Index;
    var s' := Step(s, k, false);
    assert s' == At(s, k, DequeueTake(s.dequeuePos)).(dequeuePos := s.dequeuePos + 1);
    assert ThreadOk(s, k);
    DequeueSlotIsFull(s);
    forall i: nat | i < |s.slots| ensures SlotOk(s', i) {
      DequeueClaimSlot(s, s', i);
    }
    forall j: nat | j < |s.threads| ensures ThreadOk(s', j) {
      assert ThreadOk(s, j);
    }
    forall j: nat | j < |s.threads| && j != k && s.threads[j].Owns()
      ensures Index(s.threads[j].pos, |s.slots|) != Index(s.dequeuePos, |s.slots|)
    {
      assert ThreadOk(s, j);
      NeighboursDiffer(s.dequeuePos, |s.slots|);
    }
    forall e | e in s'.log ensures EventOk(s', e) {
      assert EventOk(s, e);
    }
    assert forall t: nat :: SlotOf(s', t) == SlotOf(s, t);
  }

  lemma DequeueClaimSlot<T>(s: State<T>, s': State<T>, i: nat)
    requires Invariant(s) && i < |s.slots|
    requires SlotOf(s, s.dequeuePos).sequence == s.dequeuePos + 1
    requires ReadableFor(s, s.dequeuePos, SlotOf(s, s.dequeuePos).data)
    requires s' == s.(dequeuePos := s.dequeuePos + 1, threads := s'.threads)
    ensures SlotOk(s', i)
  {
    var q := s.slots[i].sequence;
    assert SlotOk(s, i);
    if q > 0 {
      NextLap(q - 1, |s.slots|);
    }
  }

  /** Writing the data of an owned slot. */
  lemma WriteData<T>(s: State<T>, k: nat)
    requires Invariant(s) && k < |s.threads| && s.threads[k].EnqueueWrite?
    ensures Invariant(Step(s, k, false))
  {
    hide SlotOk, Index, Step;
    var n, pos, v := |s.slots|, s.threads[k].pos, s.threads[k].value;
    var s' := Step(s, k, false);
    WriteShape(s, k);
    assert ThreadOk(s, k);
    forall i: nat | i < n ensures SlotOk(s', i) {
      WrittenSlotOk(s, s', k, i);
    }
    forall j: nat | j < |s.threads| ensures ThreadOk(s', j) {
      assert ThreadOk(s, j);
    }
    OtherWriters(s, k);
    forall e | e in s.log ensures EventOk(s', e) && e != Wrote(pos, e.value) {
      assert EventOk(s, e);
    }
    assert forall t: nat :: SlotOf(s', t).sequence == SlotOf(s, t).sequence;
    LogAppend(s, s.log, Wrote(pos, v));
  }

  lemma WriteShape<T>(s: State<T>, k: nat)
    requires |s.slots| > 0 && k < |s.threads| && s.threads[k].EnqueueWrite?
    ensures var pos, v := s.threads[k].pos, s.threads[k].value;
      Step(s, k, false) == s.(slots := s.slots[Index(pos, |s.slots|) := SlotOf(s, pos).(data := Some(v))],
                              threads := s.threads[k := EnqueuePublish(v, pos)], log := s.log + [Wrote(pos, v)])
  {
    hide Index;
  }

  lemma WrittenSlotOk<T>(s: State<T>, s': State<T>, k: nat, i: nat)
    requires Invariant(s) && k < |s.threads| && s.threads[k].EnqueueWrite? && i < |s.slots|
    requires var pos, v := s.threads[k].pos, s.threads[k].value;
      s' == s.(slots := s.slots[Index(pos, |s.slots|) := SlotOf(s, pos).(data := Some(v))],
               threads := s'.threads, log := s.log + [Wrote(pos, v)])
    ensures SlotOk(s', i)
  {
    hide EventOk, LogOk, Exclusive, ReleasedOk;
    assert ThreadOk(s, k) && SlotOk(s, i);
    if i == Index(s.threads[k].pos, |s.slots|) {
      OwnedSlot(s, k);
    }
  }

  lemma OtherWriters<T>(s: State<T>, k: nat)
    requires Invariant(s) && k < |s.threads| && s.threads[k].Owns()
    ensures forall j: nat :: j < |s.threads| && j != k && s.threads[j].Owns() ==>
      s.threads[j].pos != s.threads[k].pos
  {
  }

  lemma LogAppend<T>(s: State<T>, log: seq<Event<T>>, e: Event<T>)
    requires LogOk(log)
    requires forall i: nat :: i < |log| && log[i].Wrote? == e.Wrote? ==> log[i].ticket != e.ticket
    requires e.Took? ==> Wrote(e.ticket, e.value) in log
    ensures LogOk(log + [e])
  {
    var log' := log + [e];
    forall j: nat | j < |log'| && log'[j].Took?
      ensures Wrote(log'[j].ticket, log'[j].value) in log'[..j]
    {
      if j < |log| {
        assert log'[..j] == log[..j];
      } else {
        assert log'[..j] == log;
      }
    }
  }

  /** The slot of an owning thread is in the phase of the thread's ticket. */
  lemma OwnedSlot<T>(s: State<T>, k: nat)
    requires Invariant(s) && k < |s.threads| && s.threads[k].Owns()
    ensures var pos, slot := s.threads[k].pos, SlotOf(s, s.threads[k].pos);
      if s.threads[k].Producing() then slot.sequence == pos && WritableFor(s, pos)
      else slot.sequence == pos + 1 && ReadableFor(s, pos, slot.data)
  {
    var n, pos := |s.slots|, s.threads[k].pos;
    assert ThreadOk(s, k);
    assert SlotOk(s, Index(pos, n));
    NeighboursDiffer(pos, n);
    if pos > 0 {
      NeighboursDiffer(pos - 1, n);
    }
  }

  /** The step that publishes the next sequence number of the owned slot. */
  ghost predicate Published<T>(s: State<T>, s': State<T>, k: nat)
    requires |s.slots| > 0 && k < |s.threads| && (s.threads[k].EnqueuePublish? || s.threads[k].DequeueRelease?)
  {
    var n, pos, produced := |s.slots|, s.threads[k].pos, s.threads[k].EnqueuePublish?;
    var slot := SlotOf(s, pos).(sequence := if produced then pos + 1 else pos + n);
    && s' == s.(slots := s.slots[Index(pos, n) := slot], threads := s'.threads,
                released := if produced then s.released else s.released + {pos})
    && |s'.threads| == |s.threads| && s'.threads == s.threads[k := s'.threads[k]]
    && (s'.threads[k].EnqueueDone? || s'.threads[k].DequeueDone?)
  }

  lemma PublishShape<T>(s: State<T>, k: nat)
    requires |s.slots| > 0 && k < |s.threads| && (s.threads[k].EnqueuePublish? || s.threads[k].DequeueRelease?)
    ensures Published(s, Step(s, k, false), k)
  {
    hide Index;
  }

  /** Publishing the next sequence number of the owned slot: a producer makes ticket `pos`
  readable, a consumer hands the slot to ticket `pos + n`. */
  lemma PublishSlot<T>(s: State<T>, k: nat)
    requires Invariant(s) && k < |s.threads|
    requires s.threads[k].EnqueuePublish? || s.threads[k].DequeueRelease?
    ensures Invariant(Step(s, k, false))
  {
    hide Step, SlotOk, ThreadOk, Index, ReleasedOk;
    var s' := Step(s, k, false);
    PublishShape(s, k);
    forall i: nat | i < |s.slots| ensures SlotOk(s', i) {
      PublishedSlotOk(s, s', k, i);
    }
    forall j: nat | j < |s.threads| ensures ThreadOk(s', j) {
      PublishedThreadOk(s, s', k, j);
    }
    forall e | e in s'.log ensures EventOk(s', e) {
      assert EventOk(s, e);
    }
    PublishReleases(s, s', k);
  }

  lemma PublishedSlotOk<T>(s: State<T>, s': State<T>, k: nat, i: nat)
    requires Invariant(s) && k < |s.threads| && i < |s.slots|
    requires (s.threads[k].EnqueuePublish? || s.threads[k].DequeueRelease?) && Published(s, s', k)
    ensures SlotOk(s', i)
  {
    hide EventOk, LogOk, Exclusive, ReleasedOk;
    var n, pos := |s.slots|, s.threads[k].pos;
    assert ThreadOk(s, k) && SlotOk(s, i);
    if i == Index(pos, n) {
      OwnedSlot(s, k);
      NextLap(pos, n);
    }
  }

  lemma PublishedThreadOk<T>(s: State<T>, s': State<T>, k: nat, j: nat)
    requires Invariant(s) && k < |s.threads| && j < |s.threads|
    requires (s.threads[k].EnqueuePublish? || s.threads[k].DequeueRelease?) && Published(s, s', k)
    ensures ThreadOk(s', j)
  {
    hide SlotOk, EventOk, LogOk, ReleasedOk;
    assert ThreadOk(s, j) && ThreadOk(s, k);
    NextLap(s.threads[k].pos, |s.slots|);
    NeighboursDiffer(s.threads[k].pos, |s.slots|);
  }

  lemma PublishReleases<T>(s: State<T>, s': State<T>, k: nat)
    requires Invariant(s) && k < |s.threads|
    requires (s.threads[k].EnqueuePublish? || s.threads[k].DequeueRelease?) && Published(s, s', k)
    ensures ReleasedOk(s')
  {
    hide SlotOk, EventOk, LogOk, Exclusive;
    var n, pos := |s.slots|, s.threads[k].pos;
    assert ThreadOk(s, k);
    forall t: nat ensures t in s'.released <==> SlotOf(s', t).sequence >= t + n {
      if Index(t, n) == Index(pos, n) {
        if t < pos {
          SameSlotFarApart(t, pos, n);
        } else if t > pos {
          SameSlotFarApart(pos, t, n);
        }
      } else {
        assert SlotOf(s', t) == SlotOf(s, t);
      }
    }
  }

  /** Moving the value out of an owned slot. */
  lemma TakeData<T>(s: State<T>, k: nat)
    requires Invariant(s) && k < |s.threads| && s.threads[k].DequeueTake?
    ensures Invariant(Step(s, k, false))
  {
    var s' := Step(s, k, false);
    assert ThreadOk(s, k);
    forall i: nat | i < |s.slots| ensures SlotOk(s', i) {
      TakenSlotOk(s, k, i);
    }
    forall j: nat | j < |s.threads| ensures ThreadOk(s', j) {
      TakenThreadOk(s, k, j);
    }
    TakeEvents(s, k);
    assert forall t: nat :: SlotOf(s', t).sequence == SlotOf(s, t).sequence;
  }

  lemma TakenSlotOk<T>(s: State<T>, k: nat, i: nat)
    requires Invariant(s) && k < |s.threads| && s.threads[k].DequeueTake? && i < |s.slots|
    ensures SlotOk(Step(s, k, false), i)
  {
    hide EventOk, LogOk, Exclusive, ReleasedOk;
    assert ThreadOk(s, k);
    if i == Index(s.threads[k].pos, |s.slots|) {
      OwnedSlot(s, k);
    } else {
      assert SlotOk(s, i);
    }
  }

  lemma TakenThreadOk<T>(s: State<T>, k: nat, j: nat)
    requires Invariant(s) && k < |s.threads| && s.threads[k].DequeueTake? && j < |s.threads|
    ensures ThreadOk(Step(s, k, false), j)
  {
    assert ThreadOk(s, k) && ThreadOk(s, j);
  }

  lemma TakeEvents<T>(s: State<T>, k: nat)
    requires Invariant(s) && k < |s.threads| && s.threads[k].DequeueTake?
    ensures var s' := Step(s, k, false); LogOk(s'.log) && forall e :: e in s'.log ==> EventOk(s', e)
  {
    hide SlotOk, Index, LogOk;
    assert ThreadOk(s, k);
    var pos, v := s.threads[k].pos, s.offered[s.threads[k].pos];
    var s' := Step(s, k, false);
    OwnedSlot(s, k);
    OtherWriters(s, k);
    forall e | e in s.log ensures EventOk(s', e) && e != Took(pos, e.value) {
      assert EventOk(s, e);
    }
    LogAppend(s, s.log, Took(pos, v));
  }

  /** Every atomic action keeps the invariant. */
  lemma ApplyInvariant<T>(s: State<T>, m: Move<T>)
    requires Invariant(s)
    ensures Invariant(Apply(s, m))
  {
    if m.tid < |s.threads| {
      var pc := s.threads[m.tid];
      assert ThreadOk(s, m.tid);
      match m.action
      case Enqueue(v) =>
        if pc.Idle? { LocalStep(s, m.tid, EnqueueLoadPos(v)); }
      case Dequeue =>
        if pc.Idle? { LocalStep(s, m.tid, DequeueLoadPos); }
      case Return =>
        if pc.EnqueueDone? || pc.DequeueDone? { LocalStep(s, m.tid, Idle); }
      case Advance(spurious) => StepInvariant(s, m.tid, spurious);
    }
  }

  lemma StepInvariant<T>(s: State<T>, k: nat, spurious: bool)
    requires Invariant(s) && k < |s.threads|
    ensures Invariant(Step(s, k, spurious))
  {
    hide Invariant, Step;
    HasSlots(s);
    match s.threads[k]
    case EnqueueCas(_, pos) =>
      if pos == s.enqueuePos && !spurious {
        EnqueueClaim(s, k);
      } else {
        FailedCas(s, k, spurious);
      }
    case DequeueCas(pos) =>
      if pos == s.dequeuePos && !spurious {
        DequeueClaim(s, k);
      } else {
        FailedCas(s, k, spurious);
      }
    case _ =>
      OnlyCasFails(s, k, spurious);
      SureStep(s, k);
  }

  lemma HasSlots<T>(s: State<T>)
    requires Invariant(s)
    ensures |s.slots| >= 2
  {
  }

  lemma OnlyCasFails<T>(s: State<T>, k: nat, spurious: bool)
    requires |s.slots| > 0 && k < |s.threads| && !s.threads[k].EnqueueCas? && !s.threads[k].DequeueCas?
    ensures Step(s, k, spurious) == Step(s, k, false)
  {
  }

  lemma FailedCas<T>(s: State<T>, k: nat, spurious: bool)
    requires Invariant(s) && k < |s.threads|
    requires
      || (s.threads[k].EnqueueCas? && (spurious || s.threads[k].pos != s.enqueuePos))
      || (s.threads[k].DequeueCas? && (spurious || s.threads[k].pos != s.dequeuePos))
    ensures Invariant(Step(s, k, spurious))
  {
    hide SlotOk, EventOk, LogOk, Exclusive, ReleasedOk;
    if s.threads[k].EnqueueCas? {
      LocalStep(s, k, EnqueueLoadSeq(s.threads[k].value, s.enqueuePos));
    } else {
      LocalStep(s, k, DequeueLoadSeq(s.dequeuePos));
    }
  }

  lemma SureStep<T>(s: State<T>, k: nat)
    requires Invariant(s) && k < |s.threads| && !s.threads[k].EnqueueCas? && !s.threads[k].DequeueCas?
    ensures Invariant(Step(s, k, false))
  {
    hide Invariant;
    HasSlots(s);
    match s.threads[k]
    case Idle =>
    case EnqueueDone(_) =>
    case DequeueDone(_) =>
    case EnqueueWrite(_, _) => WriteData(s, k);
    case EnqueuePublish(_, _) => PublishSlot(s, k);
    case DequeueRelease(_, _) => PublishSlot(s, k);
    case DequeueTake(_) => TakeData(s, k);
    case _ => LoadStep(s, k);
  }

  /** Loading a position or a sequence number. */
  lemma LoadStep<T>(s: State<T>, k: nat)
    requires Invariant(s) && k < |s.threads|
    requires var pc := s.threads[k]; pc.EnqueueLoadPos? || pc.EnqueueLoadSeq? || pc.DequeueLoadPos? || pc.DequeueLoadSeq?
    ensures Invariant(Step(s, k, false))
  {
    hide SlotOk, EventOk, LogOk, Exclusive, ReleasedOk;
    assert ThreadOk(s, k);
    LocalStep(s, k, Step(s, k, false).threads[k]);
  }

  lemma {:induction false} RunInvariant<T>(s: State<T>, moves: seq<Move<T>>)
    requires Invariant(s)
    ensures Invariant(Run(s, moves))
  {
    if moves != [] {
      RunInvariant(s, moves[..|moves| - 1]);
      ApplyInvariant(Run(s, moves[..|moves| - 1]), moves[|moves| - 1]);
    }
  }

  // ---------- Main results ----------

  /** What a reader of the queue may rely on, in terms of the history alone. */
  ghost predicate Safe<T>(s: State<T>)
    requires |s.slots| > 0
  {
    && LogOk(s.log)
    && Exclusive(s)
    && (forall t: nat :: t in s.released ==> t < |s.offered|)
    && |s.offered| - |s.released| <= |s.slots|
    && (forall e :: e in s.log ==> e.ticket < |s.offered| && e.value == s.offered[e.ticket])
  }

  /** Every run over at least two slots is safe, whatever the number of threads. */
  lemma EveryRunIsSafe<T>(n: nat, threadCount: nat, moves: seq<Move<T>>)
    requires n >= 2
    ensures Safe(Run(Init<T>(n, threadCount), moves))
  {
    var s := Run(Init<T>(n, threadCount), moves);
    InitInvariant<T>(n, threadCount);
    RunInvariant(Init<T>(n, threadCount), moves);
    assert forall e :: e in s.log ==> EventOk(s, e);
    forall t: nat | t in s.released ensures t < |s.offered| {
      ReleasedWasOffered(s, t);
    }
    Occupancy(s);
  }

  lemma ReleasedWasOffered<T>(s: State<T>, t: nat)
    requires Invariant(s) && t in s.released
    ensures t < s.enqueuePos && t < s.dequeuePos
  {
    var i := Index(t, |s.slots|);
    var q := s.slots[i].sequence;
    assert SlotOk(s, i);
    if q > 0 && Index(q - 1, |s.slots|) == i && q - 1 > t {
      SameSlotFarApart(t, q - 1, |s.slots|);
    }
    NeighboursDiffer(t, |s.slots|);
  }

  /** At most one unreleased ticket a slot. */
  lemma UnreleasedIsLast<T>(s: State<T>, t: nat)
    requires Invariant(s) && t < s.enqueuePos && t !in s.released
    ensures s.enqueuePos <= t + |s.slots|
  {
    var n, i := |s.slots|, Index(t, |s.slots|);
    var q := s.slots[i].sequence;
    assert SlotOk(s, i);
    assert q < t + n;
    if Index(q, n) == i && WritableFor(s, q) {
      if q > t {
        SameSlotFarApart(t, q, n);
      }
    } else if q - 1 > t {
      SameSlotFarApart(t, q - 1, n);
    }
  }

  lemma Occupancy<T>(s: State<T>)
    requires Invariant(s)
    ensures s.enqueuePos - |s.released| <= |s.slots|
  {
    var n := |s.slots|;
    if s.enqueuePos > n {
      var early := Below(s.enqueuePos - n);
      forall t | t in early ensures t in s.released {
        if t !in s.released {
          UnreleasedIsLast(s, t);
        }
      }
      SubsetSize(early, s.released);
    }
  }

  function Below(n: nat): (tickets: set<nat>)
    ensures |tickets| == n && forall t: nat :: t in tickets <==> t < n
  {
    if n == 0 then {} else Below(n - 1) + {n - 1}
  }

  lemma {:induction false} SubsetSize<T>(a: set<T>, b: set<T>)
    requires a <= b
    ensures |a| <= |b|
  {
    if a != {} {
      var x :| x in a;
      SubsetSize(a - {x}, b - {x});
    }
  }

  /** The queue that callers see: offered but not yet claimed by a consumer. */
  function Pending<T>(s: State<T>): seq<T>
    requires s.dequeuePos <= s.enqueuePos == |s.offered|
  {
    s.offered[s.dequeuePos..]
  }

  datatype QueueEffect<T> = Push(value: T) | Pop(thread: nat) | NoEffect

  /** The effect of a move on an abstract first-in first-out queue: a won compare-and-swap. */
  function Effect<T>(s: State<T>, m: Move<T>): QueueEffect<T> {
    if m.tid >= |s.threads| || !m.action.Advance? || m.action.spurious then NoEffect
    else match s.threads[m.tid]
      case EnqueueCas(v, pos) => if pos == s.enqueuePos then Push(v) else NoEffect
      case DequeueCas(pos) => if pos == s.dequeuePos then Pop(m.tid) else NoEffect
      case _ => NoEffect
  }

  lemma OfferedGrows<T>(s: State<T>, m: Move<T>)
    requires |s.slots| > 0
    ensures s.offered <= Apply(s, m).offered
  {
    hide Index;
  }

  /** Every move is a push, a pop of the oldest value, or invisible. */
  lemma RefinesFifo<T>(s: State<T>, m: Move<T>)
    requires Invariant(s)
    ensures Invariant(Apply(s, m))
    ensures match Effect(s, m)
      case Push(v) => Pending(Apply(s, m)) == Pending(s) + [v]
      case Pop(k) =>
        && Pending(s) != [] && Pending(Apply(s, m)) == Pending(s)[1..]
        && k < |s.threads| && Apply(s, m).threads[k] == DequeueTake(s.dequeuePos)
        && Apply(s, m).offered[s.dequeuePos] == Pending(s)[0]
      case NoEffect => Pending(Apply(s, m)) == Pending(s)
    ensures s.offered <= Apply(s, m).offered
  {
    ApplyInvariant(s, m);
    if Effect(s, m).Pop? {
      assert ThreadOk(s, m.tid);
      DequeueSlotIsFull(s);
    }
    FifoMove(s, m);
    HasSlots(s);
    OfferedGrows(s, m);
  }

  lemma FifoMove<T>(s: State<T>, m: Move<T>)
    requires |s.slots| > 0 && s.dequeuePos <= s.enqueuePos == |s.offered|
    requires Apply(s, m).dequeuePos <= Apply(s, m).enqueuePos == |Apply(s, m).offered|
    requires Effect(s, m).Pop? ==> s.dequeuePos < s.enqueuePos
    ensures match Effect(s, m)
      case Push(v) => Pending(Apply(s, m)) == Pending(s) + [v]
      case Pop(k) =>
        && Pending(s) != [] && Pending(Apply(s, m)) == Pending(s)[1..]
        && k < |s.threads| && Apply(s, m).threads[k] == DequeueTake(s.dequeuePos)
        && Apply(s, m).offered[s.dequeuePos] == Pending(s)[0]
      case NoEffect => Pending(Apply(s, m)) == Pending(s)
  {
  }

  /** Where a thread stands that won ticket `t`, until it returns: it will take the value `v`, holds it,
  or is about to return it. */
  ghost predicate BoundTo<T>(pc: Pc<T>, t: nat, v: T) {
    pc == DequeueTake(t) || pc == DequeueRelease(t, v) || pc == DequeueDone(Some(v))
  }

  ghost predicate NoReturn<T>(moves: seq<Move<T>>, k: nat) {
    forall i :: 0 <= i < |moves| ==> !(moves[i].tid == k && moves[i].action.Return?)
  }

  lemma BoundStays<T>(s: State<T>, m: Move<T>, k: nat, t: nat, v: T)
    requires Invariant(s) && k < |s.threads| && BoundTo(s.threads[k], t, v)
    requires t < |s.offered| && s.offered[t] == v && !(m.tid == k && m.action.Return?)
    ensures BoundTo(Apply(s, m).threads[k], t, v)
  {
    hide SlotOk, EventOk, LogOk, Exclusive, ReleasedOk;
    assert ThreadOk(s, k);
  }

  /** On every run: a thread that won ticket `t` stays bound to the value offered under `t` until it
  returns, so that this is the value it returns. */
  lemma {:induction false} TicketIsKept<T>(s: State<T>, k: nat, t: nat, moves: seq<Move<T>>)
    requires Invariant(s) && k < |s.threads| && s.threads[k] == DequeueTake(t) && NoReturn(moves, k)
    ensures t < |s.offered| && s.offered <= Run(s, moves).offered
    ensures BoundTo(Run(s, moves).threads[k], t, s.offered[t])
  {
    hide Invariant, Apply, BoundTo;
    HasSlots(s);
    TicketWasOffered(s, k);
    if moves == [] {
      BoundAtFirst(t, s.offered[t]);
    } else {
      var front, last := moves[..|moves| - 1], moves[|moves| - 1];
      TicketIsKept(s, k, t, front);
      RunInvariant(s, front);
      BoundStays(Run(s, front), last, k, t, s.offered[t]);
      OfferedGrows(Run(s, front), last);
    }
  }

  lemma BoundAtFirst<T>(t: nat, v: T)
    ensures BoundTo(DequeueTake(t), t, v)
  {
  }

  lemma TicketWasOffered<T>(s: State<T>, k: nat)
    requires Invariant(s) && k < |s.threads| && s.threads[k].DequeueTake?
    ensures s.threads[k].pos < |s.offered|
  {
    assert ThreadOk(s, k);
  }

  /** A thread whose move popped the queue returns the value that was its head at that moment, whatever
  the other threads do in between. */
  lemma PopReturnsHead<T>(s: State<T>, m: Move<T>, moves: seq<Move<T>>)
    requires Invariant(s) && Effect(s, m).Pop? && NoReturn(moves, Effect(s, m).thread)
    ensures s.dequeuePos < s.enqueuePos == |s.offered|
    ensures var pc := Run(Apply(s, m), moves).threads[m.tid];
      BoundTo(pc, s.dequeuePos, Pending(s)[0]) && (pc.DequeueDone? ==> pc.result == Some(Pending(s)[0]))
  {
    hide Invariant, Apply, Run;
    RefinesFifo(s, m);
    PopIsInside(s, m);
    TicketIsKept(Apply(s, m), m.tid, s.dequeuePos, moves);
  }

  lemma PopIsInside<T>(s: State<T>, m: Move<T>)
    requires Invariant(s) && Effect(s, m).Pop?
    ensures |s.slots| > 0 && m.tid < |s.threads| && s.dequeuePos < s.enqueuePos == |s.offered|
  {
    assert ThreadOk(s, m.tid);
    DequeueSlotIsFull(s);
  }

  /** The value a consumer holds is the one offered under its ticket; with `RefinesFifo` it is the
  head of the queue at the moment the ticket was claimed. */
  lemma ConsumerHoldsItsTicket<T>(n: nat, threadCount: nat, moves: seq<Move<T>>, k: nat)
    requires n >= 2 && k < threadCount
    ensures var s := Run(Init<T>(n, threadCount), moves);
      s.threads[k].Consuming() ==>
        && s.threads[k].pos < |s.offered|
        && (s.threads[k].DequeueRelease? ==> s.threads[k].value == s.offered[s.threads[k].pos])
        && (s.threads[k].DequeueTake? ==>
              SlotOf(s, s.threads[k].pos).data == Some(s.offered[s.threads[k].pos]))
  {
    var s := Run(Init<T>(n, threadCount), moves);
    InitInvariant<T>(n, threadCount);
    RunInvariant(Init<T>(n, threadCount), moves);
    assert ThreadOk(s, k);
  }

  // ---------- One slot is not enough ----------

  /** One producer, from an idle thread to a won ticket, and from there back to idle. */
  function ClaimMoves<T>(v: T): seq<Move<T>> {
    [Move(0, Enqueue(v)), Move(0, Advance(false)), Move(0, Advance(false)), Move(0, Advance(false))]
  }

  function FinishMoves<T>(): seq<Move<T>> {
    [Move(0, Advance(false)), Move(0, Advance(false)), Move(0, Return)]
  }

  function EnqueueMoves<T>(v: T): seq<Move<T>> {
    ClaimMoves(v) + FinishMoves()
  }

  lemma {:induction false} RunAppend<T>(s: State<T>, a: seq<Move<T>>, b: seq<Move<T>>)
    requires |s.slots| > 0
    ensures Run(s, a + b) == Run(Run(s, a), b)
  {
    if b == [] {
      assert a + b == a;
    } else {
      var front, last := b[..|b| - 1], b[|b| - 1];
      RunAppend(s, a, front);
      assert (a + b)[..|a + b| - 1] == a + front;
    }
  }

  lemma RunNext<T>(s: State<T>, moves: seq<Move<T>>, m: Move<T>)
    requires |s.slots| > 0
    ensures Run(s, moves + [m]) == Apply(Run(s, moves), m)
  {
    hide Apply;
    assert (moves + [m])[..|moves|] == moves;
  }

  lemma RunThree<T>(s: State<T>, a: Move<T>, b: Move<T>, c: Move<T>)
    requires |s.slots| > 0
    ensures Run(s, [a, b, c]) == Apply(Apply(Apply(s, a), b), c)
  {
    hide Apply;
    assert [] + [a] == [a] && [a] + [b] == [a, b] && [a, b] + [c] == [a, b, c];
    RunNext(s, [], a);
    RunNext(s, [a], b);
    RunNext(s, [a, b], c);
  }

  lemma RunFour<T>(s: State<T>, a: Move<T>, b: Move<T>, c: Move<T>, d: Move<T>)
    requires |s.slots| > 0
    ensures Run(s, [a, b, c, d]) == Apply(Apply(Apply(Apply(s, a), b), c), d)
  {
    hide Apply, Run;
    assert [a, b, c] + [d] == [a, b, c, d];
    RunThree(s, a, b, c);
    RunNext(s, [a, b, c], d);
  }

  lemma AtTwice<T>(s: State<T>, k: nat, first: Pc<T>, second: Pc<T>)
    requires k < |s.threads|
    ensures At(At(s, k, first), k, second) == At(s, k, second)
  {
  }

  lemma ReachCas<T>(s: State<T>, v: T)
    requires |s.slots| == 1 && |s.threads| > 0 && s.threads[0].Idle?
    requires s.slots[0].sequence == s.enqueuePos
    ensures Apply(Apply(Apply(s, Move(0, Enqueue(v))), Move(0, Advance(false))), Move(0, Advance(false)))
      == At(s, 0, EnqueueCas(v, s.enqueuePos))
  {
    var pos := s.enqueuePos;
    IndexBelowOne(pos);
    AtTwice(s, 0, EnqueueLoadPos(v), EnqueueLoadSeq(v, pos));
    AtTwice(s, 0, EnqueueLoadSeq(v, pos), EnqueueCas(v, pos));
    assert Step(At(s, 0, EnqueueLoadPos(v)), 0, false) == At(s, 0, EnqueueLoadSeq(v, pos));
    assert Step(At(s, 0, EnqueueLoadSeq(v, pos)), 0, false) == At(s, 0, EnqueueCas(v, pos));
  }

  lemma ClaimOnOneSlot<T>(s: State<T>, v: T)
    requires |s.slots| == 1 && |s.threads| > 0 && s.threads[0].Idle?
    requires s.slots[0].sequence == s.enqueuePos
    ensures Run(s, ClaimMoves(v)) ==
      At(s, 0, EnqueueWrite(v, s.enqueuePos))
        .(enqueuePos := s.enqueuePos + 1, offered := s.offered + [v])
  {
    ReachCas(s, v);
    AtTwice(s, 0, EnqueueCas(v, s.enqueuePos), EnqueueWrite(v, s.enqueuePos));
    RunFour(s, Move(0, Enqueue(v)), Move(0, Advance(false)), Move(0, Advance(false)), Move(0, Advance(false)));
  }

  lemma FinishOnOneSlot<T>(s: State<T>)
    requires |s.slots| == 1 && |s.threads| > 0 && s.threads[0].EnqueueWrite?
    requires s.slots[0].sequence == s.threads[0].pos
    ensures var r := Run(s, FinishMoves());
      && r.threads == s.threads[0 := Idle] && r.released == s.released && r.offered == s.offered
      && r.enqueuePos == s.enqueuePos && r.slots[0].sequence == s.threads[0].pos + 1
  {
    hide Run;
    var pos, v := s.threads[0].pos, s.threads[0].value;
    IndexBelowOne(pos);
    var s1 := Step(s, 0, false);
    assert s1.threads == s.threads[0 := EnqueuePublish(v, pos)];
    assert s1.slots[0].sequence == pos;
    var s2 := Step(s1, 0, false);
    assert s2.threads == s.threads[0 := EnqueueDone(true)];
    RunThree<T>(s, Move(0, Advance(false)), Move(0, Advance(false)), Move(0, Return));
  }

  /** On one slot an enqueue succeeds although the previous value was never read. */
  lemma EnqueueOnOneSlot<T>(s: State<T>, v: T)
    requires |s.slots| == 1 && |s.threads| > 0 && s.threads[0].Idle?
    requires s.slots[0].sequence == s.enqueuePos
    ensures var r := Run(s, EnqueueMoves(v));
      && r.threads == s.threads && r.released == s.released && r.offered == s.offered + [v]
      && r.enqueuePos == s.enqueuePos + 1 == r.slots[0].sequence
  {
    ClaimOnOneSlot(s, v);
    var claimed := Run(s, ClaimMoves(v));
    FinishOnOneSlot(claimed);
    RunAppend(s, ClaimMoves(v), FinishMoves());
    assert claimed.threads[0 := Idle] == s.threads;
  }

  lemma {:induction false} IndexBelowOne(pos: nat)
    ensures Index(pos, 1) == 0
  {
    if pos > 0 {
      IndexBelowOne(pos - 1);
    }
  }

  /** Two slots are exactly what safety needs. With one slot, two enqueues in a row both succeed
  and the second overwrites the first, so two tickets are outstanding on one slot. */
  lemma SafeExactlyWithTwoSlots<T(!new)>(n: nat, threadCount: nat, v: T)
    requires n > 0 && threadCount > 0
    ensures (forall moves: seq<Move<T>> :: Safe(Run(Init<T>(n, threadCount), moves))) <==> n >= 2
  {
    if n >= 2 {
      forall moves: seq<Move<T>> ensures Safe(Run(Init<T>(n, threadCount), moves)) {
        EveryRunIsSafe(n, threadCount, moves);
      }
    } else {
      var s := Init<T>(1, threadCount);
      var twice := EnqueueMoves(v) + EnqueueMoves(v);
      EnqueueOnOneSlot(s, v);
      EnqueueOnOneSlot(Run(s, EnqueueMoves(v)), v);
      RunAppend(s, EnqueueMoves(v), EnqueueMoves(v));
      assert !Safe(Run(Init<T>(n, threadCount), twice));
    }
  }

  // ---------- Every claimed ticket is looked after ----------

  /** A claimed ticket that is not yet readable has a producer at work on it. */
  ghost predicate OwnersPresent<T>(s: State<T>)
    requires |s.slots| > 0
  {
    forall t: nat :: t < s.enqueuePos && SlotOf(s, t).sequence == t ==> HasOwner(s, t)
  }

  ghost predicate HasOwner<T>(s: State<T>, t: nat) {
    exists k: nat :: k < |s.threads| && s.threads[k].Producing() && s.threads[k].pos == t
  }

  /** Only the owner of a ticket can make it readable, and it stays its owner until then. */
  lemma StepOwner<T>(s: State<T>, k: nat, spurious: bool, t: nat, s': State<T>)
    requires Invariant(s) && k < |s.threads| && s' == Step(s, k, spurious)
    requires t < s.enqueuePos && SlotOf(s', t).sequence == t
    ensures SlotOf(s, t).sequence == t
    ensures forall j: nat :: j < |s.threads| && j != k ==> s'.threads[j] == s.threads[j]
    ensures s.threads[k].Producing() && s.threads[k].pos == t ==> s'.threads[k].Producing() && s'.threads[k].pos == t
  {
    hide LogOk, EventOk, SlotOk, Exclusive, ReleasedOk;
    assert ThreadOk(s, k);
    if s.threads[k].Owns() {
      OwnedSlot(s, k);
      NeighboursDiffer(s.threads[k].pos, |s.slots|);
    }
  }

  lemma ApplyOwners<T>(s: State<T>, m: Move<T>)
    requires Invariant(s) && OwnersPresent(s)
    ensures OwnersPresent(Apply(s, m))
  {
    var s' := Apply(s, m);
    forall t: nat | t < s'.enqueuePos && SlotOf(s', t).sequence == t ensures HasOwner(s', t) {
      MoveOwner(s, m, t, s');
    }
  }

  lemma MoveOwner<T>(s: State<T>, m: Move<T>, t: nat, s': State<T>)
    requires Invariant(s) && OwnersPresent(s) && s' == Apply(s, m)
    requires t < s'.enqueuePos && SlotOf(s', t).sequence == t
    ensures HasOwner(s', t)
  {
    hide Step, Invariant;
    if t >= s.enqueuePos {
      NewOwner(s, m, t, s');
    } else if m.tid < |s.threads| && m.action.Advance? {
      StepOwner(s, m.tid, m.action.spurious, t, s');
      OwnerAt(s, t, s', m.tid);
    } else {
      assert HasOwner(s, t);
      if m.tid < |s.threads| {
        OwnerAt(s, t, s', m.tid);
      }
    }
  }

  lemma OwnerAt<T>(s: State<T>, t: nat, s': State<T>, k: nat)
    requires HasOwner(s, t) && |s'.threads| == |s.threads| && k < |s.threads|
    requires forall j: nat :: j < |s.threads| && j != k ==> s'.threads[j] == s.threads[j]
    requires s.threads[k].Producing() && s.threads[k].pos == t ==> s'.threads[k].Producing() && s'.threads[k].pos == t
    ensures HasOwner(s', t)
  {
    var j: nat :| j < |s.threads| && s.threads[j].Producing() && s.threads[j].pos == t;
    assert s'.threads[j].Producing() && s'.threads[j].pos == t;
  }

  lemma NewOwner<T>(s: State<T>, m: Move<T>, t: nat, s': State<T>)
    requires |s.slots| > 0 && s' == Apply(s, m) && s.enqueuePos <= t < s'.enqueuePos
    ensures HasOwner(s', t)
  {
    assert s'.threads[m.tid].Producing() && s'.threads[m.tid].pos == t;
  }

  lemma InitOwners<T>(n: nat, threadCount: nat)
    requires n > 0
    ensures OwnersPresent(Init<T>(n, threadCount))
  {
  }

  lemma {:induction false} RunOwners<T>(s: State<T>, moves: seq<Move<T>>)
    requires Invariant(s) && OwnersPresent(s)
    ensures Invariant(Run(s, moves)) && OwnersPresent(Run(s, moves))
  {
    hide Invariant, OwnersPresent, Apply;
    HasSlots(s);
    if moves != [] {
      var front, last := moves[..|moves| - 1], moves[|moves| - 1];
      RunOwners(s, front);
      ApplyInvariant(Run(s, front), last);
      ApplyOwners(Run(s, front), last);
    }
  }

  ghost predicate Quiet<T>(s: State<T>) {
    forall k: nat :: k < |s.threads| ==> !s.threads[k].Producing()
  }

  /** On every run: while no producer is at work, the oldest pending ticket is readable, so that a
  dequeue reports an empty queue only when nothing is pending. */
  lemma QuietQueueIsReadable<T>(n: nat, threadCount: nat, moves: seq<Move<T>>)
    requires n >= 2
    ensures var s := Run(Init<T>(n, threadCount), moves);
      s.dequeuePos < s.enqueuePos && Quiet(s) ==> SlotOf(s, s.dequeuePos).sequence > s.dequeuePos
  {
    hide Invariant, OwnersPresent;
    var s := Run(Init<T>(n, threadCount), moves);
    InitInvariant<T>(n, threadCount);
    InitOwners<T>(n, threadCount);
    RunOwners(Init<T>(n, threadCount), moves);
    if s.dequeuePos < s.enqueuePos && Quiet(s) {
      OldestIsReadable(s);
    }
  }

  lemma OldestIsReadable<T>(s: State<T>)
    requires Invariant(s) && OwnersPresent(s) && s.dequeuePos < s.enqueuePos && Quiet(s)
    ensures SlotOf(s, s.dequeuePos).sequence > s.dequeuePos
  {
    var i, q := Index(s.dequeuePos, |s.slots|), SlotOf(s, s.dequeuePos).sequence;
    assert SlotOk(s, i);
    if 0 < q <= s.dequeuePos && Index(q - 1, |s.slots|) == i {
      SameSlotFarApart(q - 1, s.dequeuePos, |s.slots|);
    }
  }
}

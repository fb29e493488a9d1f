/** What a call of the ring answers, and that it ends: a thread that moves alone is through after six
actions, from any state that a run can reach and wherever inside the call it stands. */
module LockFreeQueueProgress {
  import opened Wrappers
  import opened LockFreeQueue
  import opened LockFreeQueueSafety

  /** A thread takes `n` actions while all others rest. */
  function Alone<T>(k: nat, n: nat): (moves: seq<Move<T>>)
    ensures |moves| == n && forall i :: 0 <= i < n ==> moves[i] == Move(k, Advance(false))
  {
    seq(n, i => Move(k, Advance(false)))
  }

  lemma FirstAlone<T>(s: State<T>, k: nat, n: nat)
    requires |s.slots| > 0 && k < |s.threads| && n > 0
    ensures Run(s, Alone(k, n)) == Run(Step(s, k, false), Alone(k, n - 1))
  {
    hide Run, Step, Apply;
    var first: seq<Move<T>> := [Move(k, Advance(false))];
    assert Alone<T>(k, n) == first + Alone<T>(k, n - 1);
    RunAppend(s, first, Alone(k, n - 1));
    RunOne(s, Move(k, Advance(false)));
    assert Apply(s, Move(k, Advance(false))) == Step(s, k, false) by {
      AdvanceIsStep(s, k);
    }
  }

  lemma AdvanceIsStep<T>(s: State<T>, k: nat)
    requires |s.slots| > 0 && k < |s.threads|
    ensures Apply(s, Move(k, Advance(false))) == Step(s, k, false)
  {
    hide Step;
  }

  lemma RunOne<T>(s: State<T>, m: Move<T>)
    requires |s.slots| > 0
    ensures Run(s, [m]) == Apply(s, m)
  {
    hide Apply;
    assert [m][..0] == [];
    assert Run(s, []) == s;
  }

  lemma {:induction false} AloneAfterEnd<T>(s: State<T>, k: nat, n: nat)
    requires |s.slots| > 0 && k < |s.threads| && (s.threads[k].EnqueueDone? || s.threads[k].DequeueDone?)
    ensures Run(s, Alone(k, n)) == s
  {
    hide Alone, Apply, Index, SlotOf, SetSlot;
    if n > 0 {
      FirstAlone(s, k, n);
      AloneAfterEnd(s, k, n - 1);
    }
  }

  // ---------- Enqueue ----------

  /** Inside `enqueueImpl`, before a ticket was won. */
  predicate Offering<T>(pc: Pc<T>) {
    pc.EnqueueLoadPos? || pc.EnqueueLoadSeq? || pc.EnqueueCas?
  }

  /** The ring with the value of thread `k` at its end, published. */
  ghost function Pushed<T>(s: State<T>, k: nat, v: T): State<T>
    requires |s.slots| > 0 && k < |s.threads|
  {
    var pos := s.enqueuePos;
    s.(enqueuePos := pos + 1, offered := s.offered + [v], log := s.log + [Wrote(pos, v)],
       slots := s.slots[Index(pos, |s.slots|) := Slot(pos + 1, Some(v))],
       threads := s.threads[k := EnqueueDone(true)])
  }

  /** What becomes of an enqueue that runs alone: the slot of the next ticket waits for it or it does not. */
  ghost function AfterEnqueue<T>(s: State<T>, k: nat, v: T): State<T>
    requires |s.slots| > 0 && k < |s.threads|
  {
    if SlotOf(s, s.enqueuePos).sequence == s.enqueuePos then Pushed(s, k, v) else At(s, k, EnqueueDone(false))
  }

  /** Actions left to an enqueue that runs alone. */
  function EnqueueActions<T>(s: State<T>, k: nat): nat
    requires k < |s.threads| && Offering(s.threads[k])
  {
    match s.threads[k]
    case EnqueueLoadPos(_) => 5
    case EnqueueLoadSeq(_, pos) => if pos == s.enqueuePos then 4 else 6
    case EnqueueCas(_, pos) => if pos == s.enqueuePos then 3 else 5
  }

  lemma PublishLast<T>(s: State<T>, k: nat, n: nat)
    requires |s.slots| > 0 && k < |s.threads| && s.threads[k].EnqueuePublish? && n >= 1
    ensures var pos := s.threads[k].pos;
      Run(s, Alone(k, n)) == At(SetSlot(s, pos, SlotOf(s, pos).(sequence := pos + 1)), k, EnqueueDone(true))
  {
    hide Run, Index, Alone, SlotOf;
    AdvanceIsStep(s, k);
    FirstAlone(s, k, n);
    AloneAfterEnd(Step(s, k, false), k, n - 1);
  }

  /** A producer that won its ticket publishes it in two actions. */
  lemma WriteAndPublish<T>(s: State<T>, k: nat, n: nat)
    requires |s.slots| > 0 && k < |s.threads| && s.threads[k].EnqueueWrite? && n >= 2
    ensures var pos, v := s.threads[k].pos, s.threads[k].value;
      Run(s, Alone(k, n)) ==
        s.(log := s.log + [Wrote(pos, v)], threads := s.threads[k := EnqueueDone(true)],
           slots := s.slots[Index(pos, |s.slots|) := Slot(pos + 1, Some(v))])
  {
    hide Run, Index, Alone;
    FirstAlone(s, k, n);
    PublishLast(Step(s, k, false), k, n - 1);
  }

  lemma ClaimAndPublish<T>(s: State<T>, k: nat, n: nat)
    requires |s.slots| > 0 && k < |s.threads| && n >= 3
    requires s.threads[k].EnqueueCas? && s.threads[k].pos == s.enqueuePos
    ensures Run(s, Alone(k, n)) == Pushed(s, k, s.threads[k].value)
  {
    hide Run, Index, Alone;
    var v := s.threads[k].value;
    FirstAlone(s, k, n);
    WriteAndPublish(Step(s, k, false), k, n - 1);
  }

  lemma SameOutcome<T>(s: State<T>, k: nat, pc: Pc<T>, v: T)
    requires |s.slots| > 0 && k < |s.threads|
    ensures AfterEnqueue(At(s, k, pc), k, v) == AfterEnqueue(s, k, v)
  {
    hide Index;
  }

  /** A position that was loaded before others moved on never makes an enqueue fail. */
  lemma StaleEnqueue<T>(s: State<T>, k: nat)
    requires Invariant(s) && k < |s.threads| && s.threads[k].EnqueueLoadSeq? && s.threads[k].pos != s.enqueuePos
    ensures SlotOf(s, s.threads[k].pos).sequence >= s.threads[k].pos
  {
    hide EventOk, LogOk, Exclusive, ReleasedOk;
    var n, pos := |s.slots|, s.threads[k].pos;
    var i := Index(pos, n);
    var q := s.slots[i].sequence;
    assert ThreadOk(s, k) && SlotOk(s, i);
    if q < pos {
      if Index(q, n) == i {
        SameSlotFarApart(q, pos, n);
      } else {
        SameSlotFarApart(q - 1, pos, n);
      }
    }
  }

  /** The next action of an enqueue without a ticket, if it does not claim one, only looks. */
  lemma EnqueueLooks<T>(s: State<T>, k: nat, pc: Pc<T>)
    requires Invariant(s) && k < |s.threads| && Offering(s.threads[k])
    requires !(s.threads[k].EnqueueCas? && s.threads[k].pos == s.enqueuePos)
    requires pc == Step(s, k, false).threads[k]
    ensures Step(s, k, false) == At(s, k, pc)
    ensures Offering(pc) ==> EnqueueActions(Step(s, k, false), k) < EnqueueActions(s, k)
    ensures Offering(pc) ==> pc.value == s.threads[k].value
    ensures Offering(pc) || (pc == EnqueueDone(false) && SlotOf(s, s.enqueuePos).sequence != s.enqueuePos)
  {
    hide Invariant, Index;
    HasSlots(s);
    if s.threads[k].EnqueueLoadSeq? {
      if s.threads[k].pos != s.enqueuePos {
        StaleEnqueue(s, k);
        StaleNotCurrent(s, k);
      } else {
        EnqueueSlotAhead(s);
      }
    }
  }

  /** ... and its slot has moved past it, so that the position is loaded again. */
  lemma StaleNotCurrent<T>(s: State<T>, k: nat)
    requires Invariant(s) && k < |s.threads| && s.threads[k].EnqueueLoadSeq? && s.threads[k].pos != s.enqueuePos
    ensures s.threads[k].pos < s.enqueuePos
  {
    assert ThreadOk(s, k);
  }

  lemma EnqueueSlotAhead<T>(s: State<T>)
    requires Invariant(s)
    ensures SlotOf(s, s.enqueuePos).sequence <= s.enqueuePos
  {
    if SlotOf(s, s.enqueuePos).sequence > s.enqueuePos {
      EnqueueSlotIsFree(s);
    }
  }

  lemma {:induction false} EnqueueAlone<T>(s: State<T>, k: nat, n: nat)
    requires Invariant(s) && k < |s.threads| && Offering(s.threads[k]) && n >= EnqueueActions(s, k)
    ensures Run(s, Alone(k, n)) == AfterEnqueue(s, k, s.threads[k].value)
    decreases EnqueueActions(s, k)
  {
    hide Invariant, Run, Step, Index;
    HasSlots(s);
    if s.threads[k].EnqueueCas? && s.threads[k].pos == s.enqueuePos {
      TicketIsFree(s, k);
      ClaimAndPublish(s, k, n);
    } else {
      var next := Step(s, k, false);
      AdvanceIsStep(s, k);
      EnqueueLooks(s, k, next.threads[k]);
      FirstAlone(s, k, n);
      StepInvariant(s, k, false);
      if Offering(next.threads[k]) {
        EnqueueAlone(next, k, n - 1);
        SameOutcome(s, k, next.threads[k], s.threads[k].value);
      } else {
        AloneAfterEnd(next, k, n - 1);
      }
    }
  }

  lemma TicketIsFree<T>(s: State<T>, k: nat)
    requires Invariant(s) && k < |s.threads| && s.threads[k].EnqueueCas? && s.threads[k].pos == s.enqueuePos
    ensures SlotOf(s, s.enqueuePos).sequence == s.enqueuePos
  {
    assert ThreadOk(s, k);
    EnqueueSlotIsFree(s);
  }

  /** There is room for the next ticket: the ring has not been filled once, or the ticket one lap before
  has been read and its slot handed back. */
  ghost predicate HasRoom<T>(s: State<T>) {
    s.enqueuePos < |s.slots| || s.enqueuePos - |s.slots| in s.released
  }

  lemma RoomIsSequence<T>(s: State<T>)
    requires Invariant(s)
    ensures HasRoom(s) <==> SlotOf(s, s.enqueuePos).sequence == s.enqueuePos
  {
    hide EventOk, LogOk, Exclusive, ThreadOk;
    var n, pos := |s.slots|, s.enqueuePos;
    EnqueueSlotAhead(s);
    if pos < n {
      var q := s.slots[pos].sequence;
      assert SlotOk(s, pos);
      IndexAtMost(q, n);
      if q > 0 {
        IndexAtMost(q - 1, n);
      }
    } else {
      NextLap(pos - n, n);
    }
  }

  /** An enqueue that runs alone ends within six actions, wherever inside the call it stands and whatever
  it loaded before. If there is room its value is then the last one of the queue, published under the next
  ticket; otherwise nothing has changed and it reports a full ring. */
  lemma EnqueueEnds<T>(s: State<T>, k: nat, n: nat)
    requires Invariant(s) && k < |s.threads| && Offering(s.threads[k]) && n >= 6
    ensures var e, v := Run(s, Alone(k, n)), s.threads[k].value;
      && e.threads == s.threads[k := EnqueueDone(HasRoom(s))] && Invariant(e)
      && Pending(e) == Pending(s) + (if HasRoom(s) then [v] else [])
      && (HasRoom(s) ==> e.offered == s.offered + [v] && SlotOf(e, s.enqueuePos) == Slot(s.enqueuePos + 1, Some(v)))
      && (!HasRoom(s) ==> e == At(s, k, EnqueueDone(false)))
  {
    hide Invariant, Run, HasRoom, Index;
    HasSlots(s);
    EnqueueAlone(s, k, n);
    RoomIsSequence(s);
    RunInvariant(s, Alone(k, n));
    EnqueueExtends(s, k, s.threads[k].value);
  }

  lemma EnqueueExtends<T>(s: State<T>, k: nat, v: T)
    requires Invariant(s) && k < |s.threads|
    ensures s.dequeuePos <= s.enqueuePos == |s.offered|
    ensures Pending(Pushed(s, k, v)) == Pending(s) + [v]
    ensures Pending(At(s, k, EnqueueDone(false))) == Pending(s)
  {
  }

  /** The whole call. */
  lemma CallEnqueue<T>(s: State<T>, k: nat, v: T)
    requires Invariant(s) && k < |s.threads| && s.threads[k].Idle?
    ensures var e := Run(s, [Move(k, Enqueue(v))] + Alone(k, 6) + [Move(k, Return)]);
      && Invariant(e) && e.threads == s.threads
      && Pending(e) == Pending(s) + (if HasRoom(s) then [v] else [])
  {
    hide Invariant, Run, HasRoom, SlotOf, Step;
    HasSlots(s);
    var begun := At(s, k, EnqueueLoadPos(v));
    RunOne(s, Move(k, Enqueue(v)));
    ApplyInvariant(s, Move(k, Enqueue(v)));
    SameRoom(s, k, EnqueueLoadPos(v));
    EnqueueEnds(begun, k, 6);
    RunAppend(s, [Move(k, Enqueue(v))], Alone(k, 6));
    LeaveCall(s, [Move(k, Enqueue(v))] + Alone(k, 6), k);
    assert s.threads[k := Idle] == s.threads;
  }

  lemma PosInOrder<T>(s: State<T>)
    requires Invariant(s)
    ensures s.dequeuePos <= s.enqueuePos == |s.offered|
  {
  }

  lemma SameRoom<T>(s: State<T>, k: nat, pc: Pc<T>)
    requires Invariant(s) && k < |s.threads|
    ensures HasRoom(At(s, k, pc)) == HasRoom(s)
    ensures s.dequeuePos <= s.enqueuePos == |s.offered| && Pending(At(s, k, pc)) == Pending(s)
  {
  }

  /** On every run, whatever the other threads do: an enqueue reports a full ring only at a moment at which
  there was no room. */
  lemma FullMeansNoRoom<T>(s: State<T>, m: Move<T>)
    requires Invariant(s) && m.tid < |s.threads|
    requires !s.threads[m.tid].EnqueueDone? && Apply(s, m).threads[m.tid] == EnqueueDone(false)
    ensures !HasRoom(s) && Apply(s, m) == At(s, m.tid, EnqueueDone(false))
  {
    hide Invariant, HasRoom, Index;
    HasSlots(s);
    RoomIsSequence(s);
    if s.threads[m.tid].pos != s.enqueuePos {
      StaleEnqueue(s, m.tid);
    }
  }

  // ---------- Dequeue ----------

  /** Inside `dequeue`, before a ticket was won. */
  predicate Asking<T>(pc: Pc<T>) {
    pc.DequeueLoadPos? || pc.DequeueLoadSeq? || pc.DequeueCas?
  }

  /** The ring after thread `k` read the oldest value. */
  ghost function Popped<T>(s: State<T>, k: nat): State<T>
    requires |s.slots| > 0 && k < |s.threads| && s.dequeuePos < |s.offered|
  {
    var pos, v := s.dequeuePos, s.offered[s.dequeuePos];
    s.(dequeuePos := pos + 1, log := s.log + [Took(pos, v)], released := s.released + {pos},
       slots := s.slots[Index(pos, |s.slots|) := Slot(pos + |s.slots|, None)],
       threads := s.threads[k := DequeueDone(Some(v))])
  }

  /** The oldest ticket is published and nobody has claimed it. */
  ghost predicate Readable<T>(s: State<T>) {
    && |s.slots| > 0 && s.dequeuePos < |s.offered|
    && SlotOf(s, s.dequeuePos) == Slot(s.dequeuePos + 1, Some(s.offered[s.dequeuePos]))
  }

  ghost function AfterDequeue<T>(s: State<T>, k: nat): State<T>
    requires |s.slots| > 0 && k < |s.threads|
  {
    if Readable(s) then Popped(s, k) else At(s, k, DequeueDone(None))
  }

  function DequeueActions<T>(s: State<T>, k: nat): nat
    requires k < |s.threads| && Asking(s.threads[k])
  {
    match s.threads[k]
    case DequeueLoadPos => 5
    case DequeueLoadSeq(pos) => if pos == s.dequeuePos then 4 else 6
    case DequeueCas(pos) => if pos == s.dequeuePos then 3 else 5
  }

  lemma ReleaseLast<T>(s: State<T>, k: nat, n: nat)
    requires |s.slots| > 0 && k < |s.threads| && s.threads[k].DequeueRelease? && n >= 1
    ensures var pos, v := s.threads[k].pos, s.threads[k].value;
      Run(s, Alone(k, n)) ==
        At(SetSlot(s, pos, SlotOf(s, pos).(sequence := pos + |s.slots|)), k, DequeueDone(Some(v)))
          .(released := s.released + {pos})
  {
    hide Run, Index, Alone, SlotOf;
    AdvanceIsStep(s, k);
    FirstAlone(s, k, n);
    AloneAfterEnd(Step(s, k, false), k, n - 1);
  }

  /** A consumer that won its ticket reads the value and hands the slot back in two actions. */
  lemma TakeAndRelease<T>(s: State<T>, k: nat, n: nat)
    requires |s.slots| > 0 && k < |s.threads| && s.threads[k].DequeueTake? && n >= 2
    requires SlotOf(s, s.threads[k].pos).data.Some?
    ensures var pos := s.threads[k].pos;
      var v := SlotOf(s, pos).data.value;
      Run(s, Alone(k, n)) ==
        s.(log := s.log + [Took(pos, v)], threads := s.threads[k := DequeueDone(Some(v))],
           slots := s.slots[Index(pos, |s.slots|) := Slot(pos + |s.slots|, None)], released := s.released + {pos})
  {
    hide Run, Index, Alone;
    FirstAlone(s, k, n);
    ReleaseLast(Step(s, k, false), k, n - 1);
  }

  lemma ClaimAndRelease<T>(s: State<T>, k: nat, n: nat)
    requires k < |s.threads| && n >= 3 && Readable(s)
    requires s.threads[k].DequeueCas? && s.threads[k].pos == s.dequeuePos
    ensures Run(s, Alone(k, n)) == Popped(s, k)
  {
    hide Run, Index, Alone;
    FirstAlone(s, k, n);
    TakeAndRelease(Step(s, k, false), k, n - 1);
  }

  lemma SameAnswer<T>(s: State<T>, k: nat, pc: Pc<T>)
    requires |s.slots| > 0 && k < |s.threads|
    ensures AfterDequeue(At(s, k, pc), k) == AfterDequeue(s, k)
  {
    hide Index;
  }

  /** A position that was loaded before others moved on never makes a dequeue report an empty ring. */
  lemma StaleDequeue<T>(s: State<T>, k: nat)
    requires Invariant(s) && k < |s.threads| && s.threads[k].DequeueLoadSeq? && s.threads[k].pos != s.dequeuePos
    ensures SlotOf(s, s.threads[k].pos).sequence > s.threads[k].pos
  {
    hide EventOk, LogOk, Exclusive, ReleasedOk;
    var n, pos := |s.slots|, s.threads[k].pos;
    var i := Index(pos, n);
    var q := s.slots[i].sequence;
    assert ThreadOk(s, k) && SlotOk(s, i);
    if 0 < q <= pos && Index(q - 1, n) == i {
      SameSlotFarApart(q - 1, pos, n);
    }
  }

  lemma ReadableIsSequence<T>(s: State<T>)
    requires Invariant(s)
    ensures Readable(s) <==> SlotOf(s, s.dequeuePos).sequence == s.dequeuePos + 1
    ensures Readable(s) || SlotOf(s, s.dequeuePos).sequence <= s.dequeuePos
  {
    if SlotOf(s, s.dequeuePos).sequence > s.dequeuePos {
      DequeueSlotIsFull(s);
    }
  }

  /** The next action of a dequeue without a ticket, if it does not claim one, only looks. */
  lemma DequeueLooks<T>(s: State<T>, k: nat, pc: Pc<T>)
    requires Invariant(s) && k < |s.threads| && Asking(s.threads[k])
    requires !(s.threads[k].DequeueCas? && s.threads[k].pos == s.dequeuePos)
    requires pc == Step(s, k, false).threads[k]
    ensures Step(s, k, false) == At(s, k, pc)
    ensures Asking(pc) ==> DequeueActions(Step(s, k, false), k) < DequeueActions(s, k)
    ensures Asking(pc) || (pc == DequeueDone(None) && !Readable(s))
  {
    hide Invariant, Index, Readable;
    HasSlots(s);
    ReadableIsSequence(s);
    if s.threads[k].DequeueLoadSeq? && s.threads[k].pos != s.dequeuePos {
      StaleDequeue(s, k);
    }
  }

  lemma ReadableAtCas<T>(s: State<T>, k: nat)
    requires Invariant(s) && k < |s.threads| && s.threads[k].DequeueCas? && s.threads[k].pos == s.dequeuePos
    ensures Readable(s)
  {
    assert ThreadOk(s, k);
    ReadableIsSequence(s);
  }

  lemma {:induction false} DequeueAlone<T>(s: State<T>, k: nat, n: nat)
    requires Invariant(s) && k < |s.threads| && Asking(s.threads[k]) && n >= DequeueActions(s, k)
    ensures Run(s, Alone(k, n)) == AfterDequeue(s, k)
    decreases DequeueActions(s, k)
  {
    hide Invariant, Run, Step, Index, Readable;
    HasSlots(s);
    if s.threads[k].DequeueCas? && s.threads[k].pos == s.dequeuePos {
      ReadableAtCas(s, k);
      ClaimAndRelease(s, k, n);
    } else {
      var next := Step(s, k, false);
      AdvanceIsStep(s, k);
      DequeueLooks(s, k, next.threads[k]);
      FirstAlone(s, k, n);
      StepInvariant(s, k, false);
      if Asking(next.threads[k]) {
        DequeueAlone(next, k, n - 1);
        SameAnswer(s, k, next.threads[k]);
      } else {
        AloneAfterEnd(next, k, n - 1);
      }
    }
  }

  /** A dequeue that runs alone ends within six actions. It returns the oldest pending value, which leaves
  the queue, if that one was published; otherwise nothing has changed and it reports an empty ring. */
  lemma DequeueEnds<T>(s: State<T>, k: nat, n: nat)
    requires Invariant(s) && k < |s.threads| && Asking(s.threads[k]) && n >= 6
    ensures var e := Run(s, Alone(k, n));
      && Invariant(e) && (Readable(s) ==> Pending(s) != [])
      && e.threads == s.threads[k := DequeueDone(if Readable(s) then Some(Pending(s)[0]) else None)]
      && Pending(e) == (if Readable(s) then Pending(s)[1..] else Pending(s))
      && e.released == s.released + (if Readable(s) then {s.dequeuePos} else {})
      && (!Readable(s) ==> e == At(s, k, DequeueDone(None)))
  {
    hide Invariant, Run, Index;
    HasSlots(s);
    PosInOrder(s);
    DequeueAlone(s, k, n);
    RunInvariant(s, Alone(k, n));
    PosInOrder(Run(s, Alone(k, n)));
  }

  lemma AnsweredDequeue<T>(s: State<T>, k: nat)
    requires Invariant(s) && k < |s.threads| && s.threads[k].Idle?
    ensures var e := Run(s, [Move(k, Dequeue)] + Alone(k, 6));
      && Invariant(e) && (Readable(s) ==> Pending(s) != [])
      && e.threads == s.threads[k := DequeueDone(if Readable(s) then Some(Pending(s)[0]) else None)]
      && Pending(e) == (if Readable(s) then Pending(s)[1..] else Pending(s))
  {
    hide Invariant, Run, Readable, Alone, Step;
    HasSlots(s);
    PosInOrder(s);
    RunOne(s, Move(k, Dequeue));
    ApplyInvariant(s, Move(k, Dequeue));
    SameReadable(s, k, DequeueLoadPos);
    RunAppend(s, [Move(k, Dequeue)], Alone(k, 6));
    DequeueEnds(At(s, k, DequeueLoadPos), k, 6);
  }

  /** Leaving the call changes nothing else. */
  lemma LeaveCall<T>(s: State<T>, moves: seq<Move<T>>, k: nat)
    requires |s.slots| > 0 && k < |s.threads|
    requires var e := Run(s, moves);
      && Invariant(e) && (e.threads[k].EnqueueDone? || e.threads[k].DequeueDone?)
    ensures var e, left := Run(s, moves), Run(s, moves + [Move(k, Return)]);
      left == At(e, k, Idle) && Invariant(left) && Pending(left) == Pending(e)
  {
    hide Invariant, Run, Step;
    var e := Run(s, moves);
    PosInOrder(e);
    RunAppend(s, moves, [Move(k, Return)]);
    RunOne(e, Move(k, Return));
    ApplyInvariant(e, Move(k, Return));
  }

  /** The whole call. */
  lemma CallDequeue<T>(s: State<T>, k: nat)
    requires Invariant(s) && k < |s.threads| && s.threads[k].Idle?
    ensures Readable(s) ==> Pending(s) != []
    ensures var answered := Run(s, [Move(k, Dequeue)] + Alone(k, 6));
      answered.threads[k] == DequeueDone(if Readable(s) then Some(Pending(s)[0]) else None)
    ensures var e := Run(s, [Move(k, Dequeue)] + Alone(k, 6) + [Move(k, Return)]);
      && Invariant(e) && e.threads == s.threads
      && Pending(e) == (if Readable(s) then Pending(s)[1..] else Pending(s))
  {
    hide Invariant, Run, Readable, Alone, Pending;
    HasSlots(s);
    PosInOrder(s);
    AnsweredDequeue(s, k);
    LeaveCall(s, [Move(k, Dequeue)] + Alone(k, 6), k);
    assert s.threads[k := Idle] == s.threads;
  }

  lemma SameReadable<T>(s: State<T>, k: nat, pc: Pc<T>)
    requires |s.slots| > 0 && k < |s.threads|
    ensures Readable(At(s, k, pc)) == Readable(s)
  {
  }

  /** On every run, whatever the other threads do: a dequeue reports an empty ring only at a moment at which
  the oldest ticket was not published, so that nothing is pending or its producer is at work. */
  lemma EmptyMeansUnpublished<T>(s: State<T>, m: Move<T>)
    requires Invariant(s) && OwnersPresent(s) && m.tid < |s.threads|
    requires !s.threads[m.tid].DequeueDone? && Apply(s, m).threads[m.tid] == DequeueDone(None)
    ensures !Readable(s) && Apply(s, m) == At(s, m.tid, DequeueDone(None))
    ensures Pending(s) == [] || HasOwner(s, s.dequeuePos)
  {
    hide Invariant, Index, Readable, OwnersPresent, HasOwner;
    HasSlots(s);
    PosInOrder(s);
    ReadableIsSequence(s);
    if s.threads[m.tid].pos != s.dequeuePos {
      StaleDequeue(s, m.tid);
    }
    if s.dequeuePos < s.enqueuePos {
      UnpublishedHasOwner(s);
    }
  }

  lemma UnpublishedHasOwner<T>(s: State<T>)
    requires Invariant(s) && OwnersPresent(s) && s.dequeuePos < s.enqueuePos
    requires SlotOf(s, s.dequeuePos).sequence <= s.dequeuePos
    ensures HasOwner(s, s.dequeuePos)
  {
    var i, q := Index(s.dequeuePos, |s.slots|), SlotOf(s, s.dequeuePos).sequence;
    assert SlotOk(s, i);
    if Index(q, |s.slots|) == i && q < s.dequeuePos {
      SameSlotFarApart(q, s.dequeuePos, |s.slots|);
    }
    if 0 < q && Index(q - 1, |s.slots|) == i {
      SameSlotFarApart(q - 1, s.dequeuePos, |s.slots|);
    }
  }
}

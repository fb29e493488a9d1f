/** The promises of the event loop's ingress, over every run. */
module LoopIngressResults {
  import opened Wrappers
  import opened SizeArithmetic
  import opened LoopIngress
  import opened LoopIngressSafety
  import Ring = LockFreeQueue
  import RingSafety = LockFreeQueueSafety

  /** A loop as its constructor builds it: the ring has the least power of two of slots that is at
  least the capacity and at least two. */
  ghost predicate Built(capacity: nat, slots: nat, threadCount: nat) {
    && threadCount > 0
    && LeastPowerOfTwo(slots, if capacity < 2 then 2 else capacity)
  }

  lemma ReachableInvariant(capacity: nat, slots: nat, threadCount: nat, moves: seq<Move>)
    requires Built(capacity, slots, threadCount)
    ensures Invariant(Run(Init(capacity, slots, threadCount), moves))
  {
    InitInvariant(capacity, slots, threadCount);
    RunInvariant(Init(capacity, slots, threadCount), moves);
  }

  /** A producer whose reservation was granted always gets a slot: the ring-full branch and the
  rollback of the counter are never taken, and the counter stays within the capacity. */
  lemma AdmittedNeverRejected(capacity: nat, slots: nat, threadCount: nat, moves: seq<Move>, t: nat)
    requires Built(capacity, slots, threadCount) && t < threadCount
    ensures var s := Run(Init(capacity, slots, threadCount), moves);
      && s.ring.threads[t] != Ring.EnqueueDone(false)
      && !s.calls[t].Unreserve?
      && 0 <= s.count <= capacity
  {
    var s := Run(Init(capacity, slots, threadCount), moves);
    ReachableInvariant(capacity, slots, threadCount, moves);
    assert ThreadOk(s, t);
    HandIsTaken(s);
  }

  lemma HandIsTaken(s: State)
    requires Invariant(s)
    ensures |Hand(s)| <= Taken(s) <= |s.ring.offered|
  {
    assert |s.normalRun + NormalBatch(s.loop) + Hand(s)| == |s.ring.offered[..Taken(s)]|;
  }

  /** In every reachable state the callbacks that ran are, in order, the oldest that entered their
  lane: none runs twice and none is overtaken. */
  lemma LanesRunInOrder(capacity: nat, slots: nat, threadCount: nat, moves: seq<Move>)
    requires Built(capacity, slots, threadCount)
    ensures var s := Run(Init(capacity, slots, threadCount), moves);
      s.normalRun <= s.ring.offered && s.controlRun <= s.controlPushed
  {
    var s := Run(Init(capacity, slots, threadCount), moves);
    ReachableInvariant(capacity, slots, threadCount, moves);
    assert s.normalRun <= s.normalRun + NormalBatch(s.loop) + Hand(s);
    assert s.ring.offered[..Taken(s)] <= s.ring.offered;
    assert s.controlRun <= s.controlRun + ControlBatch(s.loop) + s.control;
  }

  /** Both lanes and both reports are as they were. */
  ghost predicate LanesKept(s: State, s': State) {
    && s'.ring.offered == s.ring.offered && s'.controlPushed == s.controlPushed
    && s'.acceptedNormal == s.acceptedNormal && s'.acceptedControl == s.acceptedControl
  }

  /** Inside a call that was not admitted, a closed loop changes neither the ring nor a lane. */
  lemma ClosedCallStep(s: State, t: nat, spurious: bool)
    requires WellFormed(s) && Closed(s) && t < |s.calls| && !Admitted(s.calls[t])
    ensures var s' := CallStep(s, t, spurious);
      && Closed(s') && LanesKept(s, s') && s'.ring == s.ring && s'.loop == s.loop && s'.control == s.control
  {
    hide EnterStep, RingMove;
    assert CallStep(s, t, spurious) == OutsideStep(s, t);
  }

  lemma ClosedDequeueStep(s: State, spurious: bool)
    requires WellFormed(s) && Closed(s) && s.loop.Dequeue? && !Enqueuing(s.ring.threads[0])
    requires Dequeuing(s.ring.threads[0]) && !s.ring.threads[0].DequeueDone? ==>
      Ring.Step(s.ring, 0, spurious).offered == s.ring.offered
    ensures Closed(DequeueStep(s, spurious)) && LanesKept(s, DequeueStep(s, spurious))
  {
    if s.ring.threads[0].Idle? || s.ring.threads[0].DequeueDone? {
      assert DequeueStep(s, spurious).ring.offered == s.ring.offered;
    } else {
      assert DequeueStep(s, spurious).ring == Ring.Step(s.ring, 0, spurious);
    }
  }

  lemma ClosedLoopStep(s: State, spurious: bool)
    requires WellFormed(s) && Closed(s) && !s.loop.Dequeue?
    ensures Closed(LoopStep(s, spurious)) && LanesKept(s, LoopStep(s, spurious))
  {
    if InPass(s.loop) {
      hide PassStep, GateStep;
      assert LoopStep(s, spurious) == PassStep(s);
    } else {
      hide PassStep;
      assert LoopStep(s, spurious) == GateStep(s);
    }
  }

  lemma ConsumerOffers(s: State, spurious: bool)
    requires Invariant(s)
    ensures Dequeuing(s.ring.threads[0]) && !s.ring.threads[0].DequeueDone? ==>
      Ring.Step(s.ring, 0, spurious).offered == s.ring.offered
  {
    hide RingSafety.Invariant, Ring.Step;
    if Dequeuing(s.ring.threads[0]) && !s.ring.threads[0].DequeueDone? {
      ConsumerEffect(s.ring, spurious);
    }
  }

  /** Once stopping has begun, no move of any thread adds to a lane or accepts a callback. */
  lemma ClosedStep(s: State, m: Move)
    requires Invariant(s) && Closed(s)
    ensures Invariant(Apply(s, m)) && Closed(Apply(s, m)) && LanesKept(s, Apply(s, m))
  {
    hide Invariant, CallStep, DequeueStep, PassStep, GateStep;
    IsWellFormed(s);
    ApplyInvariant(s, m);
    ClosedMeansQuiet(s);
    if m.tid < |s.calls| && m.action.Advance? {
      if !s.calls[m.tid].NoCall? {
        ClosedCallStep(s, m.tid, m.action.spurious);
      } else if m.tid == 0 && InLoop(s) {
        if s.loop.Dequeue? {
          ConsumerOffers(s, m.action.spurious);
          ClosedDequeueStep(s, m.action.spurious);
        } else {
          ClosedLoopStep(s, m.action.spurious);
        }
      }
    }
  }

  lemma {:induction false} NothingEntersAfterStopping(s: State, moves: seq<Move>)
    requires Invariant(s) && Closed(s)
    ensures Invariant(Run(s, moves)) && Closed(Run(s, moves)) && LanesKept(s, Run(s, moves))
  {
    if moves != [] {
      NothingEntersAfterStopping(s, moves[..|moves| - 1]);
      ClosedStep(Run(s, moves[..|moves| - 1]), moves[|moves| - 1]);
    }
  }

  /** When `loop` has returned, the callbacks that ran are exactly those whose enqueue returned
  true, each as often as it was accepted, and in lane order. */
  lemma AcceptedRunExactlyOnce(capacity: nat, slots: nat, threadCount: nat, moves: seq<Move>)
    requires Built(capacity, slots, threadCount)
    requires Run(Init(capacity, slots, threadCount), moves).loop.Returned?
    ensures var s := Run(Init(capacity, slots, threadCount), moves);
      && s.normalRun == s.ring.offered && multiset(s.normalRun) == s.acceptedNormal
      && s.controlRun == s.controlPushed && multiset(s.controlRun) == s.acceptedControl
  {
    hide Invariant;
    ReachableInvariant(capacity, slots, threadCount, moves);
    ReturnedRanAll(Run(Init(capacity, slots, threadCount), moves));
  }

  lemma ReturnedRanAll(s: State)
    requires Invariant(s) && s.loop.Returned?
    ensures s.normalRun == s.ring.offered && multiset(s.normalRun) == s.acceptedNormal
    ensures s.controlRun == s.controlPushed && multiset(s.controlRun) == s.acceptedControl
  {
    hide RingSafety.Invariant, RingSafety.OwnersPresent, CountOk;
    ClosedMeansQuiet(s);
    NoneReserved(s.calls, s.ring.threads);
    assert ThreadOk(s, 0);
    LanesDone(s);
    forall f ensures multiset(s.normalRun)[f] == s.acceptedNormal[f] {
      assert Entered(s, Normal)[f] == Accepted(s, Normal)[f] + InFlight(Normal, f, s.calls, s.ring.threads);
    }
    forall f ensures multiset(s.controlRun)[f] == s.acceptedControl[f] {
      assert Entered(s, Control)[f] == Accepted(s, Control)[f] + InFlight(Control, f, s.calls, s.ring.threads);
    }
  }

  lemma LanesDone(s: State)
    requires WellFormed(s) && s.loop.Returned? && s.ring.threads[0].Idle? && s.control == []
    requires Taken(s) == |s.ring.offered| && LanesOk(s)
    ensures s.normalRun == s.ring.offered && s.controlRun == s.controlPushed
  {
    assert s.ring.offered[..Taken(s)] == s.ring.offered;
    assert s.normalRun + [] + [] == s.normalRun && s.controlRun + [] + [] == s.controlRun;
  }

  // ---------- The final drain terminates ----------

  /** Tickets still to take. */
  function Remaining(s: State): int
    requires WellFormed(s)
  {
    |s.ring.offered| - Taken(s)
  }

  function DequeueStage(pc: RingPc, limit: nat, remaining: int): nat {
    match pc
    case DequeueDone(Some(_)) => 20
    case Idle => if limit == 0 then 18 else 14
    case DequeueLoadPos => 13
    case DequeueLoadSeq(_) => 12
    case DequeueCas(_) => 11
    case DequeueTake(_) => 10
    case DequeueRelease(_, _) => 9
    case _ => if remaining > 0 then 18 else 8
  }

  /** Where the drain stands, counted down to its end. */
  function Stage(loop: LoopPc, pc: RingPc, remaining: int): nat {
    match loop
    case SwapControl(_) => 31
    case RunControl(_, _) => 30
    case Decrement(_, _, _, _) => 19
    case RunBatch(_, _) => if remaining > 0 then 17 else 7
    case CheckDrained => if remaining > 0 then 16 else 6
    case StartBatch(_) => 15
    case Dequeue(_, limit, _) => DequeueStage(pc, limit, remaining)
    case DrainOperations => 5
    case Finish => 4
    case _ => 3
  }

  /** Callbacks at hand that have not run. */
  function Backlog(loop: LoopPc, control: seq<Functor>): nat {
    if loop.SwapControl? then |control| else |NormalBatch(loop)| + |ControlBatch(loop)|
  }

  /** How far the drain is from its end. */
  function DrainWork(s: State): int
    requires WellFormed(s)
  {
    64 * Remaining(s) + 2 * Stage(s.loop, s.ring.threads[0], Remaining(s)) + Backlog(s.loop, s.control)
  }

  predicate AtEnd(loop: LoopPc) {
    loop.Finish? || loop.Returned?
  }

  /** A dequeue of the drain finds its ticket: it reports an empty ring only when nothing is left. */
  lemma DrainFindsTickets(s: State)
    requires Invariant(s) && Closed(s) && s.ring.threads[0].DequeueLoadSeq?
    requires Taken(s) < |s.ring.offered|
    ensures Ring.SlotOf(s.ring, s.ring.threads[0].pos).sequence == s.ring.threads[0].pos + 1
  {
    ClosedMeansQuiet(s);
    forall k: nat | k < |s.ring.threads| ensures !s.ring.threads[k].Producing() {
      assert ThreadOk(s, k);
    }
    RingSafety.OldestIsReadable(s.ring);
    RingSafety.DequeueSlotIsFull(s.ring);
  }

  /** With every ticket taken, the next slot is not readable. */
  lemma NothingToTake(s: State)
    requires Invariant(s) && s.ring.threads[0].DequeueLoadSeq? && Taken(s) == |s.ring.offered|
    ensures Ring.SlotOf(s.ring, s.ring.threads[0].pos).sequence <= s.ring.threads[0].pos
  {
    if Ring.SlotOf(s.ring, s.ring.threads[0].pos).sequence > s.ring.threads[0].pos {
      RingSafety.DequeueSlotIsFull(s.ring);
    }
  }

  lemma DrainAdvanceCloser(s: State, s': State)
    requires WellFormed(s) && WellFormed(s') && s' == s.(ring := s'.ring) && s.loop.Dequeue?
    requires Dequeuing(s.ring.threads[0]) && !s.ring.threads[0].DequeueDone?
    requires ConsumerMoved(s.ring, s'.ring) && 0 <= Taken(s) <= |s.ring.offered|
    requires s.ring.threads[0].DequeueLoadPos? ==> s'.ring.threads[0].DequeueLoadSeq?
    requires s.ring.threads[0].DequeueCas? ==> s'.ring.threads[0].DequeueTake?
    requires s.ring.threads[0].DequeueLoadSeq? ==>
      if Taken(s) < |s.ring.offered| then s'.ring.threads[0].DequeueCas? else s'.ring.threads[0].DequeueDone?
    ensures DrainWork(s') < DrainWork(s)
  {
  }

  lemma DrainDequeueCloser(s: State)
    requires Invariant(s) && InLoop(s) && Final(s.loop) && s.loop.Dequeue?
    ensures DrainWork(LoopStep(s, false)) < DrainWork(s)
  {
    hide RingSafety.Invariant, RingSafety.OwnersPresent, LanesOk, CountOk, AcceptedOk, DrainWork, PassStep, GateStep;
    var pc := s.ring.threads[0];
    assert ThreadOk(s, 0);
    if Dequeuing(pc) && !pc.DequeueDone? {
      ConsumerEffect(s.ring, false);
      if pc.DequeueLoadSeq? {
        if Taken(s) < |s.ring.offered| {
          DrainFindsTickets(s);
        } else {
          NothingToTake(s);
        }
      }
      DrainAdvanceCloser(s, LoopStep(s, false));
    } else {
      DrainHandCloser(s, LoopStep(s, false));
    }
  }

  /** A dequeue begins or has returned. */
  lemma DrainHandCloser(s: State, s': State)
    requires WellFormed(s) && s.loop.Dequeue? && 0 <= Taken(s) <= |s.ring.offered|
    requires s.ring.threads[0].Idle? || s.ring.threads[0].DequeueDone?
    requires s' == DequeueStep(s, false)
    ensures DrainWork(s') < DrainWork(s)
  {
    hide DequeueStep;
    var Dequeue(final, limit, batch) := s.loop;
    if s.ring.threads[0].DequeueDone? {
      DequeueReturns(s);
    } else if limit == 0 {
      BatchIsFull(s);
    } else {
      DequeueBegins(s);
    }
  }

  lemma BatchIsFull(s: State)
    requires WellFormed(s) && s.loop.Dequeue? && s.ring.threads[0].Idle? && s.loop.limit == 0
    ensures DequeueStep(s, false) == s.(loop := RunBatch(s.loop.final, s.loop.batch))
  {
  }

  lemma DequeueBegins(s: State)
    requires WellFormed(s) && s.loop.Dequeue? && s.ring.threads[0].Idle? && s.loop.limit > 0
    ensures DequeueStep(s, false) ==
      s.(loop := Dequeue(s.loop.final, s.loop.limit - 1, s.loop.batch), ring := Ring.At(s.ring, 0, Ring.DequeueLoadPos))
  {
    hide Ring.Step;
  }

  lemma DequeueReturns(s: State)
    requires WellFormed(s) && s.loop.Dequeue? && s.ring.threads[0].DequeueDone?
    ensures var Dequeue(final, limit, batch) := s.loop;
      var next := match s.ring.threads[0].result
                  case Some(f) => Decrement(final, limit, batch, f)
                  case None => RunBatch(final, batch);
      DequeueStep(s, false) == s.(loop := next, ring := Ring.At(s.ring, 0, Ring.Idle))
  {
    hide Ring.Step;
  }

  /** Every step of `loop` in its final drain comes closer to the end, unless it waits for the
  lifecycle lock. */
  lemma DrainStepCloser(s: State)
    requires Invariant(s) && InLoop(s) && Final(s.loop) && !s.loop.Returned?
    requires s.loop.Finish? ==> s.shared == {}
    ensures DrainWork(LoopStep(s, false)) < DrainWork(s)
  {
    hide DrainWork, GateStep, PassStep, DequeueStep, RingSafety.Invariant, RingSafety.OwnersPresent, LanesOk, AcceptedOk;
    assert ThreadOk(s, 0);
    if s.loop.Dequeue? {
      DrainDequeueCloser(s);
    } else if InPass(s.loop) {
      DrainPassCloser(s, PassStep(s));
    } else {
      if s.loop.CheckDrained? {
        ClosedMeansQuiet(s);
        NoneReserved(s.calls, s.ring.threads);
      }
      DrainGateCloser(s, GateStep(s));
    }
  }

  lemma DrainPassCloser(s: State, s': State)
    requires WellFormed(s) && s.ring.threads[0].Idle? && s' == PassStep(s) && InPass(s.loop) && Final(s.loop)
    ensures DrainWork(s') < DrainWork(s)
  {
  }

  lemma DrainGateCloser(s: State, s': State)
    requires WellFormed(s) && s' == GateStep(s)
    requires s.loop.CheckDrained? || s.loop.DrainOperations? || (s.loop.Finish? && s.shared == {})
    requires s.loop.CheckDrained? ==> s.count == Remaining(s) >= 0
    ensures DrainWork(s') < DrainWork(s)
  {
  }

  /** A spurious failure of the loop costs two steps: the slot is looked at again. */
  lemma SpuriousCosts(s: State)
    requires Invariant(s) && InLoop(s) && Final(s.loop) && !AtEnd(s.loop)
    ensures DrainWork(LoopStep(s, true)) <= DrainWork(s) + 2
  {
    hide DrainWork, LoopStep, RingSafety.Invariant, RingSafety.OwnersPresent, LanesOk, AcceptedOk, CountOk;
    if s.loop.Dequeue? && s.ring.threads[0].DequeueCas? {
      FailsAtCas(s, LoopStep(s, true));
    } else {
      assert ThreadOk(s, 0);
      SpuriousElsewhere(s);
      DrainStepCloser(s);
    }
  }

  lemma FailsAtCas(s: State, s': State)
    requires WellFormed(s) && s' == LoopStep(s, true) && s.loop.Dequeue? && s.ring.threads[0].DequeueCas?
    ensures DrainWork(s') == DrainWork(s) + 2
  {
  }

  lemma SpuriousElsewhere(s: State)
    requires WellFormed(s) && !(s.loop.Dequeue? && (s.ring.threads[0].DequeueCas? || s.ring.threads[0].EnqueueCas?))
    ensures LoopStep(s, true) == LoopStep(s, false)
  {
    hide PassStep, GateStep, Ring.Step;
    if s.loop.Dequeue? {
      RingSafety.OnlyCasFails(s.ring, 0, true);
    }
  }

  /** ... and no other move, by any thread or by a callback, sets it back. */
  lemma OthersKeepDrainWork(s: State, m: Move)
    requires Invariant(s) && Final(s.loop)
    requires !LoopMove(s, m)
    ensures DrainWork(Apply(s, m)) == DrainWork(s) && Apply(s, m).loop == s.loop
  {
    hide DrainWork, Invariant, CallStep, LoopStep;
    assert Closed(s) && WellFormed(s) by {
      FinalIsClosed(s);
    }
    if m.tid < |s.calls| && m.action.Advance? && !s.calls[m.tid].NoCall? {
      ClosedMeansQuiet(s);
      ClosedCallStep(s, m.tid, m.action.spurious);
      SameWork(s, CallStep(s, m.tid, m.action.spurious));
    } else {
      SameWork(s, Apply(s, m));
    }
  }

  lemma FinalIsClosed(s: State)
    requires Invariant(s) && Final(s.loop)
    ensures Closed(s) && WellFormed(s)
  {
  }

  lemma SameWork(s: State, s': State)
    requires WellFormed(s) && WellFormed(s') && s'.ring == s.ring && s'.loop == s.loop && s'.control == s.control
    ensures DrainWork(s') == DrainWork(s)
  {
  }

  /** A move of `loop` itself, on thread 0 outside calls and callbacks. */
  ghost predicate LoopMove(s: State, m: Move)
    requires WellFormed(s)
  {
    m.tid == 0 && m.action.Advance? && InLoop(s)
  }

  /** How many moves of a run are moves of `loop`, and how many of them may fail spuriously. */
  ghost function LoopMoves(s: State, moves: seq<Move>): nat
    requires WellFormed(s)
  {
    if moves == [] then 0
    else
      var front, last := moves[..|moves| - 1], moves[|moves| - 1];
      LoopMoves(s, front) + if LoopMove(Run(s, front), last) then 1 else 0
  }

  ghost function SpuriousMoves(s: State, moves: seq<Move>): nat
    requires WellFormed(s)
  {
    if moves == [] then 0
    else
      var front, last := moves[..|moves| - 1], moves[|moves| - 1];
      SpuriousMoves(s, front) + if LoopMove(Run(s, front), last) && last.action.spurious then 1 else 0
  }

  lemma FinalStays(s: State, m: Move)
    requires Invariant(s) && Final(s.loop)
    ensures Final(Apply(s, m).loop) && (AtEnd(s.loop) ==> AtEnd(Apply(s, m).loop))
  {
    hide Invariant, CallStep, DrainWork;
    FinalIsClosed(s);
    if LoopMove(s, m) {
      FinalLoopStep(s, m.action.spurious);
    } else {
      OthersKeepDrainWork(s, m);
    }
  }

  lemma FinalLoopStep(s: State, spurious: bool)
    requires WellFormed(s) && Final(s.loop)
    ensures Final(LoopStep(s, spurious).loop) && (AtEnd(s.loop) ==> AtEnd(LoopStep(s, spurious).loop))
  {
    hide DequeueStep, PassStep, GateStep;
    if s.loop.Dequeue? {
      FinalDequeueStep(s, spurious);
    } else if InPass(s.loop) {
      FinalPassStep(s);
    } else {
      FinalGateStep(s);
    }
  }

  lemma FinalDequeueStep(s: State, spurious: bool)
    requires WellFormed(s) && s.loop.Dequeue? && Final(s.loop)
    ensures Final(DequeueStep(s, spurious).loop)
  {
    hide Ring.Apply;
  }

  lemma FinalPassStep(s: State)
    requires WellFormed(s) && Final(s.loop) && InPass(s.loop)
    ensures Final(PassStep(s).loop)
  {
  }

  lemma FinalGateStep(s: State)
    requires WellFormed(s) && Final(s.loop) && !InPass(s.loop)
    ensures Final(GateStep(s).loop) && (AtEnd(s.loop) ==> AtEnd(GateStep(s).loop))
  {
  }

  /** Every move of a drain that has not reached its end pays for itself. */
  lemma DrainMove(s: State, m: Move)
    requires Invariant(s) && Final(s.loop) && !AtEnd(s.loop)
    ensures DrainWork(Apply(s, m)) + (if LoopMove(s, m) then 1 else 0)
         <= DrainWork(s) + (if LoopMove(s, m) && m.action.spurious then 3 else 0)
  {
    hide DrainWork, Invariant, LoopStep, CallStep;
    FinalIsClosed(s);
    if LoopMove(s, m) {
      if m.action.spurious {
        SpuriousCosts(s);
      } else {
        DrainStepCloser(s);
      }
    } else {
      OthersKeepDrainWork(s, m);
    }
  }

  lemma {:induction false} DrainRun(s: State, moves: seq<Move>)
    requires Invariant(s) && Final(s.loop)
    ensures var e := Run(s, moves);
      && Invariant(e) && Final(e.loop)
      && (AtEnd(e.loop) || LoopMoves(s, moves) + DrainWork(e) <= DrainWork(s) + 3 * SpuriousMoves(s, moves))
  {
    hide DrainWork, Invariant, Apply, LoopMove;
    FinalIsClosed(s);
    if moves != [] {
      var front, last := moves[..|moves| - 1], moves[|moves| - 1];
      var e := Run(s, front);
      DrainRun(s, front);
      ApplyInvariant(e, last);
      FinalStays(e, last);
      if !AtEnd(e.loop) {
        DrainMove(e, last);
      }
    }
  }

  /** The final drain ends. From any state of it, on every run and whatever the other threads and the
  callbacks do in between: as long as `loop` has neither returned nor reached its last step, it has
  made at most as many moves as there was work left, and three more for each that may have failed
  spuriously. At the last step it waits only while some thread holds the lifecycle lock. */
  lemma DrainEnds(s: State, moves: seq<Move>)
    requires Invariant(s) && Final(s.loop)
    ensures var e := Run(s, moves);
      if AtEnd(e.loop) then e.loop.Finish? && e.shared == {} ==> LoopStep(e, false).loop.Returned?
      else LoopMoves(s, moves) <= DrainWork(s) + 3 * SpuriousMoves(s, moves)
  {
    hide Stage, Backlog;
    DrainRun(s, moves);
    WorkIsPositive(Run(s, moves));
  }

  lemma WorkIsPositive(s: State)
    requires Invariant(s)
    ensures DrainWork(s) >= 0
  {
  }
}

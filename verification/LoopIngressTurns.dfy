/** What one turn of the event loop runs, that it ends, and what follows a call of `quit`. */
module LoopIngressTurns {
  import opened Wrappers
  import opened LoopIngress
  import opened LoopIngressSafety
  import opened LoopIngressCalls
  import opened LoopIngressResults
  import Ring = LockFreeQueue
  import RingSafety = LockFreeQueueSafety

  /** Between `CheckQuit` and `CheckQuitAgain`: the callbacks of the control lane, then a batch of the ring. */
  predicate Turning(loop: LoopPc) {
    (InPass(loop) || loop.Dequeue?) && !Final(loop)
  }

  /** The first `p` tickets of the ring are published, or have been read. */
  ghost predicate Published(r: Ring.State<Functor>, p: nat)
    requires |r.slots| > 0
  {
    p <= |r.offered| && forall t: nat :: t < p ==> Ring.SlotOf(r, t).sequence > t
  }

  // ---------- Nothing is unpublished ----------

  lemma SequenceGrows(r: Ring.State<Functor>, k: nat, spurious: bool, t: nat)
    requires RingSafety.Invariant(r) && k < |r.threads|
    ensures |Ring.Step(r, k, spurious).slots| == |r.slots| > 0
    ensures Ring.SlotOf(Ring.Step(r, k, spurious), t).sequence >= Ring.SlotOf(r, t).sequence
  {
    hide RingSafety.SlotOk, RingSafety.EventOk, RingSafety.LogOk, RingSafety.Exclusive, RingSafety.ReleasedOk;
    hide Ring.Index;
    assert RingSafety.ThreadOk(r, k);
  }

  lemma PublishedStays(r: Ring.State<Functor>, m: Ring.Move<Functor>, p: nat)
    requires RingSafety.Invariant(r) && Published(r, p)
    ensures Published(Ring.Apply(r, m), p)
  {
    hide RingSafety.Invariant, Ring.Step;
    RingSafety.HasSlots(r);
    RingSafety.OfferedGrows(r, m);
    if m.tid < |r.threads| && m.action.Advance? {
      forall t: nat | t < p ensures Ring.SlotOf(Ring.Apply(r, m), t).sequence > t {
        SequenceGrows(r, m.tid, m.action.spurious, t);
      }
    } else {
      assert Ring.Apply(r, m).slots == r.slots && Ring.Apply(r, m).offered == r.offered;
      assert forall t: nat :: Ring.SlotOf(Ring.Apply(r, m), t) == Ring.SlotOf(r, t);
    }
  }

  /** A move of the ingress changes the ring by a move of the ring, if at all. */
  lemma RingBelow(s: State, m: Move) returns (below: Option<Ring.Move<Functor>>)
    requires WellFormed(s)
    ensures Apply(s, m).ring == if below.None? then s.ring else Ring.Apply(s.ring, below.value)
  {
    hide Ring.Apply, OutsideStep, PassStep, GateStep;
    below := None;
    if m.tid < |s.calls| && m.action.Advance? {
      if !s.calls[m.tid].NoCall? {
        below := RingBelowCall(s, m.tid, m.action.spurious);
      } else if m.tid == 0 && !s.userCode && s.loop.Dequeue? {
        below := RingBelowLoop(s, m.action.spurious);
      }
    }
  }

  lemma RingBelowCall(s: State, t: nat, spurious: bool) returns (below: Option<Ring.Move<Functor>>)
    requires WellFormed(s) && t < |s.calls|
    ensures CallStep(s, t, spurious).ring == if below.None? then s.ring else Ring.Apply(s.ring, below.value)
  {
    hide Ring.Apply, OutsideStep;
    match s.calls[t]
    case Reserve(cb, seen) =>
      below := if seen < s.capacity && s.count == seen && !spurious
      then Some(Ring.Move(t, Ring.Enqueue(cb))) else None;
    case InRing(cb) =>
      below := Some(Ring.Move(t, if s.ring.threads[t].EnqueueDone? then Ring.Return else Ring.Advance(spurious)));
    case _ =>
      below := None;
  }

  lemma RingBelowLoop(s: State, spurious: bool) returns (below: Option<Ring.Move<Functor>>)
    requires WellFormed(s) && s.loop.Dequeue?
    ensures DequeueStep(s, spurious).ring == if below.None? then s.ring else Ring.Apply(s.ring, below.value)
  {
    hide Ring.Apply;
    match s.ring.threads[0]
    case Idle => below := if s.loop.limit == 0 then None else Some(Ring.Move(0, Ring.Dequeue));
    case DequeueDone(_) => below := Some(Ring.Move(0, Ring.Return));
    case _ => below := Some(Ring.Move(0, Ring.Advance(spurious)));
  }

  lemma StaysPublished(s: State, m: Move, p: nat)
    requires Invariant(s) && Published(s.ring, p)
    ensures Published(Apply(s, m).ring, p) && s.ring.offered <= Apply(s, m).ring.offered
  {
    hide RingSafety.Invariant, RingSafety.OwnersPresent, Published, Apply, Ring.Apply, ThreadsOk, ConsumerOk, LanesOk;
    hide CountOk, AcceptedOk, LoopOk;
    var below := RingBelow(s, m);
    if below.Some? {
      PublishedStays(s.ring, below.value, p);
      RingSafety.OfferedGrows(s.ring, below.value);
    }
  }

  // ---------- What a turn runs ----------

  /** The turn has still to take tickets up to `q`, and can. */
  predicate Heading(s: State, q: int)
    requires WellFormed(s)
  {
    var pc := s.ring.threads[0];
    match s.loop
    case SwapControl(_) => q <= Taken(s) + BATCH_LIMIT
    case RunControl(_, _) => q <= Taken(s) + BATCH_LIMIT
    case StartBatch(_) => q <= Taken(s) + BATCH_LIMIT
    case Dequeue(_, limit, _) =>
      if pc == Ring.DequeueDone(None) then q <= Taken(s)
      else q <= Taken(s) + limit + (if pc.Idle? || pc.DequeueDone? then 0 else 1)
    case Decrement(_, limit, _, _) => q <= Taken(s) + limit
    case _ => q <= Taken(s)
  }

  /** How many callbacks of the control lane have run or are about to. */
  function ControlTaken(s: State): nat {
    |s.controlRun| + |ControlBatch(s.loop)|
  }

  /** What a move of somebody else leaves to the turn. */
  ghost predicate TurnKept(s: State, s': State) {
    && WellFormed(s) && WellFormed(s') && s'.loop == s.loop && Taken(s') == Taken(s)
    && s'.controlRun == s.controlRun && s'.normalRun == s.normalRun && s.controlPushed <= s'.controlPushed
    && (s.loop.Dequeue? ==> s'.ring.threads[0] == s.ring.threads[0])
  }

  lemma RingKeepsTurn(s: State, t: nat, spurious: bool)
    requires Invariant(s) && t < |s.calls| && s.calls[t].InRing?
    ensures TurnKept(s, CallStep(s, t, spurious))
  {
    hide RingSafety.Invariant, RingSafety.OwnersPresent, LanesOk, CountOk, AcceptedOk, Ring.Step;
    assert ThreadOk(s, t) && ThreadOk(s, 0);
    if s.ring.threads[t].EnqueueDone? {
      ReturnKeepsTurn(s, t, spurious);
    } else {
      ProducerEffect(s.ring, t, spurious);
      assert CallStep(s, t, spurious) == s.(ring := Ring.Step(s.ring, t, spurious));
    }
  }

  lemma ReturnKeepsTurn(s: State, t: nat, spurious: bool)
    requires WellFormed(s) && t < |s.calls| && s.calls[t].InRing? && s.ring.threads[t].EnqueueDone?
    requires s.loop.Dequeue? ==> t != 0
    ensures TurnKept(s, CallStep(s, t, spurious))
  {
    hide Ring.Step;
  }

  lemma ReserveKeepsTurn(s: State, t: nat, spurious: bool)
    requires Invariant(s) && t < |s.calls| && s.calls[t].Reserve?
    ensures TurnKept(s, CallStep(s, t, spurious))
  {
    hide RingSafety.Invariant, RingSafety.OwnersPresent, LanesOk, CountOk, AcceptedOk, Ring.Step;
    assert ThreadOk(s, t) && ThreadOk(s, 0);
    ReserveShape(s, t, spurious);
  }

  lemma OutsideKeepsTurn(s: State, t: nat)
    requires WellFormed(s) && t < |s.calls|
    ensures TurnKept(s, OutsideStep(s, t))
  {
  }

  lemma OthersKeepTurn(s: State, m: Move)
    requires Invariant(s) && !LoopMove(s, m) && !s.loop.Events?
    ensures TurnKept(s, Apply(s, m))
  {
    hide Invariant, CallStep, LoopStep;
    IsWellFormed(s);
    if m.tid < |s.calls| && m.action.Advance? && !s.calls[m.tid].NoCall? {
      if s.calls[m.tid].InRing? {
        RingKeepsTurn(s, m.tid, m.action.spurious);
      } else if s.calls[m.tid].Reserve? {
        ReserveKeepsTurn(s, m.tid, m.action.spurious);
      } else {
        OutsideKeepsTurn(s, m.tid);
        CallIsOutside(s, m.tid, m.action.spurious);
      }
    }
  }

  lemma CallIsOutside(s: State, t: nat, spurious: bool)
    requires WellFormed(s) && t < |s.calls| && !s.calls[t].InRing? && !s.calls[t].Reserve?
    ensures CallStep(s, t, spurious) == OutsideStep(s, t)
  {
    hide OutsideStep;
  }

  /** A step of the turn keeps its heading, and takes the control lane over whole. */
  ghost predicate TurnMoved(s: State, s': State, q: int) {
    && WellFormed(s) && WellFormed(s') && (Turning(s'.loop) || s'.loop.CheckQuitAgain?) && Heading(s', q)
    && s'.controlPushed == s.controlPushed && Taken(s') >= Taken(s)
    && !s'.loop.SwapControl? && (s.loop.SwapControl? ==> s'.control == [])
    && ControlTaken(s') == if s.loop.SwapControl? then |s.controlRun| + |s.control| else ControlTaken(s)
  }

  lemma PassTurns(s: State, s': State, q: int)
    requires WellFormed(s) && InPass(s.loop) && Turning(s.loop) && Heading(s, q) && s' == PassStep(s)
    requires s.ring.threads[0].Idle? && Taken(s) >= 0
    ensures TurnMoved(s, s', q)
  {
  }

  lemma DequeueTurns(s: State, spurious: bool, p: nat, q: int)
    requires Invariant(s) && InLoop(s) && s.loop.Dequeue? && Turning(s.loop)
    requires Published(s.ring, p) && q <= p && Heading(s, q)
    ensures TurnMoved(s, DequeueStep(s, spurious), q)
  {
    hide RingSafety.Invariant, RingSafety.OwnersPresent, LanesOk, CountOk, AcceptedOk, Ring.Step;
    var pc := s.ring.threads[0];
    assert ThreadOk(s, 0);
    if Dequeuing(pc) && !pc.DequeueDone? {
      AdvanceTurns(s, DequeueStep(s, spurious), spurious, p, q);
    } else {
      HandTurns(s, spurious, q);
    }
  }

  lemma AdvanceTurns(s: State, s': State, spurious: bool, p: nat, q: int)
    requires WellFormed(s) && RingSafety.Invariant(s.ring) && ConsumerOk(s) && s.loop.Dequeue? && Turning(s.loop)
    requires Published(s.ring, p) && q <= p && Heading(s, q)
    requires Dequeuing(s.ring.threads[0]) && !s.ring.threads[0].DequeueDone? && s' == DequeueStep(s, spurious)
    ensures TurnMoved(s, s', q)
  {
    hide RingSafety.Invariant, Ring.Step;
    ConsumerEffect(s.ring, spurious);
    assert s' == s.(ring := Ring.Step(s.ring, 0, spurious));
  }

  lemma HandTurns(s: State, spurious: bool, q: int)
    requires WellFormed(s) && s.loop.Dequeue? && Turning(s.loop) && Heading(s, q)
    requires s.ring.threads[0].Idle? || s.ring.threads[0].DequeueDone?
    ensures TurnMoved(s, DequeueStep(s, spurious), q)
  {
    hide DequeueStep;
    assert DequeueStep(s, spurious) == DequeueStep(s, false) by {
      HandIsSure(s, spurious);
    }
    if s.ring.threads[0].DequeueDone? {
      DequeueReturns(s);
    } else if s.loop.limit == 0 {
      BatchIsFull(s);
    } else {
      DequeueBegins(s);
    }
  }

  lemma HandIsSure(s: State, spurious: bool)
    requires WellFormed(s) && s.loop.Dequeue? && (s.ring.threads[0].Idle? || s.ring.threads[0].DequeueDone?)
    ensures DequeueStep(s, spurious) == DequeueStep(s, false)
  {
    hide Ring.Step;
  }

  lemma LoopTurns(s: State, spurious: bool, p: nat, q: int)
    requires Invariant(s) && InLoop(s) && Turning(s.loop) && Published(s.ring, p) && q <= p && Heading(s, q)
    ensures TurnMoved(s, LoopStep(s, spurious), q)
  {
    hide RingSafety.Invariant, RingSafety.OwnersPresent, LanesOk, CountOk, AcceptedOk, DequeueStep, PassStep, TurnMoved;
    assert ThreadOk(s, 0);
    if s.loop.Dequeue? {
      DequeueTurns(s, spurious, p, q);
    } else {
      PassTurns(s, PassStep(s), q);
    }
  }

  /** What is certain in the middle of a turn that began in state `b`. */
  ghost predicate InTurn(b: State, s: State, p: nat, q: int)
    requires WellFormed(b)
  {
    && Invariant(s) && (Turning(s.loop) || s.loop.CheckQuitAgain?) && Published(s.ring, p) && Heading(s, q)
    && b.controlPushed <= s.controlPushed && b.ring.offered <= s.ring.offered
    && (s.loop.SwapControl? || ControlTaken(s) >= |b.controlPushed|)
  }

  lemma InTurnStep(b: State, s: State, p: nat, q: int, m: Move)
    requires WellFormed(b) && InTurn(b, s, p, q) && Turning(s.loop) && q <= p
    ensures InTurn(b, Apply(s, m), p, q)
  {
    hide Invariant, Published, Apply, Heading;
    IsWellFormed(s);
    ApplyInvariant(s, m);
    StaysPublished(s, m, p);
    if LoopMove(s, m) {
      LoopMoveIsStep(s, m);
      LoopTurns(s, m.action.spurious, p, q);
      if s.loop.SwapControl? {
        ControlIsWhole(s);
      }
    } else {
      OthersKeepTurn(s, m);
      SameHeading(s, Apply(s, m), q);
    }
  }

  lemma LoopMoveIsStep(s: State, m: Move)
    requires WellFormed(s) && LoopMove(s, m)
    ensures Apply(s, m) == LoopStep(s, m.action.spurious)
  {
    hide LoopStep, CallStep;
  }

  lemma ControlIsWhole(s: State)
    requires Invariant(s) && s.loop.SwapControl?
    ensures |s.controlRun| + |s.control| == |s.controlPushed|
  {
    assert |s.controlRun + ControlBatch(s.loop) + s.control| == |s.controlPushed|;
  }

  lemma SameHeading(s: State, s': State, q: int)
    requires TurnKept(s, s') && Heading(s, q)
    ensures Heading(s', q)
  {
  }

  lemma {:induction false} InTurnRun(b: State, p: nat, q: int, moves: seq<Move>)
    requires WellFormed(b) && InTurn(b, b, p, q) && q <= p
    requires forall i :: 0 <= i < |moves| ==> Turning(Run(b, moves[..i]).loop)
    ensures InTurn(b, Run(b, moves), p, q)
  {
    hide InTurn, Apply, Turning;
    if moves == [] {
      RunNothing(b);
    } else {
      var front, last := moves[..|moves| - 1], moves[|moves| - 1];
      forall i | 0 <= i < |front| ensures Turning(Run(b, front[..i]).loop) {
        assert front[..i] == moves[..i];
      }
      InTurnRun(b, p, q, front);
      assert front == moves[..|moves| - 1];
      InTurnStep(b, Run(b, front), p, q, last);
    }
  }

  function Min(a: int, b: int): int {
    if a < b then a else b
  }

  lemma TurnStarts(s: State, p: nat)
    requires Invariant(s) && s.loop == SwapControl(false) && Published(s.ring, p)
    ensures Taken(s) >= 0 && InTurn(s, s, p, Min(p, Taken(s) + 65536))
  {
    hide RingSafety.Invariant, RingSafety.OwnersPresent, LanesOk, CountOk, AcceptedOk;
  }

  lemma TurnIsThrough(b: State, e: State, p: nat, q: nat)
    requires WellFormed(b) && InTurn(b, e, p, q) && e.loop.CheckQuitAgain? && q <= |b.ring.offered|
    ensures b.controlPushed <= e.controlRun && b.ring.offered[..q] <= e.normalRun
  {
    hide RingSafety.Invariant, RingSafety.OwnersPresent, CountOk, AcceptedOk, Published;
    assert ThreadOk(e, 0);
    assert e.normalRun + [] + [] == e.normalRun && e.controlRun + [] == e.controlRun;
    assert b.ring.offered[..q] == e.ring.offered[..q] <= e.ring.offered[..Taken(e)];
  }

  /** On every run, whatever the other threads and the callbacks do: when the turn that began in `s` is
  through, everything has run that was on the control lane when it began, and of the normal lane all that
  was published without a gap, up to one batch. */
  lemma TurnRunsWhatWaits(s: State, p: nat, moves: seq<Move>)
    requires Invariant(s) && s.loop == SwapControl(false) && Published(s.ring, p)
    requires forall i :: 0 <= i < |moves| ==> Turning(Run(s, moves[..i]).loop)
    requires Run(s, moves).loop.CheckQuitAgain?
    ensures s.controlPushed <= Run(s, moves).controlRun
    ensures 0 <= Taken(s) && 0 <= Min(p, Taken(s) + 65536) <= |s.ring.offered|
    ensures s.ring.offered[..Min(p, Taken(s) + 65536)] <= Run(s, moves).normalRun
  {
    hide Invariant, Run, InTurn;
    IsWellFormed(s);
    TurnStarts(s, p);
    InTurnRun(s, p, Min(p, Taken(s) + 65536), moves);
    TurnIsThrough(s, Run(s, moves), p, Min(p, Taken(s) + 65536));
  }

  // ---------- A turn ends ----------

  function RingStage(pc: RingPc): nat {
    match pc
    case DequeueLoadPos => 9
    case DequeueLoadSeq(_) => 8
    case DequeueCas(_) => 7
    case DequeueTake(_) => 6
    case DequeueRelease(_, _) => 5
    case DequeueDone(_) => 4
    case _ => 1
  }

  /** How many moves of `loop` are left to the turn at most, once it has swapped the control lane. */
  function TurnWork(s: State): int
    requires WellFormed(s)
  {
    match s.loop
    case RunControl(_, batch) => |batch| + 12 * BATCH_LIMIT + 5
    case StartBatch(_) => 12 * BATCH_LIMIT + 4
    case Dequeue(_, limit, batch) => 12 * limit + RingStage(s.ring.threads[0]) + |batch| + 2
    case Decrement(_, limit, batch, _) => 12 * limit + |batch| + 5
    case RunBatch(_, batch) => |batch| + 1
    case _ => 0
  }

  lemma TurnIsCloser(s: State, spurious: bool)
    requires Invariant(s) && InLoop(s) && Turning(s.loop) && !s.loop.SwapControl?
    ensures TurnWork(LoopStep(s, spurious)) < TurnWork(s) + if spurious then 2 else 0
  {
    hide RingSafety.Invariant, RingSafety.OwnersPresent, LanesOk, CountOk, AcceptedOk, TurnWork, DequeueStep, PassStep;
    var pc := s.ring.threads[0];
    assert ThreadOk(s, 0);
    if !s.loop.Dequeue? {
      PassIsCloser(s, PassStep(s));
    } else if Dequeuing(pc) && !pc.DequeueDone? {
      AdvanceIsCloser(s, DequeueStep(s, spurious), spurious);
    } else {
      HandIsCloser(s, spurious);
    }
  }

  lemma PassIsCloser(s: State, s': State)
    requires WellFormed(s) && InPass(s.loop) && Turning(s.loop) && !s.loop.SwapControl? && s' == PassStep(s)
    requires s.ring.threads[0].Idle?
    ensures TurnWork(s') < TurnWork(s)
  {
  }

  lemma AdvanceIsCloser(s: State, s': State, spurious: bool)
    requires WellFormed(s) && RingSafety.Invariant(s.ring) && ConsumerOk(s) && s.loop.Dequeue?
    requires Dequeuing(s.ring.threads[0]) && !s.ring.threads[0].DequeueDone? && s' == DequeueStep(s, spurious)
    ensures TurnWork(s') < TurnWork(s) + if spurious then 2 else 0
  {
    hide RingSafety.Invariant, Ring.Step;
    ConsumerEffect(s.ring, spurious);
    assert s' == s.(ring := Ring.Step(s.ring, 0, spurious));
    if s.ring.threads[0].DequeueLoadSeq? {
      RingSafety.HasSlots(s.ring);
      OldestNotPassed(s);
    }
  }

  /** The position that the only consumer loaded is never stale. */
  lemma OldestNotPassed(s: State)
    requires WellFormed(s) && RingSafety.Invariant(s.ring) && ConsumerOk(s) && s.ring.threads[0].DequeueLoadSeq?
    ensures Ring.SlotOf(s.ring, s.ring.threads[0].pos).sequence <= s.ring.threads[0].pos + 1
  {
    if Ring.SlotOf(s.ring, s.ring.dequeuePos).sequence > s.ring.dequeuePos {
      RingSafety.DequeueSlotIsFull(s.ring);
    }
  }

  lemma HandIsCloser(s: State, spurious: bool)
    requires WellFormed(s) && s.loop.Dequeue? && (s.ring.threads[0].Idle? || s.ring.threads[0].DequeueDone?)
    ensures TurnWork(DequeueStep(s, spurious)) < TurnWork(s)
  {
    hide DequeueStep;
    HandIsSure(s, spurious);
    if s.ring.threads[0].DequeueDone? {
      DequeueReturns(s);
    } else if s.loop.limit == 0 {
      BatchIsFull(s);
    } else {
      DequeueBegins(s);
    }
  }

  lemma OthersKeepTurnWork(s: State, m: Move)
    requires Invariant(s) && !LoopMove(s, m) && Turning(s.loop)
    ensures TurnWork(Apply(s, m)) == TurnWork(s) && Apply(s, m).loop == s.loop
  {
    hide Invariant, Apply;
    OthersKeepTurn(s, m);
  }

  /** Every turn ends. On every run from a state of it, whatever the other threads and the callbacks do in
  between: as long as it is not through, `loop` has made at most as many moves as there was work left, and
  two more for each that may have failed spuriously. */
  lemma {:induction false} TurnEnds(s: State, moves: seq<Move>)
    requires Invariant(s) && Turning(s.loop) && !s.loop.SwapControl?
    requires forall i :: 0 <= i <= |moves| ==> Turning(Run(s, moves[..i]).loop)
    ensures var e := Run(s, moves);
      && Invariant(e) && !e.loop.SwapControl? && TurnWork(e) >= 0
      && LoopMoves(s, moves) + TurnWork(e) <= TurnWork(s) + 2 * SpuriousMoves(s, moves)
  {
    hide Invariant, Apply, Turning, LoopMove;
    IsWellFormed(s);
    if moves == [] {
      RunNothing(s);
      WorkIsLeft(s);
    } else {
      var front, last := moves[..|moves| - 1], moves[|moves| - 1];
      var f := Run(s, front);
      forall i | 0 <= i <= |front| ensures Turning(Run(s, front[..i]).loop) {
        assert front[..i] == moves[..i];
      }
      TurnEnds(s, front);
      assert front[..|front|] == front && moves[..|moves|] == moves;
      ApplyInvariant(f, last);
      TurnMove(f, last);
      WorkIsLeft(Apply(f, last));
    }
  }

  lemma WorkIsLeft(s: State)
    requires WellFormed(s)
    ensures TurnWork(s) >= 0
  {
  }

  lemma TurnMove(s: State, m: Move)
    requires Invariant(s) && Turning(s.loop) && !s.loop.SwapControl?
    ensures TurnWork(Apply(s, m)) + (if LoopMove(s, m) then 1 else 0)
      <= TurnWork(s) + (if LoopMove(s, m) && m.action.spurious then 2 else 0)
    ensures Turning(Apply(s, m).loop) ==> !Apply(s, m).loop.SwapControl?
  {
    hide Invariant, Apply, TurnWork;
    IsWellFormed(s);
    if LoopMove(s, m) {
      LoopMoveIsStep(s, m);
      TurnIsCloser(s, m.action.spurious);
      NeverSwapsTwice(s, m.action.spurious);
    } else {
      OthersKeepTurnWork(s, m);
    }
  }

  lemma NeverSwapsTwice(s: State, spurious: bool)
    requires WellFormed(s) && Turning(s.loop) && !s.loop.SwapControl?
    ensures !LoopStep(s, spurious).loop.SwapControl?
  {
    hide Ring.Apply;
  }

  // ---------- Starting, going round and stopping ----------

  const ADVANCE: Move := Move(0, Advance(false))
  const END_CALLBACK: Move := Move(0, EndCallback)

  lemma RunFour(s: State, a: Move, b: Move, c: Move, d: Move)
    requires WellFormed(s)
    ensures Run(s, [a, b, c, d]) == Apply(Apply(Apply(Apply(s, a), b), c), d)
  {
    hide Run, Apply;
    assert [a, b, c, d] == [a] + ([b] + ([c] + [d]));
    FirstMove(s, a, [b] + ([c] + [d]));
    FirstMove(Apply(s, a), b, [c] + [d]);
    FirstMove(Apply(Apply(s, a), b), c, [d]);
    RunOne(Apply(Apply(Apply(s, a), b), c), d);
  }

  lemma GateMove(s: State)
    requires WellFormed(s) && InLoop(s) && !InPass(s.loop) && !s.loop.Dequeue?
    ensures Apply(s, ADVANCE) == GateStep(s)
  {
    hide GateStep, CallStep, DequeueStep, PassStep;
  }

  lemma PassMove(s: State)
    requires WellFormed(s) && InLoop(s) && InPass(s.loop)
    ensures Apply(s, ADVANCE) == PassStep(s)
  {
    hide GateStep, CallStep, DequeueStep, PassStep;
  }

  lemma CallbackEndMove(s: State)
    requires WellFormed(s) && s.calls[0].NoCall? && s.userCode && !s.loop.Returned?
    ensures Apply(s, END_CALLBACK) == s.(userCode := false)
  {
    hide LoopStep, CallStep;
  }

  /** `loop` starts running with its first turn, unless it was asked to stop before. */
  lemma LoopStarts(s: State)
    requires WellFormed(s) && s.loop.Prologue? && s.userCode && s.calls[0].NoCall? && s.shared == {}
    requires s.lifecycle.Initialized? && !s.quit
    ensures Run(s, [END_CALLBACK, ADVANCE, ADVANCE, ADVANCE])
         == s.(loop := RunControl(false, s.control), control := [], lifecycle := Running, userCode := false)
  {
    hide Run, Apply;
    RunFour(s, END_CALLBACK, ADVANCE, ADVANCE, ADVANCE);
    CallbackEndMove(s);
    GateMove(s.(userCode := false));
    var running := s.(userCode := false, loop := CheckQuit, lifecycle := Running);
    GateMove(running);
    PassMove(running.(loop := SwapControl(false)));
  }

  /** After a turn, unless it was asked to stop, `loop` handles the events and begins the next one. */
  lemma NextTurn(s: State)
    requires WellFormed(s) && InLoop(s) && s.loop.CheckQuitAgain? && !s.quit
    ensures Run(s, [ADVANCE, END_CALLBACK, ADVANCE, ADVANCE]) == s.(loop := SwapControl(false))
  {
    hide Run, Apply;
    RunFour(s, ADVANCE, END_CALLBACK, ADVANCE, ADVANCE);
    GateMove(s);
    CallbackEndMove(s.(loop := Events, userCode := true));
    GateMove(s.(loop := Events));
    GateMove(s.(loop := CheckQuit));
  }

  lemma QuitMove(s: State, t: nat)
    requires WellFormed(s) && t < |s.calls| && (s.calls[t].RequestStop? || s.calls[t].MarkStopping?)
    ensures Apply(s, Move(t, Advance(false))) == QuitStep(s, t)
  {
    hide QuitStep, LoopStep;
  }

  /** A call of `quit` that finds the lifecycle lock free closes the loop and asks it to stop. */
  lemma QuitCloses(s: State, t: nat)
    requires WellFormed(s) && t < |s.calls| && s.calls[t].NoCall? && (t != 0 || s.userCode) && s.shared == {}
    ensures Run(s, [Move(t, Begin(Quit))] + Alone(t, 2))
         == s.(flag := true, lifecycle := if Closed(s) then s.lifecycle else Stopping,
               quit := if Closed(s) then s.quit else true)
  {
    hide Run, LoopStep, CallStep;
    var asked := SetCall(s, t, RequestStop);
    FirstMove(s, Move(t, Begin(Quit)), Alone(t, 2));
    assert Apply(s, Move(t, Begin(Quit))) == asked;
    hide Apply;
    AskAndMark(asked, t);
    assert asked.calls[t := NoCall] == s.calls;
  }

  lemma AskAndMark(s: State, t: nat)
    requires WellFormed(s) && t < |s.calls| && s.calls[t].RequestStop? && s.shared == {}
    ensures Run(s, Alone(t, 2))
         == s.(calls := s.calls[t := NoCall], flag := true, lifecycle := if Closed(s) then s.lifecycle else Stopping,
               quit := if Closed(s) then s.quit else true)
  {
    hide Run, Apply;
    FirstAlone(s, t, 2);
    QuitMove(s, t);
    var flagged := SetCall(s, t, MarkStopping).(flag := true);
    FirstAlone(flagged, t, 1);
    QuitMove(flagged, t);
    assert Alone(t, 0) == [];
    RunNothing(QuitStep(flagged, t));
  }

  /** A loop that was asked to stop, or whose ring failed, closes itself and begins its final drain. */
  lemma StopIsFollowed(s: State)
    requires Invariant(s) && InLoop(s) && s.shared == {}
    requires s.loop.StopIngress? || (s.quit && (s.loop.CheckQuit? || s.loop.CheckQuitAgain?))
    ensures var e := Run(s, Alone(0, if s.loop.StopIngress? then 4 else 5));
      Invariant(e) && e.loop == SwapControl(true) && Closed(e) && e.flag
  {
    hide Run, Invariant, Apply;
    IsWellFormed(s);
    RunInvariant(s, Alone(0, if s.loop.StopIngress? then 4 else 5));
    if !s.loop.StopIngress? {
      FirstAlone(s, 0, 5);
      GateMove(s);
    }
    StopInFour(s.(loop := StopIngress));
  }

  lemma StopInFour(s: State)
    requires WellFormed(s) && InLoop(s) && s.shared == {} && s.loop.StopIngress?
    ensures var e := Run(s, Alone(0, 4)); e.loop == SwapControl(true) && Closed(e) && e.flag
  {
    hide Run, Apply;
    FirstAlone(s, 0, 4);
    GateMove(s);
    var asked := SetCall(s, 0, RequestStop).(loop := AwaitStop);
    assert Alone(0, 3) == Alone(0, 2) + Alone(0, 1);
    RunAppend(asked, Alone(0, 2), Alone(0, 1));
    AskAndMark(asked, 0);
    var closed := Run(asked, Alone(0, 2));
    FirstAlone(closed, 0, 1);
    GateMove(closed);
    assert Alone(0, 0) == [];
    RunNothing(GateStep(closed));
  }
}

/** What the two queueing calls of the event loop answer, and that they end. */
module LoopIngressCalls {
  import opened LoopIngress
  import opened LoopIngressSafety
  import Ring = LockFreeQueue
  import RingSafety = LockFreeQueueSafety
  import RingProgress = LockFreeQueueProgress

  /** A call of `queueInLoop` or `queueControlInLoop`. */
  predicate Queueing(c: Call) {
    !c.NoCall? && !c.RequestStop? && !c.MarkStopping?
  }

  function LaneOf(c: Call): Lane {
    match c
    case CheckFlag(lane, _) => lane
    case LockShared(lane, _) => lane
    case Recheck(lane, _) => lane
    case PushControl(_) => Control
    case UnlockShared(lane, _, _) => lane
    case _ => Normal
  }

  /** Nothing of the kind that makes a call answer false. */
  predicate Open(s: State, lane: Lane) {
    !s.flag && !Closed(s) && (lane.Normal? ==> s.count < s.capacity)
  }

  /** What a call will answer if all other threads rest. */
  predicate Accepts(s: State, t: nat)
    requires t < |s.calls|
  {
    match s.calls[t]
    case CheckFlag(lane, _) => Open(s, lane)
    case LockShared(lane, _) => Open(s, lane)
    case Recheck(lane, _) => Open(s, lane)
    case LoadCount(_) => s.count < s.capacity
    case Reserve(_, seen) => seen < s.capacity && s.count < s.capacity
    case InRing(_) => true
    case PushControl(_) => true
    case UnlockShared(_, _, ok) => ok
    case _ => false
  }

  /** The callback of a call has entered its lane. */
  predicate HasEntered(c: Call, pc: RingPc) {
    c.UnlockShared? || (c.InRing? && !RingProgress.Offering(pc))
  }

  /** The lanes and the reports when the call of thread `t` has returned, if all other threads rest. */
  datatype Lanes = Lanes(offered: seq<Functor>, controlPushed: seq<Functor>,
                         acceptedNormal: multiset<Functor>, acceptedControl: multiset<Functor>)

  function Added(c: Call, lane: Lane, yes: bool): seq<Functor> {
    if yes && Queueing(c) && LaneOf(c) == lane then [c.cb] else []
  }

  function Promised(s: State, t: nat): Lanes
    requires WellFormed(s) && t < |s.calls|
  {
    var c, yes := s.calls[t], Accepts(s, t);
    var enters := yes && !HasEntered(c, s.ring.threads[t]);
    Lanes(s.ring.offered + Added(c, Normal, enters), s.controlPushed + Added(c, Control, enters),
          s.acceptedNormal + multiset(Added(c, Normal, yes)), s.acceptedControl + multiset(Added(c, Control, yes)))
  }

  /** Actions left to an enqueue of the ring. */
  function RingActions(r: Ring.State<Functor>, t: nat): nat
    requires t < |r.threads|
  {
    if RingProgress.Offering(r.threads[t]) then RingProgress.EnqueueActions(r, t)
    else if r.threads[t].EnqueueWrite? then 2
    else if r.threads[t].EnqueuePublish? then 1 else 0
  }

  /** Moves left to a queueing call that runs alone. */
  function CallMoves(s: State, t: nat): nat
    requires WellFormed(s) && t < |s.calls|
  {
    match s.calls[t]
    case CheckFlag(_, _) => 12
    case LockShared(_, _) => 11
    case Recheck(_, _) => 10
    case LoadCount(_) => 9
    case Reserve(_, seen) => if seen >= s.capacity then 2 else if seen == s.count then 8 else 9
    case InRing(_) => 2 + RingActions(s.ring, t)
    case Unreserve(_) => 2
    case PushControl(_) => 2
    case UnlockShared(_, _, _) => 1
    case _ => 0
  }

  /** A move of a queueing call: closer to its end, with the same outcome ahead. */
  ghost predicate CallMoved(s: State, s': State, t: nat) {
    && WellFormed(s) && WellFormed(s') && t < |s.calls| == |s'.calls|
    && s'.calls == s.calls[t := s'.calls[t]] && (Queueing(s'.calls[t]) || s'.calls[t].NoCall?)
    && CallMoves(s', t) < CallMoves(s, t) && Promised(s', t) == Promised(s, t)
    && Unmoved(s, s', t)
  }

  /** A queueing call touches neither `loop` nor the stopping state, and no other thread's lock. */
  ghost predicate Unmoved(s: State, s': State, t: nat) {
    && s'.capacity == s.capacity && s'.loop == s.loop && s'.userCode == s.userCode
    && s'.flag == s.flag && s'.quit == s.quit && s'.lifecycle == s.lifecycle && s'.shared - {t} == s.shared - {t}
    && s'.normalRun == s.normalRun && s'.controlRun == s.controlRun
  }

  /** A move that neither enters a lane nor reports. */
  lemma SamePromise(s: State, s': State, t: nat)
    requires WellFormed(s) && WellFormed(s') && t < |s.calls| == |s'.calls|
    requires s'.ring.offered == s.ring.offered && s'.controlPushed == s.controlPushed
    requires s'.acceptedNormal == s.acceptedNormal && s'.acceptedControl == s.acceptedControl
    requires Accepts(s', t) == Accepts(s, t)
    requires var c, c' := s.calls[t], s'.calls[t];
      Accepts(s, t) ==>
        && Queueing(c) && Queueing(c') && LaneOf(c) == LaneOf(c') && c.cb == c'.cb
        && HasEntered(c, s.ring.threads[t]) == HasEntered(c', s'.ring.threads[t])
    ensures Promised(s', t) == Promised(s, t)
  {
    hide Accepts, HasEntered, LaneOf, Queueing;
  }

  lemma EnterMoved(s: State, s': State, t: nat)
    requires WellFormed(s) && t < |s.calls| && s' == EnterStep(s, t)
    requires var c := s.calls[t]; c.CheckFlag? || c.LockShared? || c.Recheck? || c.LoadCount?
    ensures CallMoved(s, s', t)
  {
    hide Promised;
    SamePromise(s, s', t);
  }

  lemma PushMoved(s: State, s': State, t: nat)
    requires WellFormed(s) && t < |s.calls| && s' == LeaveStep(s, t) && s.calls[t].PushControl?
    ensures CallMoved(s, s', t)
  {
    hide Promised;
    var cb := s.calls[t].cb;
    assert s'.calls == s.calls[t := UnlockShared(Control, cb, true)];
    PromisedAtPush(s, t);
    PromisedAtLast(s', t);
  }

  lemma PromisedAtPush(s: State, t: nat)
    requires WellFormed(s) && t < |s.calls| && s.calls[t].PushControl?
    ensures var cb := s.calls[t].cb;
      Promised(s, t) ==
        Lanes(s.ring.offered, s.controlPushed + [cb], s.acceptedNormal, s.acceptedControl + multiset{cb})
  {
    var c := s.calls[t];
    assert Accepts(s, t) && !HasEntered(c, s.ring.threads[t]) && Queueing(c) && LaneOf(c) == Control;
    hide Accepts, HasEntered, Queueing, LaneOf, Added;
    OneAdded(s.ring.offered, s.acceptedNormal, c, Normal, true);
    OneAdded(s.controlPushed, s.acceptedControl, c, Control, true);
  }

  lemma UnlockMoved(s: State, s': State, t: nat)
    requires WellFormed(s) && t < |s.calls| && s' == LeaveStep(s, t) && s.calls[t].UnlockShared?
    ensures CallMoved(s, s', t)
  {
    hide Promised;
    assert s'.calls == s.calls[t := NoCall];
    Reported(s, s', t);
  }

  lemma Reported(s: State, s': State, t: nat)
    requires WellFormed(s) && t < |s.calls| && s' == LeaveStep(s, t) && s.calls[t].UnlockShared?
    ensures Promised(s', t) == Promised(s, t)
  {
    var UnlockShared(lane, cb, ok) := s.calls[t];
    NothingPromised(s', t);
    PromisedAtLast(s, t);
    if ok && lane.Normal? {
      assert s'.acceptedNormal == s.acceptedNormal + multiset{cb};
    }
  }

  lemma PromisedAtLast(s: State, t: nat)
    requires WellFormed(s) && t < |s.calls| && s.calls[t].UnlockShared?
    ensures var UnlockShared(lane, cb, ok) := s.calls[t];
      Promised(s, t) == Lanes(
        s.ring.offered, s.controlPushed,
        if ok && lane.Normal? then s.acceptedNormal + multiset{cb} else s.acceptedNormal,
        if ok && lane.Control? then s.acceptedControl + multiset{cb} else s.acceptedControl)
  {
    var UnlockShared(lane, cb, ok) := s.calls[t];
    assert multiset([cb]) == multiset{cb};
  }

  lemma ReserveMoved(s: State, s': State, t: nat)
    requires WellFormed(s) && t < |s.calls| && s' == CallStep(s, t, false)
    requires s.calls[t].Reserve? && s.ring.threads[t].Idle?
    ensures CallMoved(s, s', t)
  {
    hide Promised, CallStep;
    ReserveSettles(s, s', t);
    SamePromise(s, s', t);
  }

  lemma ReserveSettles(s: State, s': State, t: nat)
    requires WellFormed(s) && t < |s.calls| && s' == CallStep(s, t, false)
    requires s.calls[t].Reserve? && s.ring.threads[t].Idle?
    ensures var Reserve(cb, seen) := s.calls[t];
      if seen >= s.capacity then s' == SetCall(s, t, UnlockShared(Normal, cb, false))
      else if s.count == seen then
        s' == SetCall(s, t, InRing(cb)).(count := s.count + 1, ring := Ring.At(s.ring, t, Ring.EnqueueLoadPos(cb)))
      else s' == SetCall(s, t, Reserve(cb, s.count))
  {
    hide Ring.Step;
  }

  lemma RingDoneMoved(s: State, s': State, t: nat)
    requires WellFormed(s) && t < |s.calls| && s' == CallStep(s, t, false)
    requires s.calls[t].InRing? && s.ring.threads[t] == Ring.EnqueueDone(true)
    ensures CallMoved(s, s', t)
  {
    hide Promised, Ring.Step;
    SamePromise(s, s', t);
  }

  lemma RingAdvanceMoved(s: State, s': State, t: nat)
    requires WellFormed(s) && t < |s.calls| && s' == s.(ring := s'.ring)
    requires s.calls[t].InRing? && |s'.ring.threads| == |s.ring.threads| && |s'.ring.slots| > 0
    requires RingActions(s'.ring, t) < RingActions(s.ring, t)
    requires s'.ring.offered + (if RingProgress.Offering(s'.ring.threads[t]) then [s.calls[t].cb] else [])
          == s.ring.offered + (if RingProgress.Offering(s.ring.threads[t]) then [s.calls[t].cb] else [])
    ensures CallMoved(s, s', t)
  {
  }

  /** Inside the ring an enqueue that was admitted gets its ticket. */
  lemma RingCloser(s: State, t: nat)
    requires Invariant(s) && t < |s.calls| && s.calls[t].InRing? && !s.ring.threads[t].EnqueueDone?
    ensures var r, cb := Ring.Step(s.ring, t, false), s.calls[t].cb;
      && |r.threads| == |s.ring.threads| && |r.slots| > 0 && RingActions(r, t) < RingActions(s.ring, t)
      && r.offered + (if RingProgress.Offering(r.threads[t]) then [cb] else [])
      == s.ring.offered + (if RingProgress.Offering(s.ring.threads[t]) then [cb] else [])
  {
    hide RingSafety.Invariant, RingSafety.OwnersPresent, ConsumerOk, LanesOk, CountOk, AcceptedOk, LoopOk, Ring.Index;
    assert ThreadOk(s, t);
    var pc := s.ring.threads[t];
    if RingProgress.Offering(pc) && !(pc.EnqueueCas? && pc.pos == s.ring.enqueuePos) {
      RingProgress.EnqueueLooks(s.ring, t, Ring.Step(s.ring, t, false).threads[t]);
      NotRefused(s, t);
    } else {
      RingSafety.HasSlots(s.ring);
    }
  }

  lemma NotRefused(s: State, t: nat)
    requires Invariant(s) && t < |s.calls| && s.calls[t].InRing? && !s.ring.threads[t].EnqueueDone?
    ensures Ring.Step(s.ring, t, false).threads[t] != Ring.EnqueueDone(false)
  {
    hide RingSafety.Invariant, RingSafety.OwnersPresent, ConsumerOk, LanesOk, CountOk, AcceptedOk, LoopOk, Ring.Step;
    assert ThreadOk(s, t);
    ProducerEffect(s.ring, t, false);
    if s.ring.threads[t].EnqueueLoadSeq? {
      RingHasRoom(s, t);
    }
  }

  lemma IdleInRing(s: State, t: nat)
    requires Invariant(s) && t < |s.calls| && !s.calls[t].NoCall? && !s.calls[t].InRing?
    ensures s.ring.threads[t].Idle?
  {
    assert ThreadOk(s, t);
  }

  /** A queueing call that moves comes closer to its end. */
  lemma CallCloser(s: State, t: nat)
    requires Invariant(s) && t < |s.calls| && Queueing(s.calls[t])
    ensures CallMoved(s, Apply(s, Move(t, Advance(false))), t)
  {
    hide CallMoved, RingSafety.Invariant, RingSafety.OwnersPresent, Ring.Apply, EnterStep, LeaveStep, QuitStep;
    hide ConsumerOk, LanesOk, CountOk, AcceptedOk, LoopOk;
    assert ThreadOk(s, t);
    var s', c := CallStep(s, t, false), s.calls[t];
    if c.InRing? {
      if s.ring.threads[t].EnqueueDone? {
        RingDoneMoved(s, s', t);
      } else {
        RingCloser(s, t);
        RingProgress.AdvanceIsStep(s.ring, t);
        RingAdvanceMoved(s, s', t);
      }
    } else if c.Reserve? {
      IdleInRing(s, t);
      ReserveMoved(s, s', t);
    } else if c.PushControl? {
      PushMoved(s, s', t);
    } else if c.UnlockShared? {
      UnlockMoved(s, s', t);
    } else {
      EnterMoved(s, s', t);
    }
  }

  // ---------- Calls that run alone ----------

  /** A thread takes `n` moves while all others rest. */
  function Alone(t: nat, n: nat): (moves: seq<Move>)
    ensures |moves| == n && forall i :: 0 <= i < n ==> moves[i] == Move(t, Advance(false))
  {
    seq(n, i => Move(t, Advance(false)))
  }

  lemma {:induction false} RunAppend(s: State, a: seq<Move>, b: seq<Move>)
    requires WellFormed(s)
    ensures Run(s, a + b) == Run(Run(s, a), b)
  {
    hide Apply;
    if b == [] {
      assert a + b == a;
    } else {
      var front, last := b[..|b| - 1], b[|b| - 1];
      RunAppend(s, a, front);
      assert (a + b)[..|a + b| - 1] == a + front;
    }
  }

  lemma RunOne(s: State, m: Move)
    requires WellFormed(s)
    ensures Run(s, [m]) == Apply(s, m)
  {
    hide Apply;
    assert [m][..0] == [];
    assert Run(s, []) == s;
  }

  lemma FirstMove(s: State, m: Move, moves: seq<Move>)
    requires WellFormed(s)
    ensures Run(s, [m] + moves) == Run(Apply(s, m), moves)
  {
    hide Run, Apply;
    RunAppend(s, [m], moves);
    RunOne(s, m);
  }

  lemma FirstAlone(s: State, t: nat, n: nat)
    requires WellFormed(s) && n > 0
    ensures Run(s, Alone(t, n)) == Run(Apply(s, Move(t, Advance(false))), Alone(t, n - 1))
  {
    hide Run, Apply;
    assert Alone(t, n) == [Move(t, Advance(false))] + Alone(t, n - 1);
    FirstMove(s, Move(t, Advance(false)), Alone(t, n - 1));
  }

  /** The move after which a call has returned, or none is left. */
  function Returns(s: State, t: nat, n: nat): (k: nat)
    requires WellFormed(s) && t < |s.calls|
    ensures k <= n
    decreases n
  {
    if n == 0 || s.calls[t].NoCall? then 0 else 1 + Returns(Apply(s, Move(t, Advance(false))), t, n - 1)
  }

  lemma {:induction false} CallRunsAlone(s: State, t: nat, n: nat)
    requires Invariant(s) && t < |s.calls| && (Queueing(s.calls[t]) || s.calls[t].NoCall?) && n >= CallMoves(s, t)
    ensures var e := Run(s, Alone(t, Returns(s, t, n)));
      && Invariant(e) && e.calls == s.calls[t := NoCall] && Promised(e, t) == Promised(s, t) && Unmoved(s, e, t)
    decreases n
  {
    hide Invariant, Run, Apply, Promised;
    IsWellFormed(s);
    if s.calls[t].NoCall? {
      assert Alone(t, 0) == [] && Run(s, []) == s by {
        RunNothing(s);
      }
      assert s.calls[t := NoCall] == s.calls;
    } else {
      var next := Apply(s, Move(t, Advance(false)));
      CallCloser(s, t);
      ApplyInvariant(s, Move(t, Advance(false)));
      CallRunsAlone(next, t, n - 1);
      FirstAlone(s, t, Returns(s, t, n));
      assert s.calls[t := NoCall] == next.calls[t := NoCall];
    }
  }

  lemma RunNothing(s: State)
    requires WellFormed(s)
    ensures Run(s, []) == s
  {
  }

  /** A call of `queueInLoop` or `queueControlInLoop` that runs alone returns within twelve moves, from any
  reachable state and wherever inside it stands. */
  lemma QueueingCallEnds(s: State, t: nat)
    requires Invariant(s) && t < |s.calls| && Queueing(s.calls[t])
    ensures exists n :: 0 < n <= 12 && Run(s, Alone(t, n)).calls == s.calls[t := NoCall]
  {
    hide Invariant, Run, Promised;
    IsWellFormed(s);
    AtMostTwelve(s, t);
    CallRunsAlone(s, t, 12);
    assert Returns(s, t, 12) > 0;
  }

  lemma AtMostTwelve(s: State, t: nat)
    requires WellFormed(s) && t < |s.calls|
    ensures CallMoves(s, t) <= 12
  {
  }

  /** A whole call that runs alone. It answers true, with its callback behind everything else in its lane,
  exactly when the loop has not been asked to stop, is not closed and, in the normal lane, holds fewer
  callbacks than its capacity. Otherwise the lanes are as they were. */
  lemma QueueingAnswer(s: State, t: nat, lane: Lane, cb: Functor, n: nat)
    requires Invariant(s) && t < |s.calls| && s.calls[t].NoCall? && (t != 0 || s.userCode)
    requires n == Returns(Apply(s, Move(t, Begin(Queue(lane, cb)))), t, 12)
    ensures var e := Run(s, [Move(t, Begin(Queue(lane, cb)))] + Alone(t, n));
      && Invariant(e) && e.calls == s.calls && Unmoved(s, e, t)
      && Lanes(e.ring.offered, e.controlPushed, e.acceptedNormal, e.acceptedControl)
      == WithAnswer(s, lane, cb, Open(s, lane))
  {
    hide Invariant, Run, CallMoves, Promised, WithAnswer, Open;
    IsWellFormed(s);
    var m := Move(t, Begin(Queue(lane, cb)));
    var begun := Apply(s, m);
    assert begun == SetCall(s, t, CheckFlag(lane, cb));
    ApplyInvariant(s, m);
    AtMostTwelve(begun, t);
    CallRunsAlone(begun, t, 12);
    FirstMove(s, m, Alone(t, n));
    var e := Run(begun, Alone(t, n));
    assert s.calls[t := NoCall] == s.calls && begun.calls[t := NoCall] == s.calls;
    IsWellFormed(e);
    PromisedAtFirst(s, t, lane, cb);
    NothingPromised(e, t);
  }

  /** The lanes and the reports with one more callback in a lane, or as they are. */
  function WithAnswer(s: State, lane: Lane, cb: Functor, yes: bool): Lanes {
    if !yes then Lanes(s.ring.offered, s.controlPushed, s.acceptedNormal, s.acceptedControl)
    else if lane.Normal? then
      Lanes(s.ring.offered + [cb], s.controlPushed, s.acceptedNormal + multiset{cb}, s.acceptedControl)
    else Lanes(s.ring.offered, s.controlPushed + [cb], s.acceptedNormal, s.acceptedControl + multiset{cb})
  }

  lemma PromisedAtFirst(s: State, t: nat, lane: Lane, cb: Functor)
    requires WellFormed(s) && t < |s.calls|
    ensures Promised(SetCall(s, t, CheckFlag(lane, cb)), t) == WithAnswer(s, lane, cb, Open(s, lane))
  {
    hide Promised, WithAnswer;
    var begun := SetCall(s, t, CheckFlag(lane, cb));
    assert Accepts(begun, t) == Open(s, lane);
    PromiseIsAnswer(begun, t, lane, cb);
    SameAnswer(s, begun, lane, cb, Open(s, lane));
  }

  lemma PromiseIsAnswer(s: State, t: nat, lane: Lane, cb: Functor)
    requires WellFormed(s) && t < |s.calls| && s.calls[t] == CheckFlag(lane, cb)
    ensures Promised(s, t) == WithAnswer(s, lane, cb, Accepts(s, t))
  {
    hide Accepts;
    var yes := Accepts(s, t);
    assert !HasEntered(s.calls[t], s.ring.threads[t]);
    OneAdded(s.ring.offered, s.acceptedNormal, s.calls[t], Normal, yes);
    OneAdded(s.controlPushed, s.acceptedControl, s.calls[t], Control, yes);
  }

  lemma OneAdded(entered: seq<Functor>, accepted: multiset<Functor>, c: Call, lane: Lane, yes: bool)
    requires Queueing(c)
    ensures entered + Added(c, lane, yes) == if yes && LaneOf(c) == lane then entered + [c.cb] else entered
    ensures accepted + multiset(Added(c, lane, yes))
         == if yes && LaneOf(c) == lane then accepted + multiset{c.cb} else accepted
  {
    hide LaneOf;
    assert multiset([c.cb]) == multiset{c.cb};
  }

  lemma SameAnswer(s: State, s': State, lane: Lane, cb: Functor, yes: bool)
    requires s' == s.(calls := s'.calls)
    ensures WithAnswer(s', lane, cb, yes) == WithAnswer(s, lane, cb, yes)
  {
  }

  function Queue(lane: Lane, cb: Functor): Api {
    if lane.Normal? then QueueInLoop(cb) else QueueControlInLoop(cb)
  }

  lemma NothingPromised(s: State, t: nat)
    requires WellFormed(s) && t < |s.calls| && s.calls[t].NoCall?
    ensures Promised(s, t) == Lanes(s.ring.offered, s.controlPushed, s.acceptedNormal, s.acceptedControl)
  {
  }

  // ---------- Calls among others ----------

  /** It is settled that the call answers false. */
  predicate Doomed(s: State, t: nat)
    requires t < |s.calls|
  {
    || (s.calls[t].UnlockShared? && !s.calls[t].ok)
    || (s.calls[t].Reserve? && s.calls[t].seen >= s.capacity)
  }

  /** A move inside a call changes nothing of `loop` and of the other calls. */
  lemma CallFrame(s: State, t: nat, spurious: bool)
    requires WellFormed(s) && t < |s.calls| && !s.calls[t].NoCall?
    ensures var s' := CallStep(s, t, spurious);
      && s'.calls == s.calls[t := s'.calls[t]] && s'.loop == s.loop && s'.userCode == s.userCode
      && (Queueing(s.calls[t]) ==>
            && s'.flag == s.flag && s'.quit == s.quit && s'.lifecycle == s.lifecycle
            && (Queueing(s'.calls[t]) || s'.calls[t].NoCall?))
      && (!Queueing(s.calls[t]) ==> !Queueing(s'.calls[t]))
  {
    if s.calls[t].InRing? || s.calls[t].Reserve? {
      RingCallFrame(s, t, spurious);
    } else {
      hide OutsideStep;
      OutsideFrame(s, t);
    }
  }

  lemma RingCallFrame(s: State, t: nat, spurious: bool)
    requires WellFormed(s) && t < |s.calls| && (s.calls[t].InRing? || s.calls[t].Reserve?)
    ensures var s' := CallStep(s, t, spurious);
      && s'.calls == s.calls[t := s'.calls[t]] && s'.loop == s.loop && s'.userCode == s.userCode
      && s'.flag == s.flag && s'.quit == s.quit && s'.lifecycle == s.lifecycle && Queueing(s'.calls[t])
  {
    hide OutsideStep, RingMove;
    if s.calls[t].InRing? {
      InRingShape(s, t, spurious);
    } else {
      ReserveShape(s, t, spurious);
    }
  }

  lemma InRingShape(s: State, t: nat, spurious: bool)
    requires WellFormed(s) && t < |s.calls| && s.calls[t].InRing?
    ensures var s' := CallStep(s, t, spurious);
      s' == s.(calls := s.calls[t := s'.calls[t]], ring := s'.ring) && Queueing(s'.calls[t])
  {
    hide Ring.Apply;
    if !s.ring.threads[t].EnqueueDone? {
      assert s.calls[t := s.calls[t]] == s.calls;
    }
  }

  lemma ReserveShape(s: State, t: nat, spurious: bool)
    requires WellFormed(s) && t < |s.calls| && s.calls[t].Reserve?
    ensures var s' := CallStep(s, t, spurious);
      && s' == s.(calls := s.calls[t := s'.calls[t]], ring := s'.ring, count := s'.count)
      && Queueing(s'.calls[t])
  {
    hide Ring.Apply;
  }

  lemma OutsideFrame(s: State, t: nat)
    requires WellFormed(s) && t < |s.calls| && !s.calls[t].NoCall?
    ensures var s' := OutsideStep(s, t);
      && s'.calls == s.calls[t := s'.calls[t]]
      && (Queueing(s.calls[t]) ==>
            && s'.flag == s.flag && s'.quit == s.quit && s'.lifecycle == s.lifecycle
            && (Queueing(s'.calls[t]) || s'.calls[t].NoCall?))
      && (!Queueing(s.calls[t]) ==> !Queueing(s'.calls[t]))
  {
    hide EnterStep, LeaveStep, QuitStep;
    var c := s.calls[t];
    if c.Unreserve? || c.PushControl? || c.UnlockShared? {
      LeaveFrame(s, t);
    } else if c.RequestStop? || c.MarkStopping? {
      QuitFrame(s, t);
    } else {
      EnterFrame(s, t);
    }
  }

  lemma LeaveFrame(s: State, t: nat)
    requires WellFormed(s) && t < |s.calls|
    requires var c := s.calls[t]; c.Unreserve? || c.PushControl? || c.UnlockShared?
    ensures var s' := LeaveStep(s, t);
      s'.calls == s.calls[t := s'.calls[t]] && (Queueing(s'.calls[t]) || s'.calls[t].NoCall?)
  {
  }

  lemma QuitFrame(s: State, t: nat)
    requires WellFormed(s) && t < |s.calls| && (s.calls[t].RequestStop? || s.calls[t].MarkStopping?)
    ensures var s' := QuitStep(s, t);
      s'.calls == s.calls[t := s'.calls[t]] && !Queueing(s'.calls[t])
  {
  }

  lemma EnterFrame(s: State, t: nat)
    requires WellFormed(s) && t < |s.calls| && !s.calls[t].NoCall?
    ensures var s' := EnterStep(s, t);
      && s'.calls == s.calls[t := s'.calls[t]]
      && (Queueing(s.calls[t]) ==> Queueing(s'.calls[t]) || s'.calls[t].NoCall?)
  {
  }

  /** A move of `loop` changes no call, but that it begins its own quit. */
  lemma LoopFrame(s: State, spurious: bool)
    requires WellFormed(s)
    ensures var s' := LoopStep(s, spurious);
      && s'.calls == (if s.loop.StopIngress? then s.calls[0 := RequestStop] else s.calls)
      && s'.flag == s.flag && s'.quit == s.quit
  {
    hide Ring.Apply, PassStep, GateStep;
    if !s.loop.Dequeue? && !InPass(s.loop) {
      GateCalls(s);
    }
  }

  lemma GateCalls(s: State)
    requires WellFormed(s)
    ensures GateStep(s).calls == if s.loop.StopIngress? then s.calls[0 := RequestStop] else s.calls
  {
  }

  lemma DoomStep(s: State, m: Move, t: nat)
    requires Invariant(s) && t < |s.calls| && Doomed(Apply(s, m), t)
    ensures var lane := LaneOf(Apply(s, m).calls[t]);
      (Doomed(s, t) && LaneOf(s.calls[t]) == lane) || !Open(s, lane)
  {
    hide Invariant, CallStep, LoopStep, LaneOf, Open;
    IsWellFormed(s);
    if m.tid < |s.calls| && m.action.Advance? {
      if s.calls[m.tid].NoCall? {
        LoopFrame(s, m.action.spurious);
      } else {
        CallFrame(s, m.tid, m.action.spurious);
        if m.tid == t {
          DoomingCall(s, t, m.action.spurious);
        }
      }
    }
  }

  lemma DoomingCall(s: State, t: nat, spurious: bool)
    requires Invariant(s) && t < |s.calls| && Doomed(CallStep(s, t, spurious), t)
    ensures var lane := LaneOf(CallStep(s, t, spurious).calls[t]);
      (Doomed(s, t) && LaneOf(s.calls[t]) == lane) || !Open(s, lane)
  {
    hide Invariant;
    NeverTurnedAway(s, t);
    if s.calls[t].InRing? || s.calls[t].Reserve? {
      hide OutsideStep, Ring.Apply;
    } else {
      hide OutsideStep;
      DoomingOutside(s, t);
    }
  }

  lemma DoomingOutside(s: State, t: nat)
    requires WellFormed(s) && t < |s.calls| && !s.calls[t].Unreserve? && Doomed(OutsideStep(s, t), t)
    ensures var lane := LaneOf(OutsideStep(s, t).calls[t]);
      (Doomed(s, t) && LaneOf(s.calls[t]) == lane) || !Open(s, lane)
  {
    hide EnterStep, LeaveStep, QuitStep;
    var c := s.calls[t];
    if c.PushControl? || c.UnlockShared? {
      NotDoomedAtLast(s, t);
    } else if c.RequestStop? || c.MarkStopping? {
      QuitFrame(s, t);
    } else {
      DoomingEnter(s, t);
    }
  }

  lemma NotDoomedAtLast(s: State, t: nat)
    requires WellFormed(s) && t < |s.calls| && (s.calls[t].PushControl? || s.calls[t].UnlockShared?)
    ensures !Doomed(LeaveStep(s, t), t)
  {
  }

  lemma DoomingEnter(s: State, t: nat)
    requires WellFormed(s) && t < |s.calls| && Doomed(EnterStep(s, t), t)
    ensures var lane := LaneOf(EnterStep(s, t).calls[t]);
      (Doomed(s, t) && LaneOf(s.calls[t]) == lane) || !Open(s, lane)
  {
  }

  lemma NeverTurnedAway(s: State, t: nat)
    requires Invariant(s) && t < |s.calls|
    ensures WellFormed(s) && s.ring.threads[t] != Ring.EnqueueDone(false) && !s.calls[t].Unreserve?
  {
    assert ThreadOk(s, t);
  }

  lemma {:induction false} DoomedSawBlock(s: State, moves: seq<Move>, t: nat)
    requires Invariant(s) && t < |s.calls| && !Doomed(s, t)
    requires Doomed(Run(s, moves), t)
    ensures BlockedWithin(s, moves, LaneOf(Run(s, moves).calls[t]))
  {
    hide Invariant, Apply, Doomed, Open, LaneOf;
    IsWellFormed(s);
    if moves == [] {
      RunNothing(s);
    } else {
      var front, last := moves[..|moves| - 1], moves[|moves| - 1];
      var lane := LaneOf(Run(s, moves).calls[t]);
      RunInvariant(s, front);
      DoomStep(Run(s, front), last, t);
      if !Open(Run(s, front), lane) {
        assert moves[..|front|] == front;
      } else {
        DoomedSawBlock(s, front, t);
        var i :| 0 <= i <= |front| && !Open(Run(s, front[..i]), lane);
        assert moves[..i] == front[..i];
      }
    }
  }

  /** At some moment of the run something made calls in this lane answer false. */
  ghost predicate BlockedWithin(s: State, moves: seq<Move>, lane: Lane)
    requires WellFormed(s)
  {
    exists i :: 0 <= i <= |moves| && !Open(Run(s, moves[..i]), lane)
  }

  /** On every run, whatever the other threads do: a queueing call that began after `s` and returns without
  its callback having been accepted met a moment at which the loop had been asked to stop, was closed or,
  in the normal lane, was at its capacity. */
  lemma RefusedOnlyWhenBlocked(s: State, moves: seq<Move>, m: Move)
    requires Invariant(s) && m.tid < |s.calls| && s.calls[m.tid].NoCall?
    requires var e := Run(s, moves);
      && Queueing(e.calls[m.tid]) && Apply(e, m).calls[m.tid].NoCall?
      && Apply(e, m).acceptedNormal == e.acceptedNormal && Apply(e, m).acceptedControl == e.acceptedControl
    ensures BlockedWithin(s, moves, LaneOf(Run(s, moves).calls[m.tid]))
  {
    hide Invariant, Run, Apply, Open, LaneOf;
    IsWellFormed(s);
    var e := Run(s, moves);
    RunInvariant(s, moves);
    ReturnsFalse(e, m);
    if e.calls[m.tid].CheckFlag? {
      assert moves[..|moves|] == moves;
    } else {
      DoomedSawBlock(s, moves, m.tid);
    }
  }

  lemma ReturnsFalse(s: State, m: Move)
    requires Invariant(s) && m.tid < |s.calls| && Queueing(s.calls[m.tid]) && Apply(s, m).calls[m.tid].NoCall?
    requires Apply(s, m).acceptedNormal == s.acceptedNormal && Apply(s, m).acceptedControl == s.acceptedControl
    ensures if s.calls[m.tid].CheckFlag? then !Open(s, LaneOf(s.calls[m.tid])) else Doomed(s, m.tid)
  {
    hide Invariant, LoopStep;
    IsWellFormed(s);
    if s.calls[m.tid].InRing? || s.calls[m.tid].Reserve? {
      hide CallStep;
      RingCallFrame(s, m.tid, m.action.spurious);
    } else {
      hide OutsideStep;
      WhoReturns(s, m.tid);
    }
  }

  lemma WhoReturns(s: State, t: nat)
    requires WellFormed(s) && t < |s.calls| && Queueing(s.calls[t]) && OutsideStep(s, t).calls[t].NoCall?
    requires OutsideStep(s, t).acceptedNormal == s.acceptedNormal && OutsideStep(s, t).acceptedControl == s.acceptedControl
    ensures if s.calls[t].CheckFlag? then s.flag else Doomed(s, t)
  {
    if s.calls[t].UnlockShared? && s.calls[t].ok {
      OneMoreDiffers(s.acceptedNormal, s.calls[t].cb);
      OneMoreDiffers(s.acceptedControl, s.calls[t].cb);
    }
  }

  lemma OneMoreDiffers(m: multiset<Functor>, cb: Functor)
    ensures m + multiset{cb} != m
  {
    assert (m + multiset{cb})[cb] == m[cb] + 1;
  }

  // ---------- A loop that nobody stops ----------

  /** `loop` goes round. */
  predicate Goes(loop: LoopPc) {
    loop.Prologue? || loop.CheckQuit? || loop.CheckQuitAgain? || loop.Events? || (InPass(loop) && !Final(loop))
    || (loop.Dequeue? && !Final(loop))
  }

  ghost predicate NobodyAsked(s: State)
    requires WellFormed(s)
  {
    && !s.flag && !s.quit && !Closed(s) && Goes(s.loop)
    && forall t: nat :: t < |s.calls| ==> !s.calls[t].RequestStop? && !s.calls[t].MarkStopping?
  }

  lemma NobodyAskedStep(s: State, m: Move)
    requires WellFormed(s) && NobodyAsked(s) && m.action != Begin(Quit) && m.action != BreakLoop
    ensures NobodyAsked(Apply(s, m))
  {
    hide CallStep, LoopStep;
    if m.tid < |s.calls| && m.action.Advance? {
      if s.calls[m.tid].NoCall? {
        LoopFrame(s, m.action.spurious);
        GoesOn(s, m.action.spurious);
      } else {
        CallFrame(s, m.tid, m.action.spurious);
      }
    }
  }

  lemma GoesOn(s: State, spurious: bool)
    requires WellFormed(s) && !s.quit && !Closed(s) && Goes(s.loop)
    ensures Goes(LoopStep(s, spurious).loop) && !Closed(LoopStep(s, spurious)) && !s.loop.StopIngress?
  {
    hide Ring.Apply;
  }

  /** On every run without a call of `quit` and without an error of io_uring nothing ever stops: neither the
  flag nor the lifecycle nor `loop`, which goes round. */
  lemma {:induction false} StopsOnlyWhenAsked(capacity: nat, slots: nat, threadCount: nat, moves: seq<Move>)
    requires slots > 0 && threadCount > 0
    requires forall i :: 0 <= i < |moves| ==> moves[i].action != Begin(Quit) && moves[i].action != BreakLoop
    ensures WellFormed(Init(capacity, slots, threadCount))
    ensures NobodyAsked(Run(Init(capacity, slots, threadCount), moves))
  {
    hide Apply, NobodyAsked;
    if moves == [] {
      FirstNobodyAsked(capacity, slots, threadCount);
    } else {
      var front, last := moves[..|moves| - 1], moves[|moves| - 1];
      StopsOnlyWhenAsked(capacity, slots, threadCount, front);
      NobodyAskedStep(Run(Init(capacity, slots, threadCount), front), last);
    }
  }

  lemma FirstNobodyAsked(capacity: nat, slots: nat, threadCount: nat)
    requires slots > 0 && threadCount > 0
    ensures NobodyAsked(Init(capacity, slots, threadCount))
  {
  }
}

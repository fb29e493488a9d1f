/** What every run of the event loop's ingress keeps: admitted callbacks always fit the ring,
nothing enters once stopping has begun, and when `loop` returns each accepted callback has run
exactly once. */
module LoopIngressSafety {
  import opened Wrappers
  import opened LoopIngress
  import Ring = LockFreeQueue
  import RingSafety = LockFreeQueueSafety

  type RingPc = Ring.Pc<Functor>

  // ---------- Views of the state ----------

  predicate Enqueuing(pc: RingPc) {
    || pc.EnqueueLoadPos? || pc.EnqueueLoadSeq? || pc.EnqueueCas? || pc.EnqueueWrite?
    || pc.EnqueuePublish? || pc.EnqueueDone?
  }

  /** Inside `dequeue`. */
  predicate Dequeuing(pc: RingPc) {
    !pc.Idle? && !Enqueuing(pc)
  }

  /** The call passed the second check under the shared lock and will or did enter a lane. */
  predicate Admitted(c: Call) {
    c.LoadCount? || c.Reserve? || c.InRing? || c.Unreserve? || c.PushControl? || (c.UnlockShared? && c.ok)
  }

  predicate HoldsShared(c: Call) {
    c.Recheck? || c.UnlockShared? || Admitted(c)
  }

  /** A reservation of the admission counter that has no ticket in the ring yet. */
  function ReservedBy(c: Call, pc: RingPc): nat {
    if c.Unreserve? then 1
    else if c.InRing? && (pc.EnqueueLoadPos? || pc.EnqueueLoadSeq? || pc.EnqueueCas? || pc == Ring.EnqueueDone(false))
    then 1 else 0
  }

  /** How often `f` entered the lane in this call, which has not returned yet. */
  function InFlightOf(lane: Lane, f: Functor, c: Call, pc: RingPc): nat {
    if c.UnlockShared? && c.ok && c.lane == lane && c.cb == f then 1
    else if lane.Normal? && c.InRing? && ReservedBy(c, pc) == 0 && c.cb == f then 1
    else 0
  }

  function Reserved(calls: seq<Call>, pcs: seq<RingPc>): nat
    requires |calls| == |pcs|
  {
    if calls == [] then 0
    else
      var last := |calls| - 1;
      Reserved(calls[..last], pcs[..last]) + ReservedBy(calls[last], pcs[last])
  }

  function InFlight(lane: Lane, f: Functor, calls: seq<Call>, pcs: seq<RingPc>): nat
    requires |calls| == |pcs|
  {
    if calls == [] then 0
    else
      var last := |calls| - 1;
      InFlight(lane, f, calls[..last], pcs[..last]) + InFlightOf(lane, f, calls[last], pcs[last])
  }

  /** What entered a lane, and what callers were told. */
  function Entered(s: State, lane: Lane): multiset<Functor> {
    if lane.Normal? then multiset(s.ring.offered) else multiset(s.controlPushed)
  }

  function Accepted(s: State, lane: Lane): multiset<Functor> {
    if lane.Normal? then s.acceptedNormal else s.acceptedControl
  }

  function NormalBatch(loop: LoopPc): seq<Functor> {
    match loop
    case Dequeue(_, _, batch) => batch
    case Decrement(_, _, batch, _) => batch
    case RunBatch(_, batch) => batch
    case _ => []
  }

  function ControlBatch(loop: LoopPc): seq<Functor> {
    if loop.RunControl? then loop.batch else []
  }

  /** Tickets whose slot the loop has released. */
  function Taken(s: State): int
    requires WellFormed(s)
  {
    s.ring.dequeuePos - (if s.ring.threads[0].Consuming() then 1 else 0)
  }

  /** The callback taken from the ring whose count is not yet given back. */
  function Hand(s: State): seq<Functor>
    requires WellFormed(s)
  {
    match s.ring.threads[0]
    case DequeueDone(Some(f)) => [f]
    case _ => if s.loop.Decrement? then [s.loop.taken] else []
  }

  /** After ingress was closed for good. */
  predicate Final(loop: LoopPc) {
    match loop
    case SwapControl(final) => final
    case RunControl(final, _) => final
    case StartBatch(final) => final
    case Dequeue(final, _, _) => final
    case Decrement(final, _, _, _) => final
    case RunBatch(final, _) => final
    case CheckDrained => true
    case DrainOperations => true
    case Finish => true
    case Returned => true
    case _ => false
  }

  predicate Drained(loop: LoopPc) {
    loop.DrainOperations? || loop.Finish? || loop.Returned?
  }

  /** Program points of `loop` at which user code can run. */
  predicate MayRunUserCode(loop: LoopPc) {
    || loop.Prologue? || loop.RunControl? || loop.RunBatch? || loop.Events?
    || loop.DrainOperations? || loop.Returned?
  }

  // ---------- The invariant ----------

  ghost predicate RingOk(s: State) {
    && WellFormed(s)
    && RingSafety.Invariant(s.ring)
    && RingSafety.OwnersPresent(s.ring)
    && s.capacity <= |s.ring.slots|
  }

  ghost predicate ThreadOk(s: State, t: nat)
    requires WellFormed(s) && t < |s.calls|
  {
    var c, pc := s.calls[t], s.ring.threads[t];
    && (t in s.shared <==> HoldsShared(c))
    && (Admitted(c) ==> !Closed(s))
    && !c.Unreserve?
    && (Enqueuing(pc) <==> c.InRing?)
    && (Enqueuing(pc) && !pc.EnqueueDone? ==> pc.value == c.cb)
    && pc != Ring.EnqueueDone(false)
    && (Dequeuing(pc) ==> t == 0 && s.loop.Dequeue?)
  }

  ghost predicate ThreadsOk(s: State)
    requires WellFormed(s)
  {
    && (forall t: nat :: t < |s.calls| ==> ThreadOk(s, t))
    && (forall t :: t in s.shared ==> t < |s.calls|)
  }

  /** Thread 0 is the only consumer, so tickets are released in order. */
  ghost predicate ConsumerOk(s: State)
    requires WellFormed(s)
  {
    var pc := s.ring.threads[0];
    && 0 <= Taken(s) <= |s.ring.offered|
    && (forall t: nat :: t in s.ring.released <==> t < Taken(s))
    && (pc.Consuming() || pc.DequeueLoadSeq? || pc.DequeueCas? ==> pc.pos == Taken(s))
    && (pc.DequeueDone? && pc.result.Some? ==>
          Taken(s) > 0 && pc.result.value == s.ring.offered[Taken(s) - 1])
  }

  /** Each lane is a queue: what ran, then what is in a batch, then what waits. */
  ghost predicate LanesOk(s: State)
    requires WellFormed(s) && 0 <= Taken(s) <= |s.ring.offered|
  {
    && s.normalRun + NormalBatch(s.loop) + Hand(s) == s.ring.offered[..Taken(s)]
    && s.controlRun + ControlBatch(s.loop) + s.control == s.controlPushed
  }

  /** The admission counter covers every reservation and every ticket not yet given back. */
  ghost predicate CountOk(s: State)
    requires WellFormed(s)
  {
    && s.count == |s.ring.offered| - Taken(s) + |Hand(s)| + Reserved(s.calls, s.ring.threads)
    && s.count <= s.capacity
  }

  ghost predicate AcceptedOk(s: State)
    requires WellFormed(s)
  {
    forall lane, f :: Entered(s, lane)[f] == Accepted(s, lane)[f] + InFlight(lane, f, s.calls, s.ring.threads)
  }

  ghost predicate LoopOk(s: State)
    requires WellFormed(s)
  {
    && (Final(s.loop) ==> Closed(s))
    && (Final(s.loop) && !s.loop.SwapControl? ==> s.control == [])
    && (Drained(s.loop) ==> Taken(s) == |s.ring.offered|)
    && (s.lifecycle.Stopped? ==> s.loop.Returned?)
    && (s.userCode ==> MayRunUserCode(s.loop))
    && (!s.calls[0].NoCall? ==> s.userCode || s.loop.AwaitStop?)
    && (s.loop.AwaitStop? ==> s.calls[0].RequestStop? || s.calls[0].MarkStopping? || s.calls[0].NoCall?)
    && (s.loop.AwaitStop? && s.calls[0].NoCall? ==> Closed(s))
  }

  ghost predicate Invariant(s: State) {
    && RingOk(s) && ThreadsOk(s) && ConsumerOk(s) && LanesOk(s) && CountOk(s) && AcceptedOk(s) && LoopOk(s)
  }

  lemma IsWellFormed(s: State)
    requires Invariant(s)
    ensures WellFormed(s)
  {
  }

  // ---------- Sums over the threads ----------

  lemma {:induction false} ReservedUpdate(calls: seq<Call>, pcs: seq<RingPc>, t: nat, c: Call, pc: RingPc)
    requires t < |calls| == |pcs|
    ensures Reserved(calls[t := c], pcs[t := pc]) ==
      Reserved(calls, pcs) - ReservedBy(calls[t], pcs[t]) + ReservedBy(c, pc)
  {
    var last := |calls| - 1;
    if t < last {
      ReservedUpdate(calls[..last], pcs[..last], t, c, pc);
      assert calls[t := c][..last] == calls[..last][t := c];
      assert pcs[t := pc][..last] == pcs[..last][t := pc];
    } else {
      assert calls[t := c][..last] == calls[..last];
      assert pcs[t := pc][..last] == pcs[..last];
    }
  }

  lemma {:induction false} InFlightUpdate(lane: Lane, f: Functor, calls: seq<Call>, pcs: seq<RingPc>, t: nat,
                                          c: Call, pc: RingPc)
    requires t < |calls| == |pcs|
    ensures InFlight(lane, f, calls[t := c], pcs[t := pc]) ==
      InFlight(lane, f, calls, pcs) - InFlightOf(lane, f, calls[t], pcs[t]) + InFlightOf(lane, f, c, pc)
  {
    var last := |calls| - 1;
    if t < last {
      InFlightUpdate(lane, f, calls[..last], pcs[..last], t, c, pc);
      assert calls[t := c][..last] == calls[..last][t := c];
      assert pcs[t := pc][..last] == pcs[..last][t := pc];
    } else {
      assert calls[t := c][..last] == calls[..last];
      assert pcs[t := pc][..last] == pcs[..last];
    }
  }

  lemma {:induction false} ReservedAtLeast(calls: seq<Call>, pcs: seq<RingPc>, t: nat)
    requires t < |calls| == |pcs|
    ensures Reserved(calls, pcs) >= ReservedBy(calls[t], pcs[t])
  {
    var last := |calls| - 1;
    if t < last {
      ReservedAtLeast(calls[..last], pcs[..last], t);
    }
  }

  lemma {:induction false} NoneReserved(calls: seq<Call>, pcs: seq<RingPc>)
    requires |calls| == |pcs|
    requires forall t: nat :: t < |calls| ==> !Admitted(calls[t])
    ensures Reserved(calls, pcs) == 0
    ensures forall lane, f :: InFlight(lane, f, calls, pcs) == 0
  {
    if calls != [] {
      var last := |calls| - 1;
      NoneReserved(calls[..last], pcs[..last]);
      assert !Admitted(calls[last]);
    }
  }

  lemma {:induction false} InitInvariant(capacity: nat, slots: nat, threadCount: nat)
    requires slots >= 2 && capacity <= slots && threadCount > 0
    ensures Invariant(Init(capacity, slots, threadCount))
  {
    var s := Init(capacity, slots, threadCount);
    RingSafety.InitInvariant<Functor>(slots, threadCount);
    NoneReserved(s.calls, s.ring.threads);
    forall t: nat ensures t !in s.ring.released {
    }
  }

  // ---------- Steps of a call ----------

  /** Only thread `t`'s call and ring program counter differ. */
  ghost predicate OneThread(s: State, s': State, t: nat) {
    && WellFormed(s) && WellFormed(s') && t < |s.calls| == |s'.calls|
    && s'.calls == s.calls[t := s'.calls[t]]
    && s'.ring.threads == s.ring.threads[t := s'.ring.threads[t]]
  }

  lemma ReservedAfter(s: State, s': State, t: nat)
    requires OneThread(s, s', t)
    ensures Reserved(s'.calls, s'.ring.threads) ==
      Reserved(s.calls, s.ring.threads)
      - ReservedBy(s.calls[t], s.ring.threads[t]) + ReservedBy(s'.calls[t], s'.ring.threads[t])
  {
    ReservedUpdate(s.calls, s.ring.threads, t, s'.calls[t], s'.ring.threads[t]);
  }

  ghost predicate Balanced(s: State, s': State, t: nat, lane: Lane, f: Functor)
    requires OneThread(s, s', t)
  {
    Entered(s', lane)[f] + Accepted(s, lane)[f] + InFlightOf(lane, f, s.calls[t], s.ring.threads[t]) ==
    Entered(s, lane)[f] + Accepted(s', lane)[f] + InFlightOf(lane, f, s'.calls[t], s'.ring.threads[t])
  }

  /** What thread `t` put into a lane is in flight or reported. */
  lemma AcceptedAfter(s: State, s': State, t: nat)
    requires OneThread(s, s', t) && AcceptedOk(s)
    requires forall lane, f :: Balanced(s, s', t, lane, f)
    ensures AcceptedOk(s')
  {
    forall lane, f
      ensures Entered(s', lane)[f] == Accepted(s', lane)[f] + InFlight(lane, f, s'.calls, s'.ring.threads)
    {
      assert Balanced(s, s', t, lane, f);
      InFlightUpdate(lane, f, s.calls, s.ring.threads, t, s'.calls[t], s'.ring.threads[t]);
    }
  }

  lemma ThreadsAfter(s: State, s': State, t: nat)
    requires OneThread(s, s', t) && ThreadsOk(s)
    requires s'.shared - {t} == s.shared - {t}
    requires s.loop.Dequeue? ==> s'.loop.Dequeue? || t == 0
    requires Closed(s') ==> Closed(s) || s.shared == {}
    requires ThreadOk(s', t)
    ensures ThreadsOk(s')
  {
    forall j: nat | j < |s'.calls| ensures ThreadOk(s', j) {
      assert ThreadOk(s, j);
      assert j != t ==> (j in s'.shared <==> j in s.shared) by {
        assert j in s'.shared - {t} <==> j in s.shared - {t};
      }
    }
    forall j | j in s'.shared ensures j < |s'.calls| {
      assert j != t ==> j in s.shared - {t};
    }
  }

  /** A step that changes one call outside the ring, its hold on the shared lock, and what its
  caller is told. */
  lemma OutsideRing(s: State, s': State, t: nat, c: Call)
    requires Invariant(s) && t < |s.calls|
    requires s' == SetCall(s, t, c).(flag := s'.flag, shared := s'.shared,
                     acceptedNormal := s'.acceptedNormal, acceptedControl := s'.acceptedControl)
    requires !s.calls[t].InRing? && !c.InRing? && !c.Unreserve?
    requires s'.shared - {t} == s.shared - {t} && (t in s'.shared <==> HoldsShared(c))
    requires OneThread(s, s', t)
    requires forall lane, f :: Balanced(s, s', t, lane, f)
    requires Admitted(c) ==> !Closed(s)
    requires t == 0 && !c.NoCall? ==> s.userCode || s.loop.AwaitStop?
    requires t == 0 && s.loop.AwaitStop? ==> c.RequestStop? || c.MarkStopping?
    ensures Invariant(s')
  {
    hide RingSafety.Invariant, RingSafety.OwnersPresent, Reserved, InFlight, AcceptedOk, Balanced;
    assert ThreadOk(s, t);
    ThreadsAfter(s, s', t);
    ReservedAfter(s, s', t);
    AcceptedAfter(s, s', t);
    assert LanesOk(s') && LoopOk(s');
  }

  /** ... with neither a reservation nor a callback in flight. */
  lemma LocalCall(s: State, s': State, t: nat, c: Call)
    requires Invariant(s) && t < |s.calls|
    requires s' == SetCall(s, t, c).(flag := s'.flag)
    requires !s.calls[t].InRing? && !c.InRing? && !c.Unreserve?
    requires HoldsShared(s.calls[t]) == HoldsShared(c)
    requires !(s.calls[t].UnlockShared? && s.calls[t].ok) && !(c.UnlockShared? && c.ok)
    requires Admitted(c) ==> !Closed(s)
    requires t == 0 && !c.NoCall? ==> s.userCode || s.loop.AwaitStop?
    requires t == 0 && s.loop.AwaitStop? ==> c.RequestStop? || c.MarkStopping?
    ensures Invariant(s')
  {
    assert ThreadOk(s, t);
    OutsideRing(s, s', t, c);
  }

  lemma LockSharedStep(s: State, s': State, t: nat)
    requires Invariant(s) && t < |s.calls| && s.calls[t].LockShared? && s' == EnterStep(s, t)
    ensures Invariant(s')
  {
    hide RingSafety.Invariant, RingSafety.OwnersPresent, Reserved, InFlight, AcceptedOk, LanesOk, CountOk;
    assert ThreadOk(s, t);
    OutsideRing(s, s', t, s'.calls[t]);
  }

  lemma UnlockSharedBalanced(s: State, s': State, t: nat, lane: Lane, f: Functor)
    requires WellFormed(s) && t < |s.calls| && s.calls[t].UnlockShared? && s' == LeaveStep(s, t)
    ensures OneThread(s, s', t) && Balanced(s, s', t, lane, f)
  {
    var c := s.calls[t];
    OneMore(s.acceptedNormal, c.cb, f);
    OneMore(s.acceptedControl, c.cb, f);
    assert s'.calls[t] == NoCall && s'.ring == s.ring && Entered(s', lane) == Entered(s, lane);
  }

  lemma OneMore(m: multiset<Functor>, cb: Functor, f: Functor)
    ensures (m + multiset{cb})[f] == m[f] + if f == cb then 1 else 0
  {
  }

  lemma UnlockSharedStep(s: State, s': State, t: nat)
    requires Invariant(s) && t < |s.calls| && s.calls[t].UnlockShared? && s' == LeaveStep(s, t)
    ensures Invariant(s')
  {
    assert ThreadOk(s, t);
    forall lane, f ensures Balanced(s, s', t, lane, f) {
      UnlockSharedBalanced(s, s', t, lane, f);
    }
    OutsideRing(s, s', t, NoCall);
  }

  lemma PushControlBalanced(s: State, s': State, t: nat, lane: Lane, f: Functor)
    requires WellFormed(s) && t < |s.calls| && s.calls[t].PushControl? && s' == LeaveStep(s, t)
    ensures OneThread(s, s', t) && Balanced(s, s', t, lane, f)
  {
    var cb := s.calls[t].cb;
    assert multiset(s.controlPushed + [cb]) == multiset(s.controlPushed) + multiset{cb};
  }

  lemma PushControlStep(s: State, s': State, t: nat)
    requires Invariant(s) && t < |s.calls| && s.calls[t].PushControl? && s' == LeaveStep(s, t)
    ensures Invariant(s')
  {
    var cb := s.calls[t].cb;
    hide RingSafety.Invariant, RingSafety.OwnersPresent, Reserved, InFlight, AcceptedOk;
    assert ThreadOk(s, t);
    ThreadsAfter(s, s', t);
    ReservedAfter(s, s', t);
    forall lane, f ensures Balanced(s, s', t, lane, f) {
      PushControlBalanced(s, s', t, lane, f);
    }
    AcceptedAfter(s, s', t);
    ControlBehind(s.controlRun, ControlBatch(s.loop), s.control, cb);
    assert LoopOk(s');
  }

  lemma ControlBehind(ran: seq<Functor>, batch: seq<Functor>, waiting: seq<Functor>, cb: Functor)
    ensures ran + batch + (waiting + [cb]) == ran + batch + waiting + [cb]
  {
  }

  /** Without a change to the ring, the lanes or the loop, their part of the invariant stays. */
  lemma SameQueues(s: State, s': State)
    requires RingOk(s) && ConsumerOk(s) && LanesOk(s) && |s'.calls| == |s.calls|
    requires s' == s.(calls := s'.calls, lifecycle := s'.lifecycle, quit := s'.quit)
    ensures RingOk(s') && ConsumerOk(s') && LanesOk(s')
  {
  }

  lemma MarkStoppingStep(s: State, s': State, t: nat)
    requires Invariant(s) && t < |s.calls| && s.calls[t].MarkStopping? && s.shared == {}
    requires s' == SetCall(s, t, NoCall).(lifecycle := s'.lifecycle, quit := s'.quit)
    requires s'.lifecycle == if Closed(s) then s.lifecycle else Stopping
    ensures Invariant(s')
  {
    SameQueues(s, s');
    hide RingSafety.Invariant, RingSafety.OwnersPresent, ConsumerOk, LanesOk;
    assert ThreadOk(s, t);
    ThreadsAfter(s, s', t);
    ReservedAfter(s, s', t);
    AcceptedAfter(s, s', t);
    assert LoopOk(s');
  }

  // ---------- Admission ----------

  /** A slot whose sequence number is behind `pos` still belongs to the ticket one lap earlier. */
  lemma BehindMeansUnreleased(r: Ring.State<Functor>, pos: nat)
    requires RingSafety.Invariant(r) && Ring.SlotOf(r, pos).sequence < pos
    ensures pos >= |r.slots| && pos - |r.slots| !in r.released
  {
    var n := |r.slots|;
    var i := Ring.Index(pos, n);
    var q := r.slots[i].sequence;
    assert RingSafety.SlotOk(r, i);
    if q > 0 && Ring.Index(q - 1, n) == i {
      Ring.SameSlotFarApart(q - 1, pos, n);
    } else {
      Ring.SameSlotFarApart(q, pos, n);
    }
    Ring.NextLap(pos - n, n);
  }

  /** The ring-full branch after a successful reservation is unreachable: a reserved producer never
  finds its slot still occupied, because the counter is given back only after a slot is released. */
  lemma RingHasRoom(s: State, t: nat)
    requires Invariant(s) && t < |s.calls| && s.ring.threads[t].EnqueueLoadSeq?
    ensures Ring.SlotOf(s.ring, s.ring.threads[t].pos).sequence >= s.ring.threads[t].pos
  {
    var pos := s.ring.threads[t].pos;
    assert ThreadOk(s, t) && RingSafety.ThreadOk(s.ring, t);
    if Ring.SlotOf(s.ring, pos).sequence < pos {
      BehindMeansUnreleased(s.ring, pos);
      ReservedAtLeast(s.calls, s.ring.threads, t);
    }
  }

  // ---------- Steps of a call inside the ring ----------

  /** What a producer's step changes in the ring. */
  ghost predicate ProducerMoved(r: Ring.State<Functor>, r': Ring.State<Functor>, t: nat)
    requires t < |r.threads| == |r'.threads|
  {
    var pc, pc' := r.threads[t], r'.threads[t];
    && Enqueuing(pc) && !pc.EnqueueDone? && r'.threads == r.threads[t := pc'] && |r'.slots| == |r.slots|
    && r'.dequeuePos == r.dequeuePos && r'.released == r.released
    && Enqueuing(pc') && (!pc'.EnqueueDone? ==> pc'.value == pc.value)
    && (pc' == Ring.EnqueueDone(false) ==> pc.EnqueueLoadSeq?)
    && r'.offered == (if pc.EnqueueCas? && pc'.EnqueueWrite? then r.offered + [pc.value] else r.offered)
    && (pc.EnqueueCas? || pc.EnqueueLoadPos? || pc.EnqueueLoadSeq? || pc'.EnqueuePublish? || pc'.EnqueueDone?)
    && (pc'.EnqueueWrite? ==> pc.EnqueueCas?) && (pc'.EnqueuePublish? ==> pc.EnqueueWrite?)
    && (pc.EnqueueWrite? ==> pc'.EnqueuePublish?) && (pc.EnqueuePublish? ==> pc' == Ring.EnqueueDone(true))
    && (pc' == Ring.EnqueueDone(true) ==> pc.EnqueuePublish?)
  }

  lemma ProducerEffect(r: Ring.State<Functor>, t: nat, spurious: bool)
    requires RingSafety.Invariant(r) && t < |r.threads|
    requires Enqueuing(r.threads[t]) && !r.threads[t].EnqueueDone?
    ensures |Ring.Step(r, t, spurious).threads| == |r.threads| && ProducerMoved(r, Ring.Step(r, t, spurious), t)
    ensures Ring.Step(r, t, spurious).threads[t] == Ring.EnqueueDone(false) ==>
      r.threads[t].EnqueueLoadSeq? && Ring.SlotOf(r, r.threads[t].pos).sequence < r.threads[t].pos
  {
    assert RingSafety.ThreadOk(r, t);
  }

  /** A step inside a call that does not touch a lane: the caller moves its ring program counter
  between idle and inside, with its reservation or callback following. */
  lemma QuietRingStep(s: State, s': State, t: nat)
    requires Invariant(s) && OneThread(s, s', t)
    requires s' == s.(calls := s'.calls, count := s'.count, ring := s'.ring)
    requires s'.ring == s.ring.(threads := s'.ring.threads)
    requires RingOk(s') && ThreadOk(s', t)
    requires !Dequeuing(s.ring.threads[t]) && !Dequeuing(s'.ring.threads[t])
    requires t == 0 ==> !s'.calls[0].NoCall? && s.userCode
    requires s'.count - s.count ==
      ReservedBy(s'.calls[t], s'.ring.threads[t]) - ReservedBy(s.calls[t], s.ring.threads[t])
    requires s'.count <= s.capacity
    requires forall lane, f ::
      InFlightOf(lane, f, s.calls[t], s.ring.threads[t]) == InFlightOf(lane, f, s'.calls[t], s'.ring.threads[t])
    ensures Invariant(s')
  {
    hide RingSafety.Invariant, RingSafety.OwnersPresent, LoopOk, LanesOk;
    assert ThreadOk(s, t);
    ThreadsAfter(s, s', t);
    ReservedAfter(s, s', t);
    forall lane, f ensures Balanced(s, s', t, lane, f) {
      assert Entered(s', lane) == Entered(s, lane) && Accepted(s', lane) == Accepted(s, lane);
    }
    AcceptedAfter(s, s', t);
    QuietLoop(s, s', t);
  }

  /** What only depends on the loop, the lanes and the consumer stays. */
  lemma QuietLoop(s: State, s': State, t: nat)
    requires Invariant(s) && OneThread(s, s', t)
    requires s' == s.(calls := s'.calls, count := s'.count, ring := s'.ring)
    requires s'.ring == s.ring.(threads := s'.ring.threads)
    requires RingOk(s') && ThreadOk(s', t)
    requires !Dequeuing(s.ring.threads[t]) && !Dequeuing(s'.ring.threads[t])
    requires t == 0 ==> !s'.calls[0].NoCall? && s.userCode
    requires s'.count - s.count ==
      ReservedBy(s'.calls[t], s'.ring.threads[t]) - ReservedBy(s.calls[t], s.ring.threads[t])
    requires s'.count <= s.capacity
    requires forall lane, f ::
      InFlightOf(lane, f, s.calls[t], s.ring.threads[t]) == InFlightOf(lane, f, s'.calls[t], s'.ring.threads[t])
    ensures ConsumerOk(s') && LanesOk(s') && LoopOk(s')
  {
    hide RingSafety.Invariant, RingSafety.OwnersPresent, AcceptedOk, CountOk;
    assert ThreadOk(s, t);
  }

  lemma ReserveStep(s: State, s': State, t: nat)
    requires Invariant(s) && t < |s.calls| && s.calls[t].Reserve? && s.count == s.calls[t].seen < s.capacity
    requires s' == CallStep(s, t, false)
    ensures Invariant(s')
  {
    var cb := s.calls[t].cb;
    assert ThreadOk(s, t);
    assert s.ring.threads[t].Idle?;
    RingSafety.ApplyInvariant(s.ring, Ring.Move(t, Ring.Enqueue(cb)));
    RingSafety.ApplyOwners(s.ring, Ring.Move(t, Ring.Enqueue(cb)));
    assert s'.ring == Ring.At(s.ring, t, Ring.EnqueueLoadPos(cb));
    QuietRingStep(s, s', t);
  }

  lemma RingReturnStep(s: State, s': State, t: nat)
    requires Invariant(s) && t < |s.calls| && s.calls[t].InRing? && s.ring.threads[t].EnqueueDone?
    requires s' == CallStep(s, t, false)
    ensures Invariant(s')
  {
    assert ThreadOk(s, t);
    RingSafety.ApplyInvariant(s.ring, Ring.Move(t, Ring.Return));
    RingSafety.ApplyOwners(s.ring, Ring.Move(t, Ring.Return));
    assert s'.ring == Ring.At(s.ring, t, Ring.Idle);
    QuietRingStep(s, s', t);
  }

  lemma RingAdvanceStep(s: State, s': State, t: nat, spurious: bool)
    requires Invariant(s) && t < |s.calls| && s.calls[t].InRing? && !s.ring.threads[t].EnqueueDone?
    requires s' == s.(ring := Ring.Step(s.ring, t, spurious))
    ensures Invariant(s')
  {
    hide RingSafety.Invariant, RingSafety.OwnersPresent, Ring.Step, ConsumerOk, LanesOk, CountOk, AcceptedOk, ProducerMoved;
    assert ThreadOk(s, t);
    RingSafety.ApplyInvariant(s.ring, Ring.Move(t, Ring.Advance(spurious)));
    RingSafety.ApplyOwners(s.ring, Ring.Move(t, Ring.Advance(spurious)));
    ProducerEffect(s.ring, t, spurious);
    if s.ring.threads[t].EnqueueLoadSeq? {
      RingHasRoom(s, t);
    }
    RingAdvanceThreads(s, s', t);
    RingAdvanceConsumer(s, s', t);
    RingAdvanceCount(s, s', t);
    RingAdvanceAccepted(s, s', t);
    RingAdvanceLoop(s, s');
  }

  lemma RingAdvanceThreads(s: State, s': State, t: nat)
    requires WellFormed(s) && WellFormed(s') && s' == s.(ring := s'.ring) && ThreadsOk(s)
    requires t < |s.calls| && s.calls[t].InRing? && ProducerMoved(s.ring, s'.ring, t)
    requires s'.ring.threads[t] != Ring.EnqueueDone(false)
    ensures OneThread(s, s', t) && ThreadsOk(s')
  {
    assert ThreadOk(s, t);
    assert s'.calls == s.calls[t := s'.calls[t]];
    ThreadsAfter(s, s', t);
  }

  lemma RingAdvanceLoop(s: State, s': State)
    requires WellFormed(s) && WellFormed(s') && s' == s.(ring := s'.ring) && LoopOk(s)
    requires Drained(s.loop) ==> Taken(s') == |s'.ring.offered|
    ensures LoopOk(s')
  {
  }

  lemma RingAdvanceCount(s: State, s': State, t: nat)
    requires WellFormed(s) && CountOk(s) && OneThread(s, s', t) && s' == s.(ring := s'.ring) && s.calls[t].InRing?
    requires ProducerMoved(s.ring, s'.ring, t) && s'.ring.threads[t] != Ring.EnqueueDone(false)
    requires Taken(s') == Taken(s) && Hand(s') == Hand(s)
    ensures CountOk(s')
  {
    hide Taken, Hand, Reserved;
    ReservedAfter(s, s', t);
  }

  lemma RingAdvanceAccepted(s: State, s': State, t: nat)
    requires WellFormed(s) && AcceptedOk(s) && OneThread(s, s', t) && s' == s.(ring := s'.ring)
    requires s.calls[t].InRing? && !s.ring.threads[t].EnqueueDone?
    requires Enqueuing(s.ring.threads[t]) && s.ring.threads[t].value == s.calls[t].cb
    requires ProducerMoved(s.ring, s'.ring, t) && s'.ring.threads[t] != Ring.EnqueueDone(false)
    ensures AcceptedOk(s')
  {
    forall lane, f ensures Balanced(s, s', t, lane, f) {
      RingAdvanceBalanced(s, s', t, lane, f);
    }
    hide AcceptedOk, Balanced, ProducerMoved;
    AcceptedAfter(s, s', t);
  }

  lemma RingAdvanceBalanced(s: State, s': State, t: nat, lane: Lane, f: Functor)
    requires OneThread(s, s', t) && s' == s.(ring := s'.ring)
    requires s.calls[t].InRing? && !s.ring.threads[t].EnqueueDone?
    requires Enqueuing(s.ring.threads[t]) && s.ring.threads[t].value == s.calls[t].cb
    requires ProducerMoved(s.ring, s'.ring, t) && s'.ring.threads[t] != Ring.EnqueueDone(false)
    ensures Balanced(s, s', t, lane, f)
  {
    EnteredByClaim(s.ring.offered, s'.ring.offered, s.calls[t].cb);
  }

  lemma EnteredByClaim(before: seq<Functor>, after: seq<Functor>, cb: Functor)
    requires after == before || after == before + [cb]
    ensures multiset(after) == if after == before then multiset(before) else multiset(before) + multiset{cb}
  {
  }

  lemma RingAdvanceConsumer(s: State, s': State, t: nat)
    requires WellFormed(s) && WellFormed(s') && s' == s.(ring := s'.ring) && ConsumerOk(s) && LanesOk(s)
    requires t < |s.calls| && Enqueuing(s.ring.threads[t]) && ProducerMoved(s.ring, s'.ring, t)
    ensures ConsumerOk(s') && LanesOk(s') && Taken(s') == Taken(s) && Hand(s') == Hand(s)
  {
    assert s'.ring.offered[..Taken(s)] == s.ring.offered[..Taken(s)];
  }

  // ---------- Steps of the loop ----------

  /** Thread 0 is between calls and callbacks, inside `loop`. */
  ghost predicate InLoop(s: State)
    requires WellFormed(s)
  {
    s.calls[0].NoCall? && !s.userCode
  }

  /** A step of `loop` outside the ring. */
  lemma LoopLocal(s: State, s': State)
    requires Invariant(s) && InLoop(s)
    requires s' == s.(loop := s'.loop, userCode := s'.userCode, control := s'.control,
                      controlRun := s'.controlRun, normalRun := s'.normalRun,
                      lifecycle := s'.lifecycle, count := s'.count)
    requires s.ring.threads[0].Idle?
    requires Closed(s') ==> Closed(s) || s.shared == {}
    requires s'.count - s.count == |Hand(s')| - |Hand(s)| && s'.count <= s.capacity
    requires LanesOk(s') && LoopOk(s')
    ensures Invariant(s')
  {
    assert ThreadOk(s, 0);
    assert OneThread(s, s', 0) by {
      assert s'.calls == s.calls[0 := s'.calls[0]];
      assert s'.ring.threads == s.ring.threads[0 := s'.ring.threads[0]];
    }
    ThreadsAfter(s, s', 0);
    assert forall lane :: Entered(s', lane) == Entered(s, lane) && Accepted(s', lane) == Accepted(s, lane);
  }

  /** With ingress closed and the counter at zero, nothing is left in the ring. */
  lemma ZeroCountIsDrained(s: State)
    requires Invariant(s) && Closed(s) && Hand(s) == [] && s.count == 0
    ensures Taken(s) == |s.ring.offered|
  {
    ClosedMeansQuiet(s);
    NoneReserved(s.calls, s.ring.threads);
  }

  lemma ClosedMeansQuiet(s: State)
    requires Invariant(s) && Closed(s)
    ensures forall t: nat :: t < |s.calls| ==> !Admitted(s.calls[t]) && !Enqueuing(s.ring.threads[t])
  {
    forall t: nat | t < |s.calls| ensures !Admitted(s.calls[t]) && !Enqueuing(s.ring.threads[t]) {
      assert ThreadOk(s, t);
    }
  }

  /** A step that only moves `loop` on. */
  lemma LoopPcStep(s: State, pc: LoopPc, userCode: bool)
    requires Invariant(s) && InLoop(s) && s.ring.threads[0].Idle?
    requires !s.loop.Decrement? && !pc.Decrement?
    requires NormalBatch(pc) == NormalBatch(s.loop) && ControlBatch(pc) == ControlBatch(s.loop)
    requires LoopOk(s.(loop := pc, userCode := userCode))
    ensures Invariant(s.(loop := pc, userCode := userCode))
  {
    LoopLocal(s, s.(loop := pc, userCode := userCode));
  }

  lemma GatePlainStep(s: State, s': State)
    requires Invariant(s) && InLoop(s) && s' == GateStep(s) && s' == s.(loop := s'.loop, userCode := s'.userCode)
    requires s.loop.CheckQuit? || s.loop.CheckQuitAgain? || s.loop.Events? || s.loop.AwaitStop?
      || s.loop.CheckDrained? || s.loop.DrainOperations? || s.loop.Returned?
    ensures Invariant(s')
  {
    hide RingSafety.Invariant, RingSafety.OwnersPresent, LanesOk, AcceptedOk;
    assert ThreadOk(s, 0);
    if s.loop.CheckDrained? && s.count == 0 {
      ZeroCountIsDrained(s);
    }
    LoopPcStep(s, s'.loop, s'.userCode);
  }

  lemma GateFrame(s: State)
    requires WellFormed(s) && !s.loop.Prologue? && !s.loop.Finish? && !s.loop.StopIngress?
    ensures GateStep(s) == s.(loop := GateStep(s).loop, userCode := GateStep(s).userCode)
  {
  }

  lemma PassPlainStep(s: State, s': State)
    requires Invariant(s) && InLoop(s) && s' == PassStep(s)
    requires s.loop.StartBatch? || (s.loop.RunControl? && s.loop.batch == []) || (s.loop.RunBatch? && s.loop.batch == [])
    ensures Invariant(s')
  {
    hide RingSafety.Invariant, RingSafety.OwnersPresent, LanesOk, AcceptedOk;
    assert ThreadOk(s, 0);
    LoopPcStep(s, s'.loop, s'.userCode);
  }

  lemma LifecycleStep(s: State, s': State)
    requires Invariant(s) && InLoop(s) && s' == GateStep(s)
    requires s.loop.Prologue? || s.loop.Finish?
    ensures Invariant(s')
  {
    hide RingSafety.Invariant, RingSafety.OwnersPresent, AcceptedOk;
    assert ThreadOk(s, 0);
    if s.shared == {} {
      LoopLocal(s, s');
    }
  }

  lemma RunControlStep(s: State, s': State)
    requires Invariant(s) && InLoop(s) && s' == PassStep(s)
    requires s.loop.RunControl? && s.loop.batch != []
    ensures Invariant(s')
  {
    var batch := s.loop.batch;
    assert ThreadOk(s, 0);
    assert (s.controlRun + [batch[0]]) + batch[1..] == s.controlRun + batch;
    LoopLocal(s, s');
  }

  lemma RunBatchStep(s: State, s': State)
    requires Invariant(s) && InLoop(s) && s' == PassStep(s)
    requires s.loop.RunBatch? && s.loop.batch != []
    ensures Invariant(s')
  {
    var batch := s.loop.batch;
    assert ThreadOk(s, 0);
    assert (s.normalRun + [batch[0]]) + batch[1..] + [] == s.normalRun + batch + [];
    LoopLocal(s, s');
  }

  lemma DecrementStep(s: State, s': State)
    requires Invariant(s) && InLoop(s) && s' == PassStep(s) && s.loop.Decrement?
    ensures Invariant(s')
  {
    assert ThreadOk(s, 0);
    assert s.normalRun + (s.loop.batch + [s.loop.taken]) + [] == s.normalRun + s.loop.batch + [s.loop.taken];
    LoopLocal(s, s');
  }

  lemma SwapControlStep(s: State, s': State)
    requires Invariant(s) && InLoop(s) && s' == PassStep(s) && s.loop.SwapControl?
    ensures Invariant(s')
  {
    assert ThreadOk(s, 0);
    assert s.controlRun + s.control + [] == s.controlRun + [] + s.control;
    LoopLocal(s, s');
  }

  lemma StopIngressStep(s: State, s': State)
    requires Invariant(s) && InLoop(s) && s.loop.StopIngress?
    requires s' == SetCall(s, 0, RequestStop).(loop := AwaitStop)
    ensures Invariant(s')
  {
    hide RingSafety.Invariant, RingSafety.OwnersPresent, Reserved, InFlight, AcceptedOk;
    assert ThreadOk(s, 0);
    ThreadsAfter(s, s', 0);
    ReservedAfter(s, s', 0);
    forall lane, f ensures Balanced(s, s', 0, lane, f) {
      assert Entered(s', lane) == Entered(s, lane) && Accepted(s', lane) == Accepted(s, lane);
    }
    AcceptedAfter(s, s', 0);
    assert ConsumerOk(s') && LanesOk(s') && LoopOk(s');
  }

  // ---------- The loop as the only consumer ----------

  /** What the consumer's step changes in the ring. */
  ghost predicate ConsumerMoved(r: Ring.State<Functor>, r': Ring.State<Functor>)
    requires |r.threads| > 0 && |r'.threads| > 0
  {
    var pc, pc' := r.threads[0], r'.threads[0];
    && r'.threads == r.threads[0 := pc'] && |r'.slots| == |r.slots|
    && r'.offered == r.offered && r'.enqueuePos == r.enqueuePos && Dequeuing(pc')
    && (r'.dequeuePos == if pc.DequeueCas? && pc'.DequeueTake? then r.dequeuePos + 1 else r.dequeuePos)
    && (pc'.DequeueTake? ==> pc.DequeueCas? && pc.pos == r.dequeuePos && pc'.pos == pc.pos)
    && (pc.DequeueTake? ==>
          pc.pos < |r.offered| && pc' == Ring.DequeueRelease(pc.pos, r.offered[pc.pos]))
    && (pc'.DequeueRelease? ==> pc.DequeueTake?)
    && (pc.DequeueRelease? ==>
          pc' == Ring.DequeueDone(Some(pc.value)) && r'.released == r.released + {pc.pos})
    && (!pc.DequeueRelease? ==>
          r'.released == r.released && (pc'.DequeueDone? ==> pc'.result == None && pc.DequeueLoadSeq?))
    && (pc'.DequeueLoadSeq? ==> pc'.pos == r.dequeuePos && (pc.DequeueLoadPos? || pc.DequeueCas?))
    && (pc'.DequeueCas? ==> pc.DequeueLoadSeq? && pc'.pos == pc.pos)
  }

  lemma ConsumerEffect(r: Ring.State<Functor>, spurious: bool)
    requires RingSafety.Invariant(r) && 0 < |r.threads|
    requires Dequeuing(r.threads[0]) && !r.threads[0].DequeueDone?
    ensures ConsumerMoved(r, Ring.Step(r, 0, spurious))
    ensures var pc, pc' := r.threads[0], Ring.Step(r, 0, spurious).threads[0];
      && (pc.DequeueLoadSeq? ==>
            if Ring.SlotOf(r, pc.pos).sequence == pc.pos + 1 then pc'.DequeueCas?
            else if Ring.SlotOf(r, pc.pos).sequence <= pc.pos then pc'.DequeueDone? else pc'.DequeueLoadPos?)
      && (pc.DequeueCas? ==>
            if pc.pos == r.dequeuePos && !spurious then pc'.DequeueTake? else pc'.DequeueLoadSeq?)
      && (pc.DequeueLoadPos? ==> pc'.DequeueLoadSeq?)
  {
    assert RingSafety.ThreadOk(r, 0);
  }

  lemma DequeueAdvanceOk(s: State, s': State, spurious: bool)
    requires Invariant(s) && InLoop(s) && s.loop.Dequeue?
    requires Dequeuing(s.ring.threads[0]) && !s.ring.threads[0].DequeueDone?
    requires s' == s.(ring := Ring.Step(s.ring, 0, spurious))
    ensures ConsumerOk(s') && LanesOk(s')
    ensures Taken(s') - |Hand(s')| == Taken(s) - |Hand(s)|
  {
    hide RingSafety.OwnersPresent, Ring.Step, CountOk, AcceptedOk, LoopOk;
    var pc := s.ring.threads[0];
    assert RingSafety.ThreadOk(s.ring, 0);
    ConsumerEffect(s.ring, spurious);
    if pc.DequeueRelease? {
      var done := Taken(s);
      assert s.ring.offered[..done + 1] == s.ring.offered[..done] + [pc.value];
      assert s.normalRun + NormalBatch(s.loop) + [] == s.normalRun + NormalBatch(s.loop);
    }
  }

  lemma DequeueAdvanceStep(s: State, s': State, spurious: bool)
    requires Invariant(s) && InLoop(s) && s.loop.Dequeue?
    requires Dequeuing(s.ring.threads[0]) && !s.ring.threads[0].DequeueDone?
    requires s' == s.(ring := Ring.Step(s.ring, 0, spurious))
    ensures Invariant(s')
  {
    assert ThreadOk(s, 0);
    RingSafety.ApplyInvariant(s.ring, Ring.Move(0, Ring.Advance(spurious)));
    RingSafety.ApplyOwners(s.ring, Ring.Move(0, Ring.Advance(spurious)));
    ConsumerEffect(s.ring, spurious);
    DequeueAdvanceOk(s, s', spurious);
    ConsumerMove(s, s');
  }

  /** A move of the consumer keeps everything that is not about the consumer. */
  lemma ConsumerMove(s: State, s': State)
    requires Invariant(s) && InLoop(s) && s.loop.Dequeue?
    requires s' == s.(ring := s'.ring, loop := s'.loop)
    requires RingOk(s') && |s'.ring.threads| == |s.ring.threads|
    requires s'.ring.threads == s.ring.threads[0 := s'.ring.threads[0]]
    requires s'.ring.offered == s.ring.offered
    requires !Enqueuing(s'.ring.threads[0]) && (Dequeuing(s'.ring.threads[0]) ==> s'.loop.Dequeue?)
    requires ConsumerOk(s') && LanesOk(s') && Taken(s') - |Hand(s')| == Taken(s) - |Hand(s)|
    requires Final(s'.loop) == Final(s.loop)
    requires s'.loop.Dequeue? || s'.loop.Decrement? || s'.loop.RunBatch?
    ensures Invariant(s')
  {
    assert ThreadOk(s, 0);
    assert OneThread(s, s', 0) by {
      assert s'.calls == s.calls[0 := s'.calls[0]];
    }
    ThreadsAfter(s, s', 0);
    ReservedAfter(s, s', 0);
    forall lane, f ensures Balanced(s, s', 0, lane, f) {
      assert Entered(s', lane) == Entered(s, lane) && Accepted(s', lane) == Accepted(s, lane);
    }
    AcceptedAfter(s, s', 0);
    assert LoopOk(s');
  }

  lemma DequeueStartStep(s: State, s': State)
    requires Invariant(s) && InLoop(s) && s.loop.Dequeue? && s.ring.threads[0].Idle?
    requires s' == DequeueStep(s, false)
    ensures Invariant(s')
  {
    hide RingSafety.Invariant, RingSafety.OwnersPresent, Ring.Step, CountOk, AcceptedOk, LoopOk;
    assert ThreadOk(s, 0);
    RingSafety.ApplyInvariant(s.ring, Ring.Move(0, Ring.Dequeue));
    RingSafety.ApplyOwners(s.ring, Ring.Move(0, Ring.Dequeue));
    assert s'.ring == if s.loop.limit == 0 then s.ring else Ring.At(s.ring, 0, Ring.DequeueLoadPos);
    assert s.ring.threads == s.ring.threads[0 := s.ring.threads[0]];
    ConsumerMove(s, s');
  }

  lemma DequeueReturnStep(s: State, s': State)
    requires Invariant(s) && InLoop(s) && s.loop.Dequeue? && s.ring.threads[0].DequeueDone?
    requires s' == DequeueStep(s, false)
    ensures Invariant(s')
  {
    hide RingSafety.Invariant, RingSafety.OwnersPresent, Ring.Step, CountOk, AcceptedOk, LoopOk;
    assert ThreadOk(s, 0);
    RingSafety.ApplyInvariant(s.ring, Ring.Move(0, Ring.Return));
    RingSafety.ApplyOwners(s.ring, Ring.Move(0, Ring.Return));
    assert s'.ring == Ring.At(s.ring, 0, Ring.Idle);
    ConsumerMove(s, s');
  }

  // ---------- Every move ----------

  lemma DequeueInvariant(s: State, spurious: bool)
    requires Invariant(s) && InLoop(s) && s.loop.Dequeue?
    ensures Invariant(DequeueStep(s, spurious))
  {
    hide RingSafety.Invariant, RingSafety.OwnersPresent, Ring.Step, ConsumerOk, LanesOk, CountOk, AcceptedOk, LoopOk;
    assert ThreadOk(s, 0);
    var s' := DequeueStep(s, spurious);
    if s.ring.threads[0].Idle? {
      DequeueStartStep(s, s');
    } else if s.ring.threads[0].DequeueDone? {
      DequeueReturnStep(s, s');
    } else {
      assert s' == s.(ring := Ring.Step(s.ring, 0, spurious));
      DequeueAdvanceStep(s, s', spurious);
    }
  }

  lemma PassInvariant(s: State)
    requires Invariant(s) && InLoop(s) && InPass(s.loop)
    ensures Invariant(PassStep(s))
  {
    hide Invariant, PassStep;
    IsWellFormed(s);
    var s' := PassStep(s);
    if s.loop.Decrement? {
      DecrementStep(s, s');
    } else if s.loop.SwapControl? {
      SwapControlStep(s, s');
    } else if s.loop.RunControl? && s.loop.batch != [] {
      RunControlStep(s, s');
    } else if s.loop.RunBatch? && s.loop.batch != [] {
      RunBatchStep(s, s');
    } else {
      PassPlainStep(s, s');
    }
  }

  lemma GateInvariant(s: State)
    requires Invariant(s) && InLoop(s) && !InPass(s.loop) && !s.loop.Dequeue?
    ensures Invariant(GateStep(s))
  {
    hide Invariant;
    IsWellFormed(s);
    var s' := GateStep(s);
    if s.loop.StopIngress? {
      StopIngressStep(s, s');
    } else if s.loop.Prologue? || s.loop.Finish? {
      LifecycleStep(s, s');
    } else {
      GateFrame(s);
      GatePlainStep(s, s');
    }
  }

  lemma LoopStepInvariant(s: State, spurious: bool)
    requires Invariant(s) && InLoop(s)
    ensures Invariant(LoopStep(s, spurious))
  {
    hide Invariant, DequeueStep, PassStep, GateStep;
    IsWellFormed(s);
    if s.loop.Dequeue? {
      DequeueInvariant(s, spurious);
    } else if InPass(s.loop) {
      PassInvariant(s);
    } else {
      GateInvariant(s);
    }
  }

  lemma LocalCallStep(s: State, s': State, t: nat)
    requires Invariant(s) && t < |s.calls|
    requires var c := s.calls[t];
      || ((c.CheckFlag? || c.Recheck? || c.LoadCount?) && s' == EnterStep(s, t))
      || (c.RequestStop? && s' == QuitStep(s, t))
      || (c.Reserve? && c.seen >= s.capacity && s' == SetCall(s, t, UnlockShared(Normal, c.cb, false)))
      || (c.Reserve? && s' == SetCall(s, t, Reserve(c.cb, s.count)))
    ensures Invariant(s')
  {
    hide RingSafety.Invariant, RingSafety.OwnersPresent, ConsumerOk, LanesOk, CountOk, AcceptedOk;
    assert ThreadOk(s, t);
    LocalCall(s, s', t, s'.calls[t]);
  }

  lemma InRingInvariant(s: State, t: nat, spurious: bool)
    requires Invariant(s) && t < |s.calls| && s.calls[t].InRing?
    ensures Invariant(CallStep(s, t, spurious))
  {
    hide RingSafety.Invariant, RingSafety.OwnersPresent, Ring.Step, OutsideStep;
    hide ConsumerOk, LanesOk, CountOk, AcceptedOk, LoopOk;
    assert ThreadOk(s, t);
    var s' := CallStep(s, t, spurious);
    if s.ring.threads[t].EnqueueDone? {
      RingReturnStep(s, s', t);
    } else {
      assert s' == s.(ring := Ring.Step(s.ring, t, spurious));
      RingAdvanceStep(s, s', t, spurious);
    }
  }

  lemma ReserveInvariant(s: State, t: nat, spurious: bool)
    requires Invariant(s) && t < |s.calls| && s.calls[t].Reserve?
    ensures Invariant(CallStep(s, t, spurious))
  {
    hide Invariant, OutsideStep, Ring.Apply;
    IsWellFormed(s);
    var s', seen := CallStep(s, t, spurious), s.calls[t].seen;
    if seen < s.capacity && s.count == seen && !spurious {
      ReserveStep(s, s', t);
    } else {
      LocalCallStep(s, s', t);
    }
  }

  lemma OutsideInvariant(s: State, t: nat)
    requires Invariant(s) && t < |s.calls| && !s.calls[t].InRing? && !s.calls[t].Reserve?
    ensures Invariant(OutsideStep(s, t))
  {
    hide Invariant, EnterStep, LeaveStep;
    IsWellFormed(s);
    var s' := OutsideStep(s, t);
    match s.calls[t]
    case Unreserve(_) =>
      NeverUnreserving(s, t);
    case LockShared(_, _) => LockSharedStep(s, s', t);
    case PushControl(_) => PushControlStep(s, s', t);
    case UnlockShared(_, _, _) => UnlockSharedStep(s, s', t);
    case MarkStopping =>
      if s.shared == {} {
        MarkStoppingStep(s, s', t);
      }
    case NoCall => NothingToDo(s, t);
    case _ => LocalCallStep(s, s', t);
  }

  lemma NeverUnreserving(s: State, t: nat)
    requires Invariant(s) && t < |s.calls|
    ensures !s.calls[t].Unreserve?
  {
    assert ThreadOk(s, t);
  }

  lemma NothingToDo(s: State, t: nat)
    requires WellFormed(s) && t < |s.calls| && s.calls[t].NoCall?
    ensures EnterStep(s, t) == s
  {
  }

  lemma CallStepInvariant(s: State, t: nat, spurious: bool)
    requires Invariant(s) && t < |s.calls|
    ensures Invariant(CallStep(s, t, spurious))
  {
    hide Invariant, OutsideStep;
    IsWellFormed(s);
    if s.calls[t].InRing? {
      InRingInvariant(s, t, spurious);
    } else if s.calls[t].Reserve? {
      ReserveInvariant(s, t, spurious);
    } else {
      OutsideInvariant(s, t);
    }
  }

  lemma CallbackEnds(s: State, s': State)
    requires Invariant(s) && s.calls[0].NoCall?
    requires (s.userCode && s' == s.(userCode := false))
      || (!s.userCode && s.loop.Events? && s' == s.(loop := StopIngress))
    ensures Invariant(s')
  {
    hide RingSafety.Invariant, RingSafety.OwnersPresent, AcceptedOk;
    forall j: nat | j < |s'.calls| ensures ThreadOk(s', j) {
      assert ThreadOk(s, j);
    }
    assert ConsumerOk(s') && LanesOk(s') && LoopOk(s');
    AcceptedSame(s, s');
  }

  lemma AcceptedSame(s: State, s': State)
    requires WellFormed(s) && AcceptedOk(s) && s'.ring == s.ring && s'.calls == s.calls
    requires s'.acceptedNormal == s.acceptedNormal && s'.acceptedControl == s.acceptedControl
    requires s'.controlPushed == s.controlPushed
    ensures AcceptedOk(s')
  {
    hide InFlight;
    assert forall lane :: Entered(s', lane) == Entered(s, lane) && Accepted(s', lane) == Accepted(s, lane);
  }

  lemma ApplyInvariant(s: State, m: Move)
    requires Invariant(s)
    ensures Invariant(Apply(s, m))
  {
    hide CallStep, LoopStep, RingSafety.Invariant, RingSafety.OwnersPresent, ConsumerOk, LanesOk, CountOk, AcceptedOk;
    var s' := Apply(s, m);
    if m.tid < |s.calls| && s' != s {
      assert ThreadOk(s, m.tid);
      match m.action
      case Begin(api) => LocalCall(s, s', m.tid, BeginCall(api));
      case Advance(spurious) =>
        if !s.calls[m.tid].NoCall? {
          CallStepInvariant(s, m.tid, spurious);
        } else {
          LoopStepInvariant(s, spurious);
        }
      case EndCallback => CallbackEnds(s, s');
      case BreakLoop => CallbackEnds(s, s');
    }
  }

  lemma {:induction false} RunInvariant(s: State, moves: seq<Move>)
    requires Invariant(s)
    ensures Invariant(Run(s, moves))
  {
    if moves != [] {
      RunInvariant(s, moves[..|moves| - 1]);
      ApplyInvariant(Run(s, moves[..|moves| - 1]), moves[|moves| - 1]);
    }
  }
}

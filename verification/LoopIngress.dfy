/** How callbacks enter an event loop, and how the loop stops, as a step machine.

Producers call `queueInLoop` or `queueControlInLoop`, quitters call `quit`, and thread 0 runs
`loop`. The normal lane goes through the ring of module LockFreeQueue behind an admission
counter; the control lane is a deque under a mutex. A critical section of the lifecycle lock held
exclusively is one step, which waits until no thread holds the lock shared; holding it shared is
explicit in `shared`. User callbacks run on thread 0 and may make any of these calls. */
module LoopIngress {
  import opened Wrappers
  import Ring = LockFreeQueue

  /** A callback, by identity. */
  type Functor = nat

  /** The most callbacks one pass of `doPendingFunctors` takes. */
  const BATCH_LIMIT: nat := 65536

  datatype Lane = Normal | Control

  datatype Lifecycle = Initialized | Running | Stopping | Stopped

  datatype Api = QueueInLoop(cb: Functor) | QueueControlInLoop(cb: Functor) | Quit

  /** Where a thread stands inside a call. */
  datatype Call =
    | NoCall
    | CheckFlag(lane: Lane, cb: Functor)
    | LockShared(lane: Lane, cb: Functor)
    | Recheck(lane: Lane, cb: Functor)
    | LoadCount(cb: Functor)
    | Reserve(cb: Functor, seen: int)
    | InRing(cb: Functor)
    | Unreserve(cb: Functor)
    | PushControl(cb: Functor)
    | UnlockShared(lane: Lane, cb: Functor, ok: bool)
    | RequestStop
    | MarkStopping

  /** Where thread 0 stands inside `loop`. `final` marks the passes after ingress was closed. */
  datatype LoopPc =
    | Prologue
    | CheckQuit
    | SwapControl(final: bool)
    | RunControl(final: bool, batch: seq<Functor>)
    | StartBatch(final: bool)
    | Dequeue(final: bool, limit: nat, batch: seq<Functor>)
    | Decrement(final: bool, limit: nat, batch: seq<Functor>, taken: Functor)
    | RunBatch(final: bool, batch: seq<Functor>)
    | CheckQuitAgain
    | Events
    | StopIngress
    | AwaitStop
    | CheckDrained
    | DrainOperations
    | Finish
    | Returned

  /** `userCode` is set while thread 0 runs a callback. The histories record what was pushed on the
  control lane, what ran from each lane, and which calls returned true. */
  datatype State = State(
    capacity: nat,
    ring: Ring.State<Functor>,
    count: int,
    control: seq<Functor>,
    flag: bool,
    quit: bool,
    lifecycle: Lifecycle,
    shared: set<nat>,
    calls: seq<Call>,
    loop: LoopPc,
    userCode: bool,
    controlPushed: seq<Functor>,
    controlRun: seq<Functor>,
    normalRun: seq<Functor>,
    acceptedNormal: multiset<Functor>,
    acceptedControl: multiset<Functor>)

  datatype Action = Begin(api: Api) | Advance(spurious: bool) | EndCallback | BreakLoop

  datatype Move = Move(tid: nat, action: Action)

  /** Thread 0 starts outside `loop`, free to make calls; ending that starts `loop`. */
  function Init(capacity: nat, slots: nat, threadCount: nat): State {
    State(capacity, Ring.Init(slots, threadCount), 0, [], false, false, Initialized, {},
          seq(threadCount, i => NoCall), Prologue, true, [], [], [], multiset{}, multiset{})
  }

  predicate WellFormed(s: State) {
    |s.ring.slots| > 0 && 0 < |s.calls| == |s.ring.threads|
  }

  function SetCall(s: State, t: nat, c: Call): State
    requires t < |s.calls|
  {
    s.(calls := s.calls[t := c])
  }

  predicate Closed(s: State) {
    s.lifecycle.Stopping? || s.lifecycle.Stopped?
  }

  function RingMove(s: State, t: nat, a: Ring.Action<Functor>): (r: State)
    requires WellFormed(s)
    ensures WellFormed(r) && r.capacity == s.capacity
  {
    s.(ring := Ring.Apply(s.ring, Ring.Move(t, a)))
  }

  function BeginCall(api: Api): Call {
    match api
    case QueueInLoop(cb) => CheckFlag(Normal, cb)
    case QueueControlInLoop(cb) => CheckFlag(Control, cb)
    case Quit => RequestStop
  }

  /** The checks of an enqueue, before anything enters a lane. */
  function EnterStep(s: State, t: nat): (r: State)
    requires WellFormed(s) && t < |s.calls|
    ensures WellFormed(r) && |r.calls| == |s.calls|
    ensures r == s.(calls := r.calls, shared := r.shared)
  {
    match s.calls[t]
    case CheckFlag(lane, cb) => SetCall(s, t, if s.flag then NoCall else LockShared(lane, cb))
    case LockShared(lane, cb) => SetCall(s, t, Recheck(lane, cb)).(shared := s.shared + {t})
    case Recheck(lane, cb) =>
      SetCall(s, t,
        if s.flag || Closed(s) then UnlockShared(lane, cb, false)
        else if lane.Normal? then LoadCount(cb) else PushControl(cb))
    case LoadCount(cb) => SetCall(s, t, Reserve(cb, s.count))
    case _ => s
  }

  /** The end of an enqueue. */
  function LeaveStep(s: State, t: nat): (r: State)
    requires WellFormed(s) && t < |s.calls|
    ensures WellFormed(r) && |r.calls| == |s.calls|
    ensures r == s.(calls := r.calls, count := r.count, control := r.control, controlPushed := r.controlPushed,
                    shared := r.shared, acceptedNormal := r.acceptedNormal, acceptedControl := r.acceptedControl)
  {
    match s.calls[t]
    case Unreserve(cb) =>
      SetCall(s, t, UnlockShared(Normal, cb, false)).(count := s.count - 1)
    case PushControl(cb) =>
      SetCall(s, t, UnlockShared(Control, cb, true))
        .(control := s.control + [cb], controlPushed := s.controlPushed + [cb])
    case UnlockShared(lane, cb, ok) =>
      SetCall(s, t, NoCall).(
        shared := s.shared - {t},
        acceptedNormal := if ok && lane.Normal? then s.acceptedNormal + multiset{cb} else s.acceptedNormal,
        acceptedControl := if ok && lane.Control? then s.acceptedControl + multiset{cb} else s.acceptedControl)
    case _ => s
  }

  function QuitStep(s: State, t: nat): (r: State)
    requires WellFormed(s) && t < |s.calls|
    ensures WellFormed(r) && |r.calls| == |s.calls|
    ensures r == s.(calls := r.calls, flag := r.flag, lifecycle := r.lifecycle, quit := r.quit)
  {
    match s.calls[t]
    case RequestStop => SetCall(s, t, MarkStopping).(flag := true)
    case MarkStopping =>
      if s.shared != {} then s
      else if Closed(s) then SetCall(s, t, NoCall)
      else SetCall(s, t, NoCall).(lifecycle := Stopping, quit := true)
    case _ => s
  }

  /** The next action of a thread inside a call, outside the ring. */
  function OutsideStep(s: State, t: nat): (r: State)
    requires WellFormed(s) && t < |s.calls|
    ensures WellFormed(r) && |r.calls| == |s.calls| && r.capacity == s.capacity
    ensures r.ring == s.ring && r.loop == s.loop && r.userCode == s.userCode
  {
    match s.calls[t]
    case Unreserve(_) => LeaveStep(s, t)
    case PushControl(_) => LeaveStep(s, t)
    case UnlockShared(_, _, _) => LeaveStep(s, t)
    case RequestStop => QuitStep(s, t)
    case MarkStopping => QuitStep(s, t)
    case _ => EnterStep(s, t)
  }

  /** The next action of a thread inside a call. */
  function CallStep(s: State, t: nat, spurious: bool): (r: State)
    requires WellFormed(s) && t < |s.calls|
    ensures WellFormed(r) && |r.calls| == |s.calls| && r.capacity == s.capacity
  {
    match s.calls[t]
    case Reserve(cb, seen) =>
      if seen >= s.capacity then SetCall(s, t, UnlockShared(Normal, cb, false))
      else if s.count == seen && !spurious
      then RingMove(SetCall(s, t, InRing(cb)).(count := s.count + 1), t, Ring.Enqueue(cb))
      else SetCall(s, t, Reserve(cb, s.count))
    case InRing(cb) =>
      (match s.ring.threads[t]
       case EnqueueDone(ok) =>
         RingMove(SetCall(s, t, if ok then UnlockShared(Normal, cb, true) else Unreserve(cb)),
                  t, Ring.Return)
       case _ => RingMove(s, t, Ring.Advance(spurious)))
    case _ => OutsideStep(s, t)
  }

  /** One step of `doPendingFunctors` taking a batch out of the ring. */
  function DequeueStep(s: State, spurious: bool): (r: State)
    requires WellFormed(s) && s.loop.Dequeue?
    ensures WellFormed(r) && |r.calls| == |s.calls| && r.capacity == s.capacity
    ensures r == s.(ring := r.ring, loop := r.loop)
  {
    var Dequeue(final, limit, batch) := s.loop;
    match s.ring.threads[0]
    case Idle =>
      if limit == 0 then s.(loop := RunBatch(final, batch))
      else RingMove(s.(loop := Dequeue(final, limit - 1, batch)), 0, Ring.Dequeue)
    case DequeueDone(Some(f)) =>
      RingMove(s.(loop := Decrement(final, limit, batch, f)), 0, Ring.Return)
    case DequeueDone(None) => RingMove(s.(loop := RunBatch(final, batch)), 0, Ring.Return)
    case _ => RingMove(s, 0, Ring.Advance(spurious))
  }

  /** `loop` between two passes, or on its way to the end. */
  function GateStep(s: State): (r: State)
    requires WellFormed(s)
    ensures WellFormed(r) && |r.calls| == |s.calls|
    ensures r == s.(calls := r.calls, loop := r.loop, userCode := r.userCode, lifecycle := r.lifecycle)
  {
    match s.loop
    case Prologue =>
      if s.shared != {} then s
      else if s.lifecycle.Stopped? then s.(loop := Returned, userCode := true)
      else s.(loop := CheckQuit, lifecycle := if s.lifecycle.Initialized? then Running else s.lifecycle)
    case CheckQuit => s.(loop := if s.quit then StopIngress else SwapControl(false))
    case CheckQuitAgain =>
      if s.quit then s.(loop := StopIngress) else s.(loop := Events, userCode := true)
    case Events => s.(loop := CheckQuit)
    case StopIngress => SetCall(s, 0, RequestStop).(loop := AwaitStop)
    case AwaitStop => s.(loop := SwapControl(true))
    case CheckDrained =>
      if s.count != 0 then s.(loop := StartBatch(true))
      else s.(loop := DrainOperations, userCode := true)
    case DrainOperations => s.(loop := Finish)
    case Finish =>
      if s.shared != {} then s
      else s.(loop := Returned, lifecycle := Stopped, userCode := true)
    case _ => s
  }

  /** A pass over the callbacks of a lane, outside the ring. */
  function PassStep(s: State): (r: State)
    requires WellFormed(s)
    ensures WellFormed(r)
    ensures r == s.(count := r.count, control := r.control, loop := r.loop, userCode := r.userCode,
                    controlRun := r.controlRun, normalRun := r.normalRun)
  {
    match s.loop
    case SwapControl(final) => s.(loop := RunControl(final, s.control), control := [])
    case RunControl(final, batch) =>
      if batch == [] then s.(loop := if final then CheckDrained else StartBatch(false))
      else s.(loop := RunControl(final, batch[1..]), controlRun := s.controlRun + [batch[0]], userCode := true)
    case StartBatch(final) => s.(loop := Dequeue(final, BATCH_LIMIT, []))
    case Decrement(final, limit, batch, f) =>
      s.(loop := Dequeue(final, limit, batch + [f]), count := s.count - 1)
    case RunBatch(final, batch) =>
      if batch == [] then s.(loop := if final then CheckDrained else CheckQuitAgain)
      else s.(loop := RunBatch(final, batch[1..]), normalRun := s.normalRun + [batch[0]], userCode := true)
    case _ => s
  }

  predicate InPass(loop: LoopPc) {
    loop.SwapControl? || loop.RunControl? || loop.StartBatch? || loop.Decrement? || loop.RunBatch?
  }

  /** The next action of `loop` on thread 0, outside calls and callbacks. */
  function LoopStep(s: State, spurious: bool): (r: State)
    requires WellFormed(s)
    ensures WellFormed(r) && |r.calls| == |s.calls| && r.capacity == s.capacity
    ensures !s.loop.Dequeue? ==> r.ring == s.ring
  {
    if s.loop.Dequeue? then DequeueStep(s, spurious)
    else if InPass(s.loop) then PassStep(s)
    else GateStep(s)
  }

  /** One move of a run. A move that does not fit, or that must wait, changes nothing. */
  function Apply(s: State, m: Move): (r: State)
    requires WellFormed(s)
    ensures WellFormed(r) && |r.calls| == |s.calls| && r.capacity == s.capacity
  {
    if m.tid >= |s.calls| then s
    else match m.action
      case Begin(api) =>
        if s.calls[m.tid].NoCall? && (m.tid != 0 || s.userCode)
        then SetCall(s, m.tid, BeginCall(api)) else s
      case Advance(spurious) =>
        if !s.calls[m.tid].NoCall? then CallStep(s, m.tid, spurious)
        else if m.tid == 0 && !s.userCode then LoopStep(s, spurious) else s
      case EndCallback =>
        if m.tid == 0 && s.calls[0].NoCall? && s.userCode && !s.loop.Returned?
        then s.(userCode := false) else s
      case BreakLoop =>
        if m.tid == 0 && s.calls[0].NoCall? && !s.userCode && s.loop.Events?
        then s.(loop := StopIngress) else s
  }

  /** The state after the moves of a run. */
  function Run(s: State, moves: seq<Move>): (r: State)
    requires WellFormed(s)
    ensures WellFormed(r) && |r.calls| == |s.calls| && r.capacity == s.capacity
  {
    if moves == [] then s else Apply(Run(s, moves[..|moves| - 1]), moves[|moves| - 1])
  }
}

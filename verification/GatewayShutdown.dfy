/** The session count of the gateway while it stops. Workers start and finish sessions on their own
threads; the stopping thread refuses new sessions, runs a control callback on every worker and waits
for all of them. Each access to shared or per-worker state is one step of some thread. */
module GatewayShutdown {

  /** How far a worker is in `startSession` or in the callback of a finished session. */
  datatype WorkerPc =
    | Between
    | Admitted
    | Found
    | Accepted
    | Metered
    | Counted
    | Erased
    | Closed
    | Unmetered

  datatype Worker = Worker(
    pc: WorkerPc, sessions: set<nat>, connectionsAccepted: nat, connectionsClosed: nat, activeConnections: int,
    barrierQueued: bool, barrierRun: bool)

  datatype Stopper = Serving | Posting(posted: nat) | Waiting | Passed

  datatype State = State(
    workers: seq<Worker>, acceptingSessions: bool, activeSessions: int, stopper: Stopper, complete: nat, nextSession: nat)

  datatype Step =
    | EnterStart(w: nat)
    | LookUpWorker(w: nat, known: bool)
    | CountAccepted(w: nat)
    | CountActive(w: nat)
    | AddSession(w: nat)
    | Install(w: nat)
    | EraseSession(w: nat, session: nat)
    | CountClosed(w: nat)
    | UncountActive(w: nat)
    | SubtractSession(w: nat)
    | RunBarrier(w: nat)
    | RefuseSessions
    | PostBarrier
    | AllPosted
    | PassBarrier

  predicate IsStopperStep(step: Step) {
    step.RefuseSessions? || step.PostBarrier? || step.AllPosted? || step.PassBarrier?
  }

  /** A step of a worker, or nothing if it cannot take it. */
  function WorkerStep(s: State, step: Step): State
    requires !IsStopperStep(step)
  {
    if step.w >= |s.workers| then s
    else
      var v := s.workers[step.w];
      match step
      case EnterStart(w) =>
        if v.pc.Between? && s.acceptingSessions then At(s, w, v.(pc := Admitted)) else s
      case LookUpWorker(w, known) =>
        if v.pc.Admitted? then At(s, w, v.(pc := if known then Found else Between)) else s
      case CountAccepted(w) =>
        if v.pc.Found? then At(s, w, v.(pc := Accepted, connectionsAccepted := v.connectionsAccepted + 1)) else s
      case CountActive(w) =>
        if v.pc.Accepted? then At(s, w, v.(pc := Metered, activeConnections := v.activeConnections + 1)) else s
      case AddSession(w) =>
        if v.pc.Metered? then At(s, w, v.(pc := Counted)).(activeSessions := s.activeSessions + 1) else s
      case Install(w) =>
        if v.pc.Counted? then
          At(s, w, v.(pc := Between, sessions := v.sessions + {s.nextSession})).(nextSession := s.nextSession + 1)
        else s
      case EraseSession(w, session) =>
        if v.pc.Between? && session in v.sessions then At(s, w, v.(pc := Erased, sessions := v.sessions - {session})) else s
      case CountClosed(w) =>
        if v.pc.Erased? then At(s, w, v.(pc := Closed, connectionsClosed := v.connectionsClosed + 1)) else s
      case UncountActive(w) =>
        if v.pc.Closed? then At(s, w, v.(pc := Unmetered, activeConnections := v.activeConnections - 1)) else s
      case SubtractSession(w) =>
        if v.pc.Unmetered? then At(s, w, v.(pc := Between)).(activeSessions := s.activeSessions - 1) else s
      case RunBarrier(w) =>
        if v.pc.Between? && v.barrierQueued && !v.barrierRun then
          At(s, w, v.(barrierRun := true)).(complete := s.complete + 1)
        else s
  }

  function At(s: State, w: nat, v: Worker): State
    requires w < |s.workers|
  {
    s.(workers := s.workers[w := v])
  }

  /** A step of the thread that stops the gateway. */
  function StopperStep(s: State, step: Step): State
    requires IsStopperStep(step)
  {
    match step
    case RefuseSessions => if s.stopper.Serving? then s.(acceptingSessions := false, stopper := Posting(0)) else s
    case PostBarrier =>
      if s.stopper.Posting? && s.stopper.posted < |s.workers| then
        var w := s.stopper.posted;
        At(s, w, s.workers[w].(barrierQueued := true)).(stopper := Posting(w + 1))
      else s
    case AllPosted => if s.stopper.Posting? && s.stopper.posted == |s.workers| then s.(stopper := Waiting) else s
    case PassBarrier => if s.stopper.Waiting? && s.complete == |s.workers| then s.(stopper := Passed) else s
  }

  function Apply(s: State, step: Step): State {
    if IsStopperStep(step) then StopperStep(s, step) else WorkerStep(s, step)
  }

  function Run(s: State, steps: seq<Step>): State
    decreases |steps|
  {
    if steps == [] then s else Run(Apply(s, steps[0]), steps[1..])
  }

  const IDLE: Worker := Worker(Between, {}, 0, 0, 0, false, false)

  /** A gateway that has just been started, with any number of workers. */
  ghost predicate Started(s: State) {
    && (forall w :: 0 <= w < |s.workers| ==> s.workers[w] == IDLE)
    && s.acceptingSessions && s.activeSessions == 0 && s.stopper == Serving && s.complete == 0 && s.nextSession == 0
  }

  // ---------- What the counters count ----------

  /** Sessions a worker accounts for in the shared count: those installed, the one that is counted but
  not installed yet, and the one that is erased but still counted. */
  function Held(v: Worker): nat {
    |v.sessions| + if v.pc.Counted? || v.pc.Erased? || v.pc.Closed? || v.pc.Unmetered? then 1 else 0
  }

  function TotalHeld(workers: seq<Worker>): nat {
    if workers == [] then 0 else Held(workers[0]) + TotalHeld(workers[1..])
  }

  function Passing(workers: seq<Worker>): nat {
    if workers == [] then 0 else (if workers[0].barrierRun then 1 else 0) + Passing(workers[1..])
  }

  /** The counters of one worker, exact at every point of its callbacks. */
  ghost predicate WorkerOk(v: Worker, nextSession: nat) {
    && v.connectionsAccepted - v.connectionsClosed
         == |v.sessions| + (if v.pc.Accepted? || v.pc.Metered? || v.pc.Counted? || v.pc.Erased? then 1 else 0)
    && v.activeConnections
         == |v.sessions| + (if v.pc.Metered? || v.pc.Counted? || v.pc.Erased? || v.pc.Closed? then 1 else 0)
    && (forall i :: i in v.sessions ==> i < nextSession)
    && (v.barrierRun ==> v.barrierQueued)
  }

  /** Inside `startSession`, before the shared count goes up. */
  predicate Starting(v: Worker) {
    v.pc.Admitted? || v.pc.Found? || v.pc.Accepted? || v.pc.Metered?
  }

  ghost predicate Invariant(s: State) {
    && (forall w :: 0 <= w < |s.workers| ==> WorkerOk(s.workers[w], s.nextSession))
    && s.activeSessions == TotalHeld(s.workers) && s.complete == Passing(s.workers)
    && (s.acceptingSessions <==> s.stopper.Serving?)
    && (forall w :: 0 <= w < |s.workers| && s.workers[w].barrierQueued ==> !s.acceptingSessions)
    && (forall w :: 0 <= w < |s.workers| && s.workers[w].barrierRun ==> !Starting(s.workers[w]))
    && (s.stopper.Passed? ==> s.complete == |s.workers|)
  }

  lemma {:induction false} HeldAfter(workers: seq<Worker>, w: nat, v: Worker)
    requires w < |workers|
    ensures TotalHeld(workers[w := v]) == TotalHeld(workers) - Held(workers[w]) + Held(v)
    ensures Passing(workers[w := v])
         == Passing(workers) - (if workers[w].barrierRun then 1 else 0) + (if v.barrierRun then 1 else 0)
  {
    if w == 0 {
      assert workers[w := v][1..] == workers[1..];
    } else {
      HeldAfter(workers[1..], w - 1, v);
      assert workers[w := v][1..] == workers[1..][w - 1 := v];
    }
  }

  lemma {:induction false} IdleHoldNothing(workers: seq<Worker>)
    requires forall w :: 0 <= w < |workers| ==> workers[w] == IDLE
    ensures TotalHeld(workers) == 0 && Passing(workers) == 0
  {
    if workers != [] {
      IdleHoldNothing(workers[1..]);
    }
  }

  lemma StartedInvariant(s: State)
    requires Started(s)
    ensures Invariant(s)
  {
    IdleHoldNothing(s.workers);
  }

  /** One worker changed, and what it accounts for with the shared count. */
  lemma WorkerChanged(s: State, w: nat, v: Worker, s': State)
    requires Invariant(s) && w < |s.workers| && s'.workers == s.workers[w := v]
    requires s'.acceptingSessions == s.acceptingSessions && s'.stopper == s.stopper && s'.nextSession >= s.nextSession
    requires s'.activeSessions == s.activeSessions - Held(s.workers[w]) + Held(v)
    requires s'.complete == s.complete - (if s.workers[w].barrierRun then 1 else 0) + (if v.barrierRun then 1 else 0)
    requires WorkerOk(v, s'.nextSession) && v.barrierQueued == s.workers[w].barrierQueued
    requires v.barrierRun ==> !Starting(v)
    requires s.stopper.Passed? ==> v.barrierRun == s.workers[w].barrierRun
    ensures Invariant(s')
  {
    HeldAfter(s.workers, w, v);
  }

  lemma {:induction false} AllPassing(workers: seq<Worker>)
    ensures Passing(workers) <= |workers|
    ensures Passing(workers) == |workers| ==> forall w :: 0 <= w < |workers| ==> workers[w].barrierRun
  {
    if workers != [] {
      AllPassing(workers[1..]);
      assert workers == [workers[0]] + workers[1..];
    }
  }

  /** A step changes its worker only, and the shared counters with it. */
  lemma WorkerMoves(s: State, step: Step, s': State)
    requires !IsStopperStep(step) && s' == WorkerStep(s, step) && s' != s && step.w < |s.workers|
    ensures |s'.workers| == |s.workers| && s'.workers == s.workers[step.w := s'.workers[step.w]]
    ensures s'.acceptingSessions == s.acceptingSessions && s'.stopper == s.stopper && s'.nextSession >= s.nextSession
  {
  }

  /** What the worker accounts for changes with the shared count, and its barrier with that count. */
  lemma MoveCounts(s: State, step: Step, s': State)
    requires !IsStopperStep(step) && s' == WorkerStep(s, step) && s' != s
    requires step.w < |s.workers| && forall i :: i in s.workers[step.w].sessions ==> i < s.nextSession
    ensures step.w < |s'.workers|
    ensures var v, v' := s.workers[step.w], s'.workers[step.w];
      && s'.activeSessions == s.activeSessions - Held(v) + Held(v')
      && s'.complete == s.complete - (if v.barrierRun then 1 else 0) + (if v'.barrierRun then 1 else 0)
  {
  }

  lemma MoveBarrier(s: State, step: Step, s': State)
    requires !IsStopperStep(step) && s' == WorkerStep(s, step) && s' != s && step.w < |s.workers|
    requires var v := s.workers[step.w];
      && (v.barrierQueued ==> !s.acceptingSessions) && (v.barrierRun ==> v.barrierQueued && !Starting(v))
      && (s.stopper.Passed? ==> v.barrierRun)
    ensures step.w < |s'.workers|
    ensures var v, v' := s.workers[step.w], s'.workers[step.w];
      && v'.barrierQueued == v.barrierQueued && (v'.barrierRun ==> v'.barrierQueued && !Starting(v'))
      && (s.stopper.Passed? ==> v'.barrierRun == v.barrierRun)
  {
  }

  lemma MoveCounters(s: State, step: Step, s': State)
    requires !IsStopperStep(step) && s' == WorkerStep(s, step) && s' != s
    requires step.w < |s.workers| && WorkerOk(s.workers[step.w], s.nextSession)
    requires step.w < |s'.workers| && (s'.workers[step.w].barrierRun ==> s'.workers[step.w].barrierQueued)
    ensures WorkerOk(s'.workers[step.w], s'.nextSession)
  {
  }

  lemma WorkerStepKeeps(s: State, step: Step)
    requires Invariant(s) && !IsStopperStep(step)
    ensures Invariant(WorkerStep(s, step))
  {
    var s' := WorkerStep(s, step);
    if s' != s {
      assert step.w < |s.workers|;
      AllPassing(s.workers);
      Moved(s, step, s');
    }
  }

  lemma Moved(s: State, step: Step, s': State)
    requires Invariant(s) && !IsStopperStep(step) && s' == WorkerStep(s, step) && s' != s && step.w < |s.workers|
    requires s.stopper.Passed? ==> s.workers[step.w].barrierRun
    ensures Invariant(s')
  {
    hide WorkerStep, Held, Starting;
    assert WorkerOk(s.workers[step.w], s.nextSession);
    WorkerMoves(s, step, s');
    MoveCounts(s, step, s');
    MoveBarrier(s, step, s');
    MoveCounters(s, step, s');
    WorkerChanged(s, step.w, s'.workers[step.w], s');
  }

  lemma StopperStepKeeps(s: State, step: Step)
    requires Invariant(s) && IsStopperStep(step)
    ensures Invariant(StopperStep(s, step))
  {
    if step.PostBarrier? && s.stopper.Posting? && s.stopper.posted < |s.workers| {
      var w := s.stopper.posted;
      HeldAfter(s.workers, w, s.workers[w].(barrierQueued := true));
    }
  }

  lemma StepKeeps(s: State, step: Step)
    requires Invariant(s)
    ensures Invariant(Apply(s, step))
  {
    hide Invariant;
    if IsStopperStep(step) {
      StopperStepKeeps(s, step);
    } else {
      WorkerStepKeeps(s, step);
    }
  }

  lemma {:induction false} RunKeeps(s: State, steps: seq<Step>)
    requires Invariant(s)
    ensures Invariant(Run(s, steps))
    decreases |steps|
  {
    hide Invariant, Apply;
    if steps != [] {
      StepKeeps(s, steps[0]);
      RunKeeps(Apply(s, steps[0]), steps[1..]);
    }
  }

  // ---------- The barrier ----------

  lemma ReachableInvariant(start: State, steps: seq<Step>)
    requires Started(start)
    ensures Invariant(Run(start, steps))
  {
    StartedInvariant(start);
    RunKeeps(start, steps);
  }

  /** On every run the shared count is the number of installed sessions, of those counted but not yet
  installed, and of those erased but not yet subtracted; between its callbacks a worker has accepted
  as many connections more than it closed as it has sessions. */
  lemma CountsAreExact(start: State, steps: seq<Step>, s: State, w: nat)
    requires Started(start) && s == Run(start, steps) && w < |s.workers|
    ensures s.activeSessions == TotalHeld(s.workers)
    ensures var v := s.workers[w];
      v.pc.Between? ==> v.connectionsAccepted - v.connectionsClosed == |v.sessions| && v.activeConnections == |v.sessions|
  {
    ReachableInvariant(start, steps);
    assert WorkerOk(s.workers[w], s.nextSession);
  }

  /** Once the barrier is passed, no step of anyone raises the count. */
  lemma NoRiseAfterBarrier(s: State, step: Step)
    requires Invariant(s) && s.stopper.Passed?
    ensures Apply(s, step).stopper.Passed? && Apply(s, step).activeSessions <= s.activeSessions
  {
    AllPassing(s.workers);
  }

  lemma {:induction false} FallsAfterBarrier(s: State, steps: seq<Step>)
    requires Invariant(s) && s.stopper.Passed?
    ensures Invariant(Run(s, steps)) && Run(s, steps).stopper.Passed?
    ensures Run(s, steps).activeSessions <= s.activeSessions
    decreases |steps|
  {
    if steps != [] {
      NoRiseAfterBarrier(s, steps[0]);
      StepKeeps(s, steps[0]);
      FallsAfterBarrier(Apply(s, steps[0]), steps[1..]);
    }
  }

  lemma {:induction false} NothingHeld(workers: seq<Worker>)
    requires TotalHeld(workers) == 0
    ensures forall w :: 0 <= w < |workers| ==> Held(workers[w]) == 0
  {
    if workers != [] {
      NothingHeld(workers[1..]);
      assert workers == [workers[0]] + workers[1..];
    }
  }

  /** A zero that is read behind the barrier is final: whatever runs afterwards, the count stays zero,
  and no worker has a session or is about to have one. */
  lemma ZeroIsFinal(start: State, before: seq<Step>, s: State, after: seq<Step>, w: nat)
    requires Started(start) && s == Run(start, before) && s.stopper.Passed? && s.activeSessions == 0
    ensures Run(s, after).activeSessions == 0
    ensures w < |Run(s, after).workers| ==> var v := Run(s, after).workers[w];
      v.sessions == {} && !Starting(v) && !v.pc.Counted?
  {
    ReachableInvariant(start, before);
    FallsAfterBarrier(s, after);
    NobodyLeft(Run(s, after), w);
  }

  lemma NobodyLeft(s: State, w: nat)
    requires Invariant(s) && s.stopper.Passed? && s.activeSessions <= 0
    ensures s.activeSessions == 0
    ensures w < |s.workers| ==> s.workers[w].sessions == {} && !Starting(s.workers[w]) && !s.workers[w].pc.Counted?
  {
    NothingHeld(s.workers);
    AllPassing(s.workers);
    assert w < |s.workers| ==> Held(s.workers[w]) == 0;
  }

  // ---------- A zero in front of the barrier ----------

  ghost predicate NoneStarting(s: State) {
    forall w :: 0 <= w < |s.workers| ==> !Starting(s.workers[w])
  }

  /** The steps left for a worker in `startSession` until the shared count goes up. */
  function StepsToCount(pc: WorkerPc, w: nat): seq<Step>
    decreases if pc.Admitted? then 3 else if pc.Found? then 2 else if pc.Accepted? then 1 else 0
  {
    match pc
    case Admitted => [LookUpWorker(w, true)] + StepsToCount(Found, w)
    case Found => [CountAccepted(w)] + StepsToCount(Accepted, w)
    case Accepted => [CountActive(w)] + StepsToCount(Metered, w)
    case Metered => [AddSession(w)]
    case _ => []
  }

  /** A worker that has been admitted raises the count, whatever the stopping thread has done. */
  lemma {:induction false} StartingRises(s: State, w: nat)
    requires w < |s.workers| && Starting(s.workers[w])
    ensures Run(s, StepsToCount(s.workers[w].pc, w)).activeSessions == s.activeSessions + 1
    decreases |StepsToCount(s.workers[w].pc, w)|
  {
    var steps := StepsToCount(s.workers[w].pc, w);
    var next := Apply(s, steps[0]);
    if s.workers[w].pc.Metered? {
      assert steps[1..] == [];
    } else {
      assert steps[1..] == StepsToCount(next.workers[w].pc, w);
      StartingRises(next, w);
    }
  }

  /** With sessions refused, nobody starting and nothing held, every worker is between two callbacks. */
  lemma QuietStep(s: State, step: Step)
    requires Invariant(s) && !s.acceptingSessions && s.activeSessions == 0 && NoneStarting(s)
    ensures var s' := Apply(s, step); !s'.acceptingSessions && s'.activeSessions == 0 && NoneStarting(s')
  {
    NothingHeld(s.workers);
    if !IsStopperStep(step) && step.w < |s.workers| {
      assert Held(s.workers[step.w]) == 0 && !Starting(s.workers[step.w]);
    }
  }

  lemma {:induction false} QuietRun(s: State, steps: seq<Step>)
    requires Invariant(s) && !s.acceptingSessions && s.activeSessions == 0 && NoneStarting(s)
    ensures Run(s, steps).activeSessions == 0
    decreases |steps|
  {
    hide Invariant, NoneStarting, Apply;
    if steps != [] {
      QuietStep(s, steps[0]);
      StepKeeps(s, steps[0]);
      QuietRun(Apply(s, steps[0]), steps[1..]);
    }
  }

  /** With new sessions refused already, a zero is final if and only if no worker is inside
  `startSession` in front of the shared count. That is what the barrier waits for. */
  lemma ZeroIsFinalExactlyWhen(start: State, before: seq<Step>, s: State)
    requires Started(start) && s == Run(start, before) && !s.acceptingSessions && s.activeSessions == 0
    ensures (forall after: seq<Step> :: Run(s, after).activeSessions == 0) <==> NoneStarting(s)
  {
    hide Invariant;
    ReachableInvariant(start, before);
    if NoneStarting(s) {
      forall after: seq<Step> ensures Run(s, after).activeSessions == 0 {
        QuietRun(s, after);
      }
    } else {
      var w: nat :| w < |s.workers| && Starting(s.workers[w]);
      StartingRises(s, w);
    }
  }

  /** In front of the barrier a zero proves nothing, even with new sessions refused already. */
  lemma ZeroMayRiseBeforeBarrier(start: State)
    requires Started(start) && start.workers != []
    ensures exists before, after :: var s := Run(start, before);
      !s.acceptingSessions && s.activeSessions == 0 && Run(s, after).activeSessions == 1
  {
    var before := [EnterStart(0), RefuseSessions];
    RunTwo(start, before[0], before[1]);
    var s := Run(start, before);
    assert s.workers[0].pc == Admitted && !s.acceptingSessions && s.activeSessions == 0;
    StartingRises(s, 0);
    assert Run(s, StepsToCount(Admitted, 0)).activeSessions == 1;
  }

  lemma RunTwo(s: State, a: Step, b: Step)
    ensures Run(s, [a, b]) == Apply(Apply(s, a), b)
  {
    var next := Apply(s, a);
    assert [a, b][1..] == [b] && [b][1..] == [];
    assert Run(next, [b]) == Run(Apply(next, b), []) == Apply(next, b);
  }

  // ---------- The barrier is passed ----------

  /** The barrier callback is queued on the workers in order, and on all of them before the wait. */
  ghost predicate Posted(s: State) {
    match s.stopper
    case Serving => true
    case Posting(posted) => posted <= |s.workers| && forall w :: 0 <= w < posted ==> s.workers[w].barrierQueued
    case _ => forall w :: 0 <= w < |s.workers| ==> s.workers[w].barrierQueued
  }

  lemma PostedStays(s: State, step: Step)
    requires Posted(s)
    ensures Posted(Apply(s, step))
  {
    if !IsStopperStep(step) {
      hide WorkerStep;
      QueuedStays(s, step);
    }
  }

  lemma QueuedStays(s: State, step: Step)
    requires !IsStopperStep(step)
    ensures var s' := WorkerStep(s, step);
      && s'.stopper == s.stopper && |s'.workers| == |s.workers|
      && forall w :: 0 <= w < |s.workers| ==> s'.workers[w].barrierQueued == s.workers[w].barrierQueued
  {
  }

  lemma {:induction false} RunPosted(s: State, steps: seq<Step>)
    requires Posted(s)
    ensures Posted(Run(s, steps))
    decreases |steps|
  {
    hide Posted, Apply;
    if steps != [] {
      PostedStays(s, steps[0]);
      RunPosted(Apply(s, steps[0]), steps[1..]);
    }
  }

  /** The workers that have run the callback of the barrier. */
  ghost function Ran(workers: seq<Worker>): set<nat> {
    set w: nat | w < |workers| && workers[w].barrierRun
  }

  lemma RanLast(front: seq<Worker>, last: Worker)
    ensures Ran(front + [last]) == Ran(front) + (if last.barrierRun then {|front|} else {}) && |front| !in Ran(front)
  {
  }

  lemma {:induction false} PassingIsSet(workers: seq<Worker>)
    ensures Passing(workers) == |Ran(workers)|
  {
    if workers == [] {
      assert Ran(workers) == {};
    } else {
      hide Ran;
      var front, last := workers[..|workers| - 1], workers[|workers| - 1];
      assert workers == front + [last];
      PassingIsSet(front);
      PassingLast(front, last);
      RanLast(front, last);
    }
  }

  lemma {:induction false} PassingLast(front: seq<Worker>, last: Worker)
    ensures Passing(front + [last]) == Passing(front) + if last.barrierRun then 1 else 0
  {
    if front == [] {
      assert front + [last] == [last];
    } else {
      PassingLast(front[1..], last);
      assert (front + [last])[1..] == front[1..] + [last];
    }
  }

  /** On every run the stopping thread waits for exactly the workers that have not run its callback: it passes
  the barrier only when all have, and the count that it waits for is the number of those that have. */
  lemma CompleteCountsExactly(start: State, steps: seq<Step>)
    requires Started(start)
    ensures var s := Run(start, steps);
      && s.complete == |Ran(s.workers)|
      && (s.stopper.Passed? ==> forall w :: 0 <= w < |s.workers| ==> s.workers[w].barrierRun)
  {
    var s := Run(start, steps);
    ReachableInvariant(start, steps);
    PassingIsSet(s.workers);
    AllPassing(s.workers);
  }

  /** Steps that a worker has before it until it is between two callbacks. */
  function StepsToBetween(pc: WorkerPc): nat {
    match pc
    case Between => 0
    case Admitted => 6
    case Found => 5
    case Accepted => 4
    case Metered => 3
    case Counted => 1
    case Erased => 3
    case Closed => 2
    case Unmetered => 1
  }

  /** ... and until it has run the barrier callback. */
  function StepsToBarrier(workers: seq<Worker>): nat {
    if workers == [] then 0
    else (if workers[0].barrierRun then 0 else 1 + StepsToBetween(workers[0].pc)) + StepsToBarrier(workers[1..])
  }

  function StopperWork(s: State): int {
    match s.stopper
    case Serving => |s.workers| + 4
    case Posting(posted) => |s.workers| - posted + 3
    case Waiting => 2
    case Passed => 0
  }

  function BarrierWork(s: State): int {
    StopperWork(s) + StepsToBarrier(s.workers)
  }

  /** What a worker does next in its callback, or the barrier callback between two of them. */
  function NextOf(v: Worker, w: nat): Step {
    match v.pc
    case Between => RunBarrier(w)
    case Admitted => LookUpWorker(w, true)
    case Found => CountAccepted(w)
    case Accepted => CountActive(w)
    case Metered => AddSession(w)
    case Counted => Install(w)
    case Erased => CountClosed(w)
    case Closed => UncountActive(w)
    case Unmetered => SubtractSession(w)
  }

  lemma {:induction false} BarrierWorkAfter(workers: seq<Worker>, w: nat, v: Worker)
    requires w < |workers| && !workers[w].barrierRun
    requires v.barrierRun || StepsToBetween(v.pc) < StepsToBetween(workers[w].pc)
    ensures StepsToBarrier(workers[w := v]) < StepsToBarrier(workers)
  {
    if w == 0 {
      assert workers[w := v][1..] == workers[1..];
    } else {
      BarrierWorkAfter(workers[1..], w - 1, v);
      assert workers[w := v][1..] == workers[1..][w - 1 := v];
    }
  }

  lemma {:induction false} QueueingCostsNothing(workers: seq<Worker>, w: nat)
    requires w < |workers|
    ensures StepsToBarrier(workers[w := workers[w].(barrierQueued := true)]) == StepsToBarrier(workers)
  {
    var v := workers[w].(barrierQueued := true);
    if w == 0 {
      assert workers[w := v][1..] == workers[1..];
    } else {
      QueueingCostsNothing(workers[1..], w - 1);
      assert workers[w := v][1..] == workers[1..][w - 1 := v];
    }
  }

  lemma {:induction false} SomeoneIsMissing(workers: seq<Worker>) returns (w: nat)
    requires Passing(workers) < |workers|
    ensures w < |workers| && !workers[w].barrierRun
  {
    if workers[0].barrierRun {
      w := SomeoneIsMissing(workers[1..]);
      w := w + 1;
    } else {
      w := 0;
    }
  }

  /** Somebody can always take a step that brings the barrier nearer. */
  lemma BarrierCloser(s: State) returns (step: Step)
    requires Invariant(s) && Posted(s) && !s.stopper.Passed?
    ensures 0 <= BarrierWork(Apply(s, step)) < BarrierWork(s)
  {
    AllPassing(s.workers);
    match s.stopper
    case Serving => step := RefuseSessions;
    case Posting(posted) =>
      if posted < |s.workers| {
        step := PostBarrier;
        QueueingCostsNothing(s.workers, posted);
      } else {
        step := AllPosted;
      }
    case Waiting =>
      if s.complete == |s.workers| {
        step := PassBarrier;
      } else {
        var w := SomeoneIsMissing(s.workers);
        step := NextOf(s.workers[w], w);
        WorkerComesCloser(s, w);
      }
  }

  lemma WorkerComesCloser(s: State, w: nat)
    requires w < |s.workers| && !s.workers[w].barrierRun && s.workers[w].barrierQueued
    ensures var s' := Apply(s, NextOf(s.workers[w], w));
      s'.stopper == s.stopper && |s'.workers| == |s.workers| && StepsToBarrier(s'.workers) < StepsToBarrier(s.workers)
  {
    hide StepsToBarrier;
    var s' := Apply(s, NextOf(s.workers[w], w));
    assert s'.workers == s.workers[w := s'.workers[w]];
    BarrierWorkAfter(s.workers, w, s'.workers[w]);
  }

  lemma {:induction false} BarrierReached(s: State) returns (steps: seq<Step>)
    requires Invariant(s) && Posted(s)
    ensures Run(s, steps).stopper.Passed? && |steps| <= Max(BarrierWork(s), 0)
    decreases BarrierWork(s)
  {
    hide Invariant, Posted, Apply, BarrierWork;
    if s.stopper.Passed? {
      steps := [];
    } else {
      var step := BarrierCloser(s);
      StepKeeps(s, step);
      PostedStays(s, step);
      var rest := BarrierReached(Apply(s, step));
      steps := [step] + rest;
      assert steps[1..] == rest;
    }
  }

  function Max(a: int, b: int): int {
    if a > b then a else b
  }

  /** From every state that a gateway can reach, whatever its workers are doing, the barrier can be passed. */
  lemma BarrierCanBePassed(start: State, before: seq<Step>)
    requires Started(start)
    ensures exists after :: Run(Run(start, before), after).stopper.Passed?
  {
    hide Invariant;
    ReachableInvariant(start, before);
    RunPosted(start, before);
    var after := BarrierReached(Run(start, before));
  }

  // ---------- Sessions are served ----------

  lemma RunFirst(s: State, first: Step, rest: seq<Step>)
    ensures Run(s, [first] + rest) == Run(Apply(s, first), rest)
  {
    assert ([first] + rest)[1..] == rest;
  }

  /** Two more steps, each of which changes only its worker and the shared counts. */
  lemma RunPair(s: State, a: Step, b: Step, rest: seq<Step>)
    ensures Run(s, [a, b] + rest) == Run(Apply(Apply(s, a), b), rest)
  {
    hide Apply, Run;
    assert [a, b] + rest == [a] + ([b] + rest);
    RunFirst(s, a, [b] + rest);
    RunFirst(Apply(s, a), b, rest);
  }

  function StartSteps(w: nat): seq<Step> {
    [EnterStart(w), LookUpWorker(w, true)] + CountSteps(w)
  }

  function CountSteps(w: nat): seq<Step> {
    [CountAccepted(w), CountActive(w)] + InstallSteps(w)
  }

  function InstallSteps(w: nat): seq<Step> {
    [AddSession(w), Install(w)] + []
  }

  function EndSteps(w: nat, session: nat): seq<Step> {
    [EraseSession(w, session), CountClosed(w)] + ([UncountActive(w), SubtractSession(w)] + [])
  }

  /** A gateway that accepts sessions serves them: an idle worker that admits one holds it in the end, and all
  counters have gone up by one. */
  lemma SessionStarts(s: State, w: nat)
    requires w < |s.workers| && s.acceptingSessions && s.workers[w].pc.Between?
    ensures var v := s.workers[w];
      Run(s, StartSteps(w))
        == s.(activeSessions := s.activeSessions + 1, nextSession := s.nextSession + 1,
              workers := s.workers[w := v.(sessions := v.sessions + {s.nextSession},
                connectionsAccepted := v.connectionsAccepted + 1, activeConnections := v.activeConnections + 1)])
  {
    hide Run, Apply, StartSteps, CountSteps, InstallSteps;
    var found, metered := s.workers[w].(pc := Found), Counters(s.workers[w].(pc := Metered));
    SessionIsFound(s, w);
    SessionIsMetered(At(s, w, found), w);
    AtTwice(s, w, found, metered);
    SessionIsInstalled(At(s, w, metered), w);
    AtTwice(s, w, metered, metered.(pc := Between, sessions := s.workers[w].sessions + {s.nextSession}));
  }

  lemma AtTwice(s: State, w: nat, first: Worker, second: Worker)
    requires w < |s.workers|
    ensures At(At(s, w, first), w, second) == At(s, w, second)
  {
  }

  function Counters(v: Worker): Worker {
    v.(connectionsAccepted := v.connectionsAccepted + 1, activeConnections := v.activeConnections + 1)
  }

  lemma SessionIsFound(s: State, w: nat)
    requires w < |s.workers| && s.acceptingSessions && s.workers[w].pc.Between?
    ensures Run(s, StartSteps(w)) == Run(At(s, w, s.workers[w].(pc := Found)), CountSteps(w))
  {
    hide Run, CountSteps;
    RunPair(s, EnterStart(w), LookUpWorker(w, true), CountSteps(w));
    AtTwice(s, w, s.workers[w].(pc := Admitted), s.workers[w].(pc := Found));
    assert Apply(Apply(s, EnterStart(w)), LookUpWorker(w, true)) == At(s, w, s.workers[w].(pc := Found));
  }

  lemma SessionIsMetered(s: State, w: nat)
    requires w < |s.workers| && s.workers[w].pc.Found?
    ensures Run(s, CountSteps(w)) == Run(At(s, w, Counters(s.workers[w].(pc := Metered))), InstallSteps(w))
  {
    hide Run, InstallSteps;
    RunPair(s, CountAccepted(w), CountActive(w), InstallSteps(w));
    var v := s.workers[w];
    AtTwice(s, w, v.(pc := Accepted, connectionsAccepted := v.connectionsAccepted + 1), Counters(v.(pc := Metered)));
    assert Apply(Apply(s, CountAccepted(w)), CountActive(w)) == At(s, w, Counters(v.(pc := Metered)));
  }

  lemma SessionIsInstalled(s: State, w: nat)
    requires w < |s.workers| && s.workers[w].pc.Metered?
    ensures var v := s.workers[w];
      Run(s, InstallSteps(w))
        == At(s, w, v.(pc := Between, sessions := v.sessions + {s.nextSession}))
             .(activeSessions := s.activeSessions + 1, nextSession := s.nextSession + 1)
  {
    hide Run;
    RunPair(s, AddSession(w), Install(w), []);
    var v := s.workers[w];
    AtTwice(s, w, v.(pc := Counted), v.(pc := Between, sessions := v.sessions + {s.nextSession}));
    RunNothing(Apply(Apply(s, AddSession(w)), Install(w)));
  }

  lemma RunNothing(s: State)
    ensures Run(s, []) == s
  {
  }

  /** A session that ends leaves its worker, and all counters go down by one. */
  lemma SessionEnds(s: State, w: nat, session: nat)
    requires w < |s.workers| && s.workers[w].pc.Between? && session in s.workers[w].sessions
    ensures var v := s.workers[w];
      Run(s, EndSteps(w, session))
        == s.(activeSessions := s.activeSessions - 1,
              workers := s.workers[w := v.(sessions := v.sessions - {session},
                connectionsClosed := v.connectionsClosed + 1, activeConnections := v.activeConnections - 1)])
  {
    hide Run;
    var v := s.workers[w];
    RunPair(s, EraseSession(w, session), CountClosed(w), [UncountActive(w), SubtractSession(w)] + []);
    var closed := At(s, w, v.(pc := Closed, sessions := v.sessions - {session},
                              connectionsClosed := v.connectionsClosed + 1));
    assert Apply(Apply(s, EraseSession(w, session)), CountClosed(w)) == closed;
    RunPair(closed, UncountActive(w), SubtractSession(w), []);
    RunNothing(Apply(Apply(closed, UncountActive(w)), SubtractSession(w)));
  }
}

/** One asynchronous I/O operation: how the completions of its I/O, timeout and cancel requests
decide its single result. */
module IoOperation {
  import opened Wrappers

  datatype ErrorCode =
    | Eof | Cancelled | TimedOut | ConnectionReset | ResourceExhausted | NotConnected | Protocol | System

  datatype Error = Error(code: ErrorCode, systemError: int)

  type IoResult = Result<nat, Error>

  datatype OperationType = Read | Write | Poll | Connect | Accept | Cancel

  datatype CompletionKind = Io | Timeout | CancelRequest

  /** A completion as the kernel reports it. */
  datatype Cqe = Cqe(kind: CompletionKind, res: int)

  /** Whether the waiting coroutine must be resumed now, and whether no completion is left. */
  datatype Decision = Decision(resume: bool, drained: bool)

  const ECANCELED: int := 125
  const ETIME: int := 62
  const ETIMEDOUT: int := 110
  const ECONNRESET: int := 104
  const EPIPE: int := 32
  const ENOTCONN: int := 107
  const EAGAIN: int := 11
  const ENOBUFS: int := 105
  const ENOMEM: int := 12

  const CANCELLED: IoResult := Failure(Error(Cancelled, ECANCELED))

  function ErrorFromKernelResult(res: int): Error {
    var e := -res;
    if e == ECANCELED then Error(Cancelled, e)
    else if e == ETIME || e == ETIMEDOUT then Error(TimedOut, e)
    else if e == ECONNRESET || e == EPIPE then Error(ConnectionReset, e)
    else if e == ENOTCONN then Error(NotConnected, e)
    else if e == EAGAIN || e == ENOBUFS || e == ENOMEM then Error(ResourceExhausted, e)
    else Error(System, e)
  }

  /** The value of an operation object. */
  datatype OpState = OpState(
    kind: OperationType,
    linkedTimeout: bool,
    cancelRequested: bool,
    completed: bool,
    pending: nat,
    result: IoResult)

  /** What a completion says about the operation, if anything: an I/O result, unless it only tells
  that the linked timeout won; an expired or failed timeout; never a cancel acknowledgement. */
  function Verdict(op: OpState, c: Cqe): Option<IoResult> {
    match c.kind
    case CancelRequest => None
    case Io =>
      if c.res >= 0 then
        Some(if op.kind == Read && c.res == 0 then Failure(Error(Eof, 0)) else Success(c.res))
      else if op.cancelRequested then Some(CANCELLED)
      else if op.linkedTimeout && c.res == -ECANCELED then None
      else Some(Failure(ErrorFromKernelResult(c.res)))
    case Timeout =>
      if c.res == -ECANCELED then None else Some(Failure(ErrorFromKernelResult(c.res)))
  }

  /** The operation after a completion: the first verdict wins, and the last completion decides
  that an operation without any verdict was cancelled. */
  function Complete(op: OpState, c: Cqe): OpState {
    if op.pending == 0 then op
    else
      var left := op.(pending := op.pending - 1);
      if op.completed then left
      else match Verdict(op, c)
        case Some(r) => left.(completed := true, result := r)
        case None => if left.pending == 0 then left.(completed := true, result := CANCELLED) else left
  }

  class IoOperation {
    const id: nat
    const kind: OperationType
    const linkedTimeout: bool
    var cancelRequested: bool
    var externallyCompleted: bool
    var pendingCqes: nat
    var result: IoResult
    /** A continuation or callback waits for the result. */
    var waiting: bool
    /** What the waiting side saw: how often it was resumed, and the result it read. */
    ghost var resumptions: nat
    ghost var told: Option<IoResult>

    constructor (id: nat, kind: OperationType, linkedTimeout: bool)
      ensures this.id == id && waiting && resumptions == 0 && told == None
      ensures View() == OpState(kind, linkedTimeout, false, false, 0, Failure(Error(System, 0)))
    {
      this.id, this.kind, this.linkedTimeout := id, kind, linkedTimeout;
      cancelRequested, externallyCompleted, pendingCqes := false, false, 0;
      result := Failure(Error(System, 0));
      waiting := true;
      resumptions, told := 0, None;
    }

    function View(): OpState
      reads this
    {
      OpState(kind, linkedTimeout, cancelRequested, externallyCompleted, pendingCqes, result)
    }

    /** False stands for the exception thrown when an operation is armed twice or with nothing. */
    method Arm(expectedCqes: nat) returns (ok: bool)
      modifies this`pendingCqes
      ensures ok == (expectedCqes > 0 && old(pendingCqes) == 0)
      ensures pendingCqes == if ok then expectedCqes else old(pendingCqes)
    {
      if expectedCqes == 0 || pendingCqes != 0 {
        return false;
      }
      pendingCqes := expectedCqes;
      return true;
    }

    method AddExpectedCqe()
      modifies this`pendingCqes
      ensures pendingCqes == old(pendingCqes) + 1
    {
      pendingCqes := pendingCqes + 1;
    }

    method RequestCancel() returns (ok: bool)
      modifies this`cancelRequested
      ensures ok == (!externallyCompleted && !old(cancelRequested))
      ensures cancelRequested == (ok || old(cancelRequested))
    {
      if externallyCompleted || cancelRequested {
        return false;
      }
      cancelRequested := true;
      return true;
    }

    method SelectResult(r: IoResult) returns (selected: bool)
      modifies this`result, this`externallyCompleted
      ensures selected == !old(externallyCompleted)
      ensures externallyCompleted && result == if selected then r else old(result)
    {
      if externallyCompleted {
        return false;
      }
      result := r;
      externallyCompleted := true;
      return true;
    }

    method OnCompletion(c: Cqe) returns (d: Decision)
      modifies this`pendingCqes, this`result, this`externallyCompleted
      ensures View() == Complete(old(View()), c)
      ensures old(externallyCompleted) ==> externallyCompleted && result == old(result)
      ensures pendingCqes == if old(pendingCqes) == 0 then 0 else old(pendingCqes) - 1
      ensures d.resume == (!old(externallyCompleted) && externallyCompleted)
      ensures d.drained == (pendingCqes == 0)
    {
      if pendingCqes == 0 {
        return Decision(false, true);
      }
      pendingCqes := pendingCqes - 1;

      var resume := false;
      if !externallyCompleted && c.kind != CancelRequest {
        if c.kind == Io && c.res >= 0 {
          if kind == Read && c.res == 0 {
            resume := SelectResult(Failure(Error(Eof, 0)));
          } else {
            resume := SelectResult(Success(c.res));
          }
        } else if cancelRequested && c.kind == Io && c.res < 0 {
          resume := SelectResult(CANCELLED);
        } else if c.kind == Timeout {
          if c.res == -ETIME || c.res == -ETIMEDOUT {
            resume := SelectResult(Failure(Error(TimedOut, -c.res)));
          } else if c.res != -ECANCELED {
            resume := SelectResult(Failure(ErrorFromKernelResult(c.res)));
          }
        } else if !(linkedTimeout && c.res == -ECANCELED) {
          resume := SelectResult(Failure(ErrorFromKernelResult(c.res)));
        }
      }

      if !externallyCompleted && pendingCqes == 0 {
        resume := SelectResult(CANCELLED);
      }
      return Decision(resume, pendingCqes == 0);
    }

    method Reject(error: Error)
      modifies this`result, this`externallyCompleted
      ensures externallyCompleted
      ensures result == if old(externallyCompleted) then old(result) else Failure(error)
    {
      if !externallyCompleted {
        var _ := SelectResult(Failure(error));
      }
    }

    /** Takes the continuation or callback, if it is still there, and runs it. */
    method ResumeContinuation()
      modifies this`waiting, this`resumptions, this`told
      ensures !waiting
      ensures resumptions == if old(waiting) then old(resumptions) + 1 else old(resumptions)
      ensures told == if old(waiting) then Some(result) else old(told)
    {
      var held := waiting;
      waiting := false;
      if held {
        resumptions := resumptions + 1;
        told := Some(result);
      }
    }
  }

  // ---------- All completions of one operation ----------

  function Deliver(op: OpState, cqes: seq<Cqe>): OpState
    decreases |cqes|
  {
    if cqes == [] then op else Deliver(Complete(op, cqes[0]), cqes[1..])
  }

  /** How many of the completions resume the waiting coroutine. */
  function Resumptions(op: OpState, cqes: seq<Cqe>): nat
    decreases |cqes|
  {
    if cqes == [] then 0
    else
      var next := Complete(op, cqes[0]);
      (if !op.completed && next.completed then 1 else 0) + Resumptions(next, cqes[1..])
  }

  /** The first completion that says something. */
  function FirstVerdict(op: OpState, cqes: seq<Cqe>): Option<IoResult> {
    if cqes == [] then None
    else if Verdict(op, cqes[0]).Some? then Verdict(op, cqes[0])
    else FirstVerdict(op, cqes[1..])
  }

  /** What a result of the kernel says about an undecided operation, with the numbers of the kernel's
  interface: a size, the end of the stream, a cancellation, a timeout, or an error. */
  lemma WhatIsTold(op: OpState, c: Cqe)
    requires !op.completed && op.pending > 0
    ensures var r := Complete(op, c);
      && r == op.(pending := op.pending - 1, completed := r.completed, result := r.result)
      && (c.kind.Io? && c.res > 0 ==> r.completed && r.result == Success(c.res))
      && (c.kind.Io? && c.res == 0 ==>
            r.completed && r.result == if op.kind.Read? then Failure(Error(Eof, 0)) else Success(0))
      && (c.kind.Io? && c.res < 0 && op.cancelRequested ==> r.completed && r.result == Failure(Error(Cancelled, 125)))
      && (c.kind.Io? && c.res < 0 && !op.cancelRequested && !(op.linkedTimeout && c.res == -125) ==>
            r.completed && r.result.Failure? && r.result.error.systemError == -c.res)
      && (c.kind.Timeout? && (c.res == -62 || c.res == -110) ==>
            r.completed && r.result == Failure(Error(TimedOut, -c.res)))
      && (c.kind.Timeout? && c.res != -125 ==>
            r.completed && r.result.Failure? && r.result.error.systemError == -c.res)
  {
  }

  /** What leaves an operation undecided: an acknowledged cancel request, a timeout that was disarmed, and an
  I/O that the linked timeout stopped. The last completion then decides that it was cancelled. */
  lemma WhatIsNotTold(op: OpState, c: Cqe)
    requires !op.completed && op.pending > 0
    requires c.kind.CancelRequest? || (c.kind.Timeout? && c.res == -125)
      || (c.kind.Io? && c.res == -125 && op.linkedTimeout && !op.cancelRequested)
    ensures Complete(op, c) ==
      if op.pending == 1 then op.(pending := 0, completed := true, result := Failure(Error(Cancelled, 125)))
      else op.(pending := op.pending - 1)
  {
  }

  /** The codes of the kernel's errors, each exactly for its numbers. */
  lemma KernelErrors(res: int)
    ensures var e := ErrorFromKernelResult(res);
      && e.systemError == -res
      && (e.code.Cancelled? <==> res == -125)
      && (e.code.TimedOut? <==> res == -62 || res == -110)
      && (e.code.ConnectionReset? <==> res == -104 || res == -32)
      && (e.code.NotConnected? <==> res == -107)
      && (e.code.ResourceExhausted? <==> res == -11 || res == -105 || res == -12)
      && !e.code.Eof? && !e.code.Protocol?
  {
  }

  /** A read with a linked timeout: whichever of the two completions comes first, data is told with its
  size, the end of the stream as such, and an expired timeout as such when the I/O was stopped by it. */
  lemma ReadWithTimeout(cqes: seq<Cqe>, i: nat, j: nat, r: int, t: int)
    requires Interleaving(cqes, i, j, r, t)
    ensures t == -125 && r > 0 ==> FinalResult(Read, false, cqes) == Success(r)
    ensures t == -125 && r == 0 ==> FinalResult(Read, false, cqes) == Failure(Error(Eof, 0))
    ensures t == -62 && r == -125 ==> FinalResult(Read, false, cqes) == Failure(Error(TimedOut, 62))
  {
    ResultOfInterleaving(Read, false, cqes, i, j, r, t);
  }

  /** Once completed, an operation never resumes again and never changes its result. */
  lemma {:induction false} CompletedIsFinal(op: OpState, cqes: seq<Cqe>)
    requires op.completed
    ensures Deliver(op, cqes).completed && Deliver(op, cqes).result == op.result
    ensures Resumptions(op, cqes) == 0
    decreases |cqes|
  {
    if cqes != [] {
      CompletedIsFinal(Complete(op, cqes[0]), cqes[1..]);
    }
  }

  lemma {:induction false} PendingCountsDown(op: OpState, cqes: seq<Cqe>)
    requires |cqes| <= op.pending
    ensures Deliver(op, cqes).pending == op.pending - |cqes|
    decreases |cqes|
  {
    if cqes != [] {
      PendingCountsDown(Complete(op, cqes[0]), cqes[1..]);
    }
  }

  /** Delivering exactly the expected completions, in whatever order, resumes the operation exactly
  once, with the first verdict or as cancelled, and leaves nothing pending. */
  lemma {:induction false} DeliveredOnce(op: OpState, cqes: seq<Cqe>)
    requires !op.completed && |cqes| == op.pending > 0
    ensures var done := Deliver(op, cqes);
      && done.completed && done.pending == 0
      && done.result == (match FirstVerdict(op, cqes) case Some(r) => r case None => CANCELLED)
    ensures Resumptions(op, cqes) == 1
    decreases |cqes|
  {
    var next := Complete(op, cqes[0]);
    PendingCountsDown(op, cqes);
    if next.completed {
      CompletedIsFinal(next, cqes[1..]);
      if |cqes| == 1 {
        assert cqes[1..] == [];
      }
    } else {
      DeliveredOnce(next, cqes[1..]);
      SameVerdicts(next, op, cqes[1..]);
    }
  }

  lemma {:induction false} SameVerdicts(a: OpState, b: OpState, cqes: seq<Cqe>)
    requires a.kind == b.kind && a.linkedTimeout == b.linkedTimeout && a.cancelRequested == b.cancelRequested
    ensures FirstVerdict(a, cqes) == FirstVerdict(b, cqes)
  {
    if cqes != [] {
      SameVerdicts(a, b, cqes[1..]);
    }
  }

  // ---------- An operation with a linked timeout ----------

  /** The completions of an I/O request and its linked timeout, with results `r` and `t`, in either
  order, and any number of cancel acknowledgements in between. */
  ghost predicate Interleaving(cqes: seq<Cqe>, i: nat, j: nat, r: int, t: int) {
    && i < |cqes| && j < |cqes| && i != j
    && cqes[i] == Cqe(Io, r) && cqes[j] == Cqe(Timeout, t)
    && forall k: nat :: k < |cqes| && k != i && k != j ==> cqes[k].kind == CancelRequest
  }

  function Armed(kind: OperationType, cancelRequested: bool, expected: nat): OpState {
    OpState(kind, true, cancelRequested, false, expected, Failure(Error(System, 0)))
  }

  function FinalResult(kind: OperationType, cancelRequested: bool, cqes: seq<Cqe>): IoResult {
    Deliver(Armed(kind, cancelRequested, |cqes|), cqes).result
  }

  function Either(first: Option<IoResult>, second: Option<IoResult>): IoResult {
    if first.Some? then first.value else if second.Some? then second.value else CANCELLED
  }

  lemma {:induction false} SkipCancels(op: OpState, cqes: seq<Cqe>, i: nat)
    requires i <= |cqes| && forall k: nat :: k < i ==> cqes[k].kind == CancelRequest
    ensures FirstVerdict(op, cqes) == FirstVerdict(op, cqes[i..])
  {
    if i > 0 {
      SkipCancels(op, cqes[1..], i - 1);
      assert cqes[1..][i - 1..] == cqes[i..];
    }
  }

  lemma VerdictInOrder(op: OpState, cqes: seq<Cqe>, i: nat, j: nat)
    requires i < j < |cqes|
    requires forall k: nat :: k < |cqes| && k != i && k != j ==> cqes[k].kind == CancelRequest
    ensures FirstVerdict(op, cqes) ==
      if Verdict(op, cqes[i]).Some? then Verdict(op, cqes[i]) else Verdict(op, cqes[j])
  {
    SkipCancels(op, cqes, i);
    var rest := cqes[i..][1..];
    assert rest == cqes[i + 1..];
    SkipCancels(op, rest, j - i - 1);
    assert rest[j - i - 1..] == cqes[j..];
    var tail := cqes[j..][1..];
    SkipCancels(op, tail, |tail|);
  }

  /** The result depends on the order of the two completions only, never on the cancel ones. */
  lemma ResultOfInterleaving(kind: OperationType, cancelled: bool, cqes: seq<Cqe>, i: nat, j: nat, r: int, t: int)
    requires Interleaving(cqes, i, j, r, t)
    ensures var op := Armed(kind, cancelled, |cqes|); var io, timeout := Verdict(op, Cqe(Io, r)), Verdict(op, Cqe(Timeout, t));
      FinalResult(kind, cancelled, cqes) == if i < j then Either(io, timeout) else Either(timeout, io)
  {
    var op := Armed(kind, cancelled, |cqes|);
    DeliveredOnce(op, cqes);
    if i < j {
      VerdictInOrder(op, cqes, i, j);
    } else {
      VerdictInOrder(op, cqes, j, i);
    }
  }

  /** The pairs of results that say the same in both orders: the timeout was disarmed; or, without
  a cancel request, the I/O was stopped by the timeout, or both report the same failure. */
  predicate OrderFree(cancelled: bool, r: int, t: int) {
    || t == -ECANCELED
    || (!cancelled && (r == -ECANCELED || (r < 0 && r == t)))
  }

  /** Completion order is irrelevant exactly for those pairs. */
  lemma OrderIrrelevantExactlyWhen(kind: OperationType, cancelled: bool, r: int, t: int)
    ensures OrderFree(cancelled, r, t) <==>
      forall a, i, j, b, k, l :: Interleaving(a, i, j, r, t) && Interleaving(b, k, l, r, t) ==>
        FinalResult(kind, cancelled, a) == FinalResult(kind, cancelled, b)
  {
    if OrderFree(cancelled, r, t) {
      forall a, i, j, b, k, l | Interleaving(a, i, j, r, t) && Interleaving(b, k, l, r, t)
        ensures FinalResult(kind, cancelled, a) == FinalResult(kind, cancelled, b)
      {
        ResultOfInterleaving(kind, cancelled, a, i, j, r, t);
        ResultOfInterleaving(kind, cancelled, b, k, l, r, t);
      }
    } else {
      var ioFirst, timeoutFirst := [Cqe(Io, r), Cqe(Timeout, t)], [Cqe(Timeout, t), Cqe(Io, r)];
      assert Interleaving(ioFirst, 0, 1, r, t);
      assert Interleaving(timeoutFirst, 1, 0, r, t);
      ResultOfInterleaving(kind, cancelled, ioFirst, 0, 1, r, t);
      ResultOfInterleaving(kind, cancelled, timeoutFirst, 1, 0, r, t);
    }
  }
}

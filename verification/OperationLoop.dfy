/** The event loop's registry of I/O operations: submission, cancellation, completion and the
drain at shutdown. The kernel is the multiset of submitted requests that have not completed; it
delivers one completion for each, in any order. `space` stands for the free submission entries of
the ring, which the kernel decides. */
module OperationLoop {
  import opened IoOperation
  import opened Sequences
  import opened Wrappers

  const EPERM: int := 1
  const EINVAL: int := 22
  const EALREADY: int := 114

  datatype Disposition = Submitted | Queued | Rejected(error: Error)

  /** A request in the kernel's hands. */
  datatype Token = Token(op: IoOperation, kind: CompletionKind)

  datatype PendingSubmission = PendingSubmission(op: IoOperation, sqeCount: nat)

  /** The requests of one submission: the I/O, its linked timeout, and further I/O entries. */
  function Requests(op: IoOperation, sqeCount: nat): (m: multiset<Token>)
    requires sqeCount > 0
    ensures |m| == sqeCount
    ensures forall t :: t in m ==> t.op == op
    ensures m[Token(op, Io)] == if sqeCount > 1 then sqeCount - 1 else 1
    ensures m[Token(op, Timeout)] == (if sqeCount > 1 then 1 else 0) && m[Token(op, CancelRequest)] == 0
  {
    if sqeCount == 1 then multiset{Token(op, Io)}
    else if sqeCount == 2 then multiset{Token(op, Io), Token(op, Timeout)}
    else Requests(op, sqeCount - 1) + multiset{Token(op, Io)}
  }

  lemma RequestsOfOthers(op: IoOperation, sqeCount: nat)
    requires sqeCount > 0
    ensures forall o: IoOperation, kind :: o != op ==> Requests(op, sqeCount)[Token(o, kind)] == 0
  {
    forall o: IoOperation, kind | o != op ensures Requests(op, sqeCount)[Token(o, kind)] == 0 {
      if Token(o, kind) in Requests(op, sqeCount) {
        assert false;
      }
    }
  }

  lemma TokenKinds(t: Token)
    ensures t == Token(t.op, Io) || t == Token(t.op, Timeout) || t == Token(t.op, CancelRequest)
  {
    match t
    case Token(op, Io) =>
    case Token(op, Timeout) =>
    case Token(op, CancelRequest) =>
  }

  ghost predicate DistinctIds(queue: seq<PendingSubmission>) {
    forall i, j :: 0 <= i < j < |queue| ==> queue[i].op.id != queue[j].op.id
  }

  function QueuedOps(queue: seq<PendingSubmission>): (ops: set<IoOperation>)
    ensures forall p :: p in queue ==> p.op in ops
    ensures forall o :: o in ops ==> exists p :: p in queue && p.op == o
  {
    set p | p in queue :: p.op
  }

  lemma AppendedToQueue(queue: seq<PendingSubmission>, entry: PendingSubmission)
    requires DistinctIds(queue) && forall p :: p in queue ==> p.op.id != entry.op.id
    ensures DistinctIds(queue + [entry])
    ensures QueuedOps(queue + [entry]) == QueuedOps(queue) + {entry.op}
  {
    assert entry in queue + [entry];
  }

  lemma WithoutKeepsIds(queue: seq<PendingSubmission>, index: nat)
    requires index < |queue| && DistinctIds(queue)
    ensures DistinctIds(Without(queue, index))
  {
    var rest := Without(queue, index);
    forall i, j | 0 <= i < j < |rest| ensures rest[i].op.id != rest[j].op.id {
      WithoutAt(queue, index, i);
      WithoutAt(queue, index, j);
    }
  }

  lemma TwiceInQueue(queue: seq<PendingSubmission>, entry: PendingSubmission)
    requires entry.op in QueuedOps(queue)
    ensures !DistinctIds(queue + [entry])
  {
    var k: nat :| k < |queue| && queue[k].op == entry.op;
    var longer := queue + [entry];
    assert longer[k].op.id == longer[|queue|].op.id;
  }

  /** Removing one entry removes exactly its operation. */
  lemma WithoutOperation(queue: seq<PendingSubmission>, index: nat)
    requires index < |queue| && DistinctIds(queue)
    ensures forall p :: p in Without(queue, index) <==> p in queue && p != queue[index]
    ensures forall p :: p in Without(queue, index) ==> p.op.id != queue[index].op.id
  {
    var rest := Without(queue, index);
    assert |rest| == |queue| - 1;
    forall p | p in rest ensures p in queue && p.op.id != queue[index].op.id {
      var k: nat :| k < |rest| && rest[k] == p;
      WithoutAt(queue, index, k);
    }
    forall p | p in queue && p != queue[index] ensures p in rest {
      var k: nat :| k < |queue| && queue[k] == p;
      WithoutAt(queue, index, if k < index then k else k - 1);
    }
  }

  lemma RemovedFromQueue(queue: seq<PendingSubmission>, index: nat)
    requires index < |queue| && DistinctIds(queue)
    ensures DistinctIds(Without(queue, index))
    ensures forall p :: p in Without(queue, index) ==> p in queue
    ensures forall o :: o in QueuedOps(Without(queue, index)) ==> o.id != queue[index].op.id
    ensures QueuedOps(Without(queue, index)) == QueuedOps(queue) - {queue[index].op}
  {
    hide Without, DistinctIds;
    WithoutKeepsIds(queue, index);
    WithoutOperation(queue, index);
    forall o | o in QueuedOps(Without(queue, index)) ensures o.id != queue[index].op.id && o in QueuedOps(queue) {
      var p :| p in Without(queue, index) && p.op == o;
    }
    forall o | o in QueuedOps(queue) && o != queue[index].op ensures o in QueuedOps(Without(queue, index)) {
      var p :| p in queue && p.op == o;
      assert p in Without(queue, index);
    }
  }

  /** The requests of a stretch of the queue. */
  ghost function AllRequests(entries: seq<PendingSubmission>): multiset<Token>
    requires forall p :: p in entries ==> p.sqeCount > 0
  {
    if entries == [] then multiset{}
    else
      var last := |entries| - 1;
      AllRequests(entries[..last]) + Requests(entries[last].op, entries[last].sqeCount)
  }

  lemma OneFewer<V>(m: map<nat, V>, id: nat)
    requires id in m
    ensures |m - {id}| == |m| - 1
  {
    assert m.Keys == (m - {id}).Keys + {id};
  }

  lemma NoRequests(queue: seq<PendingSubmission>)
    ensures AllRequests(queue[..0]) == multiset{}
  {
  }

  lemma MoreRequests(queue: seq<PendingSubmission>, k: nat)
    requires k < |queue| && forall p :: p in queue ==> p.sqeCount > 0
    ensures AllRequests(queue[..k + 1]) == AllRequests(queue[..k]) + Requests(queue[k].op, queue[k].sqeCount)
  {
    assert queue[..k + 1][..k] == queue[..k];
  }

  class OperationLoop {
    var inFlight: map<nat, IoOperation>
    var inFlightCount: int
    var pendingSubmissions: seq<PendingSubmission>
    var retries: seq<IoOperation>
    var stoppingRequested: bool
    const pendingSubmissionCapacity: nat

    /** Requests the kernel has not completed. */
    var kernel: multiset<Token>
    var nextOperationId: nat
    /** Operations ever accepted as submitted or queued, which code outside the loop may still hold. */
    var accepted: set<IoOperation>
    /** Those in the queue, and whose id is whose. */
    ghost var queued: set<IoOperation>
    ghost var owner: map<nat, IoOperation>

    ghost predicate IsInFlight(o: IoOperation)
      reads this`inFlight
    {
      o.id in inFlight && inFlight[o.id] == o
    }

    ghost function Outstanding(o: IoOperation): nat
      reads this`kernel
    {
      kernel[Token(o, Io)] + kernel[Token(o, Timeout)] + kernel[Token(o, CancelRequest)]
    }

    /** Nobody is told before the operation has its result, and then exactly one, exactly once. */
    ghost predicate ReportOk(o: IoOperation)
      reads o
    {
      && (o.waiting <==> !o.externallyCompleted)
      && o.resumptions == (if o.externallyCompleted then 1 else 0)
      && o.told == (if o.externallyCompleted then Some(o.result) else None)
    }

    /** The operation counts its requests, and is registered exactly while it has any. */
    ghost predicate CountOk(o: IoOperation)
      reads this`inFlight, this`kernel, this`queued, o
    {
      && o.pendingCqes == Outstanding(o)
      && (IsInFlight(o) <==> o.pendingCqes > 0)
      && (o in queued ==> !IsInFlight(o) && (o.externallyCompleted || !o.cancelRequested))
      && (!o.externallyCompleted ==> IsInFlight(o) || o in queued)
    }

    /** What holds of every accepted operation. */
    ghost predicate OpOk(o: IoOperation)
      reads this`inFlight, this`kernel, this`queued, o
    {
      CountOk(o) && ReportOk(o)
    }

    /** The registry holds accepted operations under their ids. */
    ghost predicate MapOk()
      reads this`inFlight, this`inFlightCount, this`accepted
    {
      && (forall id :: id in inFlight ==> inFlight[id] in accepted && inFlight[id].id == id)
      && inFlightCount == |inFlight|
    }

    /** The queue holds accepted operations, each once. */
    ghost predicate QueueOk()
      reads this`pendingSubmissions, this`queued, this`accepted
    {
      && (forall p :: p in pendingSubmissions ==> p.sqeCount > 0)
      && queued == QueuedOps(pendingSubmissions) && queued <= accepted
      && DistinctIds(pendingSubmissions)
    }

    ghost predicate KernelOk()
      reads this`kernel, this`accepted
    {
      forall t :: t in kernel ==> t.op in accepted
    }

    /** Every accepted operation has an id of its own. */
    ghost predicate IdsOk()
      reads this`owner, this`retries, this`accepted
    {
      && (forall o :: o in accepted ==> o.id in owner && owner[o.id] == o)
      && (forall id :: id in owner ==> owner[id] in accepted && owner[id].id == id)
      && (forall o :: o in retries ==> o in accepted)
    }

    ghost predicate RegistryOk()
      reads this`inFlight, this`inFlightCount, this`pendingSubmissions, this`queued, this`kernel
      reads this`accepted, this`owner, this`retries
    {
      MapOk() && QueueOk() && KernelOk() && IdsOk()
    }

    ghost predicate OpsOk()
      reads this`inFlight, this`kernel, this`queued, this`accepted, accepted
    {
      forall o :: o in accepted ==> OpOk(o)
    }

    ghost predicate Valid()
      reads this`inFlight, this`inFlightCount, this`pendingSubmissions, this`queued, this`kernel
      reads this`accepted, this`owner, this`retries, accepted
    {
      RegistryOk() && OpsOk()
    }

    constructor (pendingSubmissionCapacity: nat)
      ensures Valid() && accepted == {} && kernel == multiset{} && !stoppingRequested
      ensures inFlight == map[] && pendingSubmissions == [] && retries == [] && nextOperationId == 1
      ensures this.pendingSubmissionCapacity == pendingSubmissionCapacity
    {
      this.pendingSubmissionCapacity := pendingSubmissionCapacity;
      inFlight, inFlightCount, pendingSubmissions, retries := map[], 0, [], [];
      stoppingRequested, nextOperationId := false, 1;
      kernel, accepted, queued, owner := multiset{}, {}, {}, map[];
    }

    /** All ids given to accepted operations came from the counter. */
    ghost predicate IdsFromCounter()
      reads this`nextOperationId, this`accepted
    {
      forall o :: o in accepted ==> o.id < nextOperationId
    }

    /** A new id, which no accepted operation has if their ids came from here. */
    method NextOperationId() returns (id: nat)
      modifies this`nextOperationId
      ensures id == old(nextOperationId) && nextOperationId == id + 1
      ensures old(IdsFromCounter()) ==> IdsFromCounter() && forall o :: o in accepted ==> o.id != id
    {
      id := nextOperationId;
      nextOperationId := nextOperationId + 1;
    }

    /** No request of the operation is outstanding. */
    ghost predicate IsUnregistered(op: IoOperation)
      reads this`inFlight, this`kernel, op
    {
      op.id !in inFlight && op.pendingCqes == 0 && Outstanding(op) == 0
    }

    /** ... and it has no place in the queue; if it has no result, somebody waits. */
    ghost predicate IsUnclaimed(op: IoOperation)
      reads this`inFlight, this`kernel, this`queued, op
    {
      IsUnregistered(op) && op !in queued && ReportOk(op)
    }

    /** Puts the requests of an operation into the kernel's hands. That is wrong for an operation that is
    still in the queue, or whose result was decided without telling whoever waits. */
    method PrepareSubmission(op: IoOperation, sqeCount: nat)
      requires RegistryOk() && OthersOk(op) && op in accepted && IsUnregistered(op) && sqeCount > 0
      modifies this`inFlight, this`inFlightCount, this`kernel, op`pendingCqes
      ensures IsInFlight(op) && (Valid() <==> op !in queued && ReportOk(op))
      ensures inFlight == old(inFlight)[op.id := op]
      ensures kernel == old(kernel) + Requests(op, sqeCount)
    {
      hide MapOk, QueueOk, KernelOk, IdsOk, Valid;
      HandOver(op, sqeCount);
      Register(op);
      OthersUntouched(op);
      assert CountOk(op) <==> op !in queued;
      OneMore(op);
    }

    lemma OneMore(op: IoOperation)
      requires RegistryOk() && OthersOk(op) && op in accepted
      ensures Valid() <==> CountOk(op) && ReportOk(op)
    {
      hide RegistryOk, CountOk, ReportOk;
      assert Valid() ==> OpOk(op);
    }

    method HandOver(op: IoOperation, sqeCount: nat)
      requires RegistryOk() && op in accepted && IsUnregistered(op) && sqeCount > 0
      modifies this`kernel, op`pendingCqes
      ensures RegistryOk() && kernel == old(kernel) + Requests(op, sqeCount)
      ensures Outstanding(op) == op.pendingCqes == sqeCount
      ensures forall o :: o in accepted && o != op ==> Outstanding(o) == old(Outstanding(o))
    {
      RequestsOfOthers(op, sqeCount);
      kernel := kernel + Requests(op, sqeCount);
      var armed := op.Arm(sqeCount);
    }

    method Register(op: IoOperation)
      requires RegistryOk() && op in accepted && op.id !in inFlight
      modifies this`inFlight, this`inFlightCount
      ensures RegistryOk() && IsInFlight(op) && inFlight == old(inFlight)[op.id := op]
      ensures forall o :: o in accepted && o != op ==> IsInFlight(o) == old(IsInFlight(o))
    {
      inFlight := inFlight[op.id := op];
      inFlightCount := inFlightCount + 1;
    }

    /** No accepted operation has the id of this one, or it is the id of one in flight. */
    ghost predicate HasOwnId(op: IoOperation)
      reads this`accepted, this`inFlight
    {
      op.id in inFlight || forall o :: o in accepted ==> o.id != op.id
    }

    ghost predicate OthersOk(op: IoOperation)
      reads this`inFlight, this`kernel, this`queued, this`accepted, accepted
    {
      forall o :: o in accepted && o != op ==> OpOk(o)
    }

    /** An operation that a step did not touch is as well as before. */
    twostate lemma Untouched(o: IoOperation)
      requires old(OpOk(o)) && unchanged(o)
      requires old(IsInFlight(o)) == IsInFlight(o) && old(o in queued) == (o in queued)
      requires old(Outstanding(o)) == Outstanding(o)
      ensures OpOk(o)
    {
    }

    /** A step about one operation leaves every other accepted one as well as before. */
    twostate lemma OthersUntouched(op: IoOperation)
      requires forall o :: o in old(accepted) && o != op ==> old(OpOk(o))
      requires forall o :: o in old(accepted) && o != op ==> unchanged(o)
      requires forall o :: o in old(accepted) && o != op ==>
        old(IsInFlight(o)) == IsInFlight(o) && old(o in queued) == (o in queued)
      requires forall o :: o in old(accepted) && o != op ==> old(Outstanding(o)) == Outstanding(o)
      ensures forall o :: o in old(accepted) && o != op ==> OpOk(o)
    {
      forall o | o in old(accepted) && o != op ensures OpOk(o) {
        Untouched(o);
      }
    }

    /** Gives an operation its error without telling anyone: the caller is told by the disposition. That
    is wrong exactly for an operation that was accepted and has no result yet: it waits for good then. */
    method Refuse(op: IoOperation?, error: Error) returns (d: Disposition)
      requires Valid()
      modifies (if op == null then {} else {op})`result, (if op == null then {} else {op})`externallyCompleted
      ensures d == Rejected(error) && (Valid() <==> old(KeepsOrder(op, d)))
      ensures op != null ==> op.externallyCompleted
      ensures op != null ==> op.result == if old(op.externallyCompleted) then old(op.result) else Failure(error)
    {
      hide RegistryOk;
      d := Rejected(error);
      if op == null {
        return;
      }
      assert op in accepted ==> OpOk(op);
      op.Reject(error);
      if op in accepted && !old(op.externallyCompleted) {
        assert !ReportOk(op);
      } else {
        forall o | o in accepted ensures OpOk(o) {
          Untouched(o);
        }
      }
    }

    /** When a submission with this outcome leaves everything in order: a refused one unless it was
    accepted before and waits for its result; another one unless it is in the queue already, or its
    result or cancel request is there and nobody was told. */
    ghost predicate KeepsOrder(op: IoOperation?, d: Disposition)
      reads this`accepted, this`queued, if op == null then {} else {op}
    {
      if d.Rejected? then op == null || op !in accepted || op.externallyCompleted
      else op != null && op !in queued && ReportOk(op) && (d.Queued? ==> op.externallyCompleted || !op.cancelRequested)
    }

    method SubmitNow(op: IoOperation, sqeCount: nat)
      requires Valid() && MayEnter(op) && sqeCount > 0
      modifies this`inFlight, this`inFlightCount, this`kernel, this`accepted, this`owner, op`pendingCqes
      ensures accepted == old(accepted) + {op} && (Valid() <==> old(KeepsOrder(op, Submitted)))
      ensures inFlight == old(inFlight)[op.id := op]
      ensures kernel == old(kernel) + Requests(op, sqeCount)
    {
      hide RegistryOk, OpsOk, OthersOk, IsUnregistered, MayEnter;
      Admit(op);
      PrepareSubmission(op, sqeCount);
    }

    /** An operation that is not registered: a new one with an id of its own, or one that was accepted
    before and is queued or has finished. */
    ghost predicate MayEnter(op: IoOperation)
      reads this`accepted, this`inFlight, op
    {
      op.id !in inFlight && (op in accepted || (op.pendingCqes == 0 && HasOwnId(op)))
    }

    method Admit(op: IoOperation)
      requires Valid() && MayEnter(op)
      modifies this`accepted, this`owner
      ensures RegistryOk() && OthersOk(op) && op in accepted && IsUnregistered(op) && accepted == old(accepted) + {op}
    {
      if op in accepted {
        assert OpOk(op);
      } else {
        AdmitNew(op);
      }
    }

    method AdmitNew(op: IoOperation)
      requires Valid() && MayEnter(op) && op !in accepted
      modifies this`accepted, this`owner
      ensures RegistryOk() && OthersOk(op) && IsUnregistered(op) && accepted == old(accepted) + {op}
    {
      hide MapOk, QueueOk, KernelOk, IdsOk, OpOk;
      NoRequestsOf(op);
      accepted, owner := accepted + {op}, owner[op.id := op];
      StillRegistered();
      HasItsId(op);
      OthersUntouched(op);
    }

    twostate lemma StillRegistered()
      requires old(MapOk() && QueueOk() && KernelOk()) && old(accepted) <= accepted
      requires unchanged(`inFlight) && unchanged(`inFlightCount) && unchanged(`kernel)
      requires unchanged(`pendingSubmissions) && unchanged(`queued)
      ensures MapOk() && QueueOk() && KernelOk()
    {
      hide QueuedOps, DistinctIds;
    }

    twostate lemma HasItsId(op: IoOperation)
      requires old(IdsOk()) && forall o :: o in old(accepted) ==> o.id != op.id
      requires accepted == old(accepted) + {op} && owner == old(owner)[op.id := op] && unchanged(`retries)
      ensures IdsOk()
    {
    }

    lemma NoRequestsOf(op: IoOperation)
      requires KernelOk() && op !in accepted
      ensures Outstanding(op) == 0
    {
      forall kind ensures Token(op, kind) !in kernel {
      }
    }

    /** What is true of an operation that the loop never accepted, and of one that it did. */
    lemma NotHeld(op: IoOperation)
      requires Valid() && op !in accepted && forall o :: o in accepted ==> o.id != op.id
      ensures Outstanding(op) == 0 && op.id !in inFlight && op !in queued
    {
      NoRequestsOf(op);
    }

    lemma Held(op: IoOperation)
      requires Valid() && op in accepted
      ensures CountOk(op) && ReportOk(op)
    {
      assert OpOk(op);
    }

    method Enqueue(op: IoOperation, sqeCount: nat)
      requires Valid() && MayEnter(op) && sqeCount > 0
      modifies this`pendingSubmissions, this`queued, this`accepted, this`owner
      ensures accepted == old(accepted) + {op} && (Valid() <==> old(KeepsOrder(op, Queued)))
      ensures pendingSubmissions == old(pendingSubmissions) + [PendingSubmission(op, sqeCount)]
    {
      hide RegistryOk, OpsOk, OthersOk, IsUnregistered, MayEnter;
      Admit(op);
      Append(op, sqeCount);
    }

    method Append(op: IoOperation, sqeCount: nat)
      requires RegistryOk() && OthersOk(op) && op in accepted && IsUnregistered(op) && sqeCount > 0
      modifies this`pendingSubmissions, this`queued
      ensures Valid() <==> op !in old(queued) && ReportOk(op) && (op.externallyCompleted || !op.cancelRequested)
      ensures pendingSubmissions == old(pendingSubmissions) + [PendingSubmission(op, sqeCount)]
    {
      hide MapOk, KernelOk, IdsOk;
      ghost var before := pendingSubmissions;
      if op !in queued {
        OtherIds(op);
        AppendedToQueue(pendingSubmissions, PendingSubmission(op, sqeCount));
      } else {
        TwiceInQueue(pendingSubmissions, PendingSubmission(op, sqeCount));
      }
      pendingSubmissions := pendingSubmissions + [PendingSubmission(op, sqeCount)];
      queued := queued + {op};
      OthersUntouched(op);
      if op !in old(queued) {
        OneMore(op);
      }
      assert CountOk(op) <==> (op.externallyCompleted || !op.cancelRequested);
    }

    lemma OtherIds(op: IoOperation)
      requires QueueOk() && IdsOk() && op in accepted && op !in queued
      ensures forall p :: p in pendingSubmissions ==> p.op.id != op.id
    {
      forall p | p in pendingSubmissions ensures p.op.id != op.id {
        assert p.op in queued;
      }
    }

    /** What becomes of a submission, by the order of the checks. */
    function Decide(op: IoOperation?, sqeCount: nat, inLoopThread: bool, prepared: bool, space: nat): Disposition
      reads this
    {
      if !inLoopThread then Rejected(Error(System, EPERM))
      else if op == null || sqeCount == 0 || !prepared then Rejected(Error(System, EINVAL))
      else if stoppingRequested then Rejected(Error(Cancelled, ECANCELED))
      else if op.id in inFlight then Rejected(Error(System, EALREADY))
      else if space >= sqeCount then Submitted
      else if |pendingSubmissions| < pendingSubmissionCapacity then Queued
      else Rejected(Error(ResourceExhausted, EAGAIN))
    }

    /** The same in plain terms: when a submission is handed over, when it waits, and with which error of the
    kernel's numbers it is refused. */
    lemma WhatIsDecided(op: IoOperation?, sqeCount: nat, inLoopThread: bool, prepared: bool, space: nat)
      ensures var d := Decide(op, sqeCount, inLoopThread, prepared, space);
        var fit := inLoopThread && op != null && sqeCount > 0 && prepared && !stoppingRequested && op.id !in inFlight;
        && (d.Submitted? <==> fit && sqeCount <= space)
        && (d.Queued? <==> fit && sqeCount > space && |pendingSubmissions| < pendingSubmissionCapacity)
        && (d == Rejected(Error(System, 1)) <==> !inLoopThread)
        && (d == Rejected(Error(ResourceExhausted, 11)) <==>
              fit && sqeCount > space && |pendingSubmissions| >= pendingSubmissionCapacity)
        && (d == Rejected(Error(Cancelled, 125)) <==>
              inLoopThread && op != null && sqeCount > 0 && prepared && stoppingRequested)
        && (d == Rejected(Error(System, 114)) <==>
              inLoopThread && op != null && sqeCount > 0 && prepared && !stoppingRequested && op.id in inFlight)
        && (d == Rejected(Error(System, 22)) <==> inLoopThread && (op == null || sqeCount == 0 || !prepared))
    {
    }

    /** What a submission may change: nothing once the loop is stopping. */
    ghost function Live(): set<OperationLoop>
      reads this`stoppingRequested
    {
      if stoppingRequested then {} else {this}
    }

    /** A submission of a new operation, of none, or of one that was accepted before, whatever became of
    it. It leaves everything in order exactly when `KeepsOrder` says so. */
    method SubmitOperation(op: IoOperation?, sqeCount: nat, inLoopThread: bool, prepared: bool, space: nat)
      returns (d: Disposition)
      requires Valid()
      requires op != null && op !in accepted ==> op.pendingCqes == 0 && (stoppingRequested || HasOwnId(op))
      modifies Live()`inFlight, Live()`inFlightCount, Live()`kernel, Live()`pendingSubmissions, Live()`queued
      modifies Live()`accepted, Live()`owner
      modifies (if op == null then {} else {op})`pendingCqes, (if op == null then {} else {op})`result
      modifies (if op == null then {} else {op})`externallyCompleted
      ensures d == old(Decide(op, sqeCount, inLoopThread, prepared, space))
      ensures Valid() <==> old(KeepsOrder(op, Decide(op, sqeCount, inLoopThread, prepared, space)))
      ensures d.Rejected? ==> unchanged(this)
      ensures d.Rejected? && op != null ==> op.externallyCompleted && op.pendingCqes == old(op.pendingCqes)
      ensures d.Rejected? && op != null ==>
        op.result == if old(op.externallyCompleted) then old(op.result) else Failure(d.error)
      ensures !d.Rejected? ==> op != null && accepted == old(accepted) + {op}
      ensures !d.Rejected? ==> op.result == old(op.result) && op.externallyCompleted == old(op.externallyCompleted)
      ensures d.Submitted? ==> inFlight == old(inFlight)[op.id := op] && kernel == old(kernel) + Requests(op, sqeCount)
      ensures d.Submitted? ==> pendingSubmissions == old(pendingSubmissions)
      ensures d.Submitted? ==>
        kernel[Token(op, Io)] == old(kernel[Token(op, Io)]) + if sqeCount > 1 then sqeCount - 1 else 1
      ensures d.Submitted? ==>
        kernel[Token(op, Timeout)] == old(kernel[Token(op, Timeout)]) + if sqeCount > 1 then 1 else 0
      ensures d.Submitted? ==> kernel[Token(op, CancelRequest)] == old(kernel[Token(op, CancelRequest)])
      ensures d.Queued? ==> kernel == old(kernel) && inFlight == old(inFlight)
      ensures d.Queued? ==> pendingSubmissions == old(pendingSubmissions) + [PendingSubmission(op, sqeCount)]
    {
      hide RegistryOk, OpsOk, HasOwnId, KeepsOrder;
      if !inLoopThread {
        d := Refuse(op, Error(System, EPERM));
      } else if op == null || sqeCount == 0 || !prepared {
        d := Refuse(op, Error(System, EINVAL));
      } else if stoppingRequested {
        d := Refuse(op, Error(Cancelled, ECANCELED));
      } else if op.id in inFlight {
        d := Refuse(op, Error(System, EALREADY));
      } else {
        d := Place(op, sqeCount, space);
      }
    }

    /** Submits or queues an operation that passed the checks, or refuses it for lack of room. */
    method Place(op: IoOperation, sqeCount: nat, space: nat) returns (d: Disposition)
      requires Valid() && MayEnter(op) && sqeCount > 0
      modifies this`inFlight, this`inFlightCount, this`kernel, this`pendingSubmissions, this`queued
      modifies this`accepted, this`owner, op`pendingCqes, op`result, op`externallyCompleted
      ensures d == if space >= sqeCount then Submitted
        else if |old(pendingSubmissions)| < pendingSubmissionCapacity then Queued
        else Rejected(Error(ResourceExhausted, EAGAIN))
      ensures d.Submitted? ==> (Valid() <==> old(KeepsOrder(op, Submitted)))
      ensures d.Queued? ==> (Valid() <==> old(KeepsOrder(op, Queued)))
      ensures d.Rejected? ==> (Valid() <==> old(KeepsOrder(op, Rejected(Error(ResourceExhausted, EAGAIN)))))
      ensures d.Rejected? ==> unchanged(this) && unchanged(op`pendingCqes) && op.externallyCompleted
      ensures d.Rejected? ==> op.result == if old(op.externallyCompleted) then old(op.result) else Failure(d.error)
      ensures !d.Rejected? ==> accepted == old(accepted) + {op}
      ensures !d.Rejected? ==> op.result == old(op.result) && op.externallyCompleted == old(op.externallyCompleted)
      ensures d.Submitted? ==> inFlight == old(inFlight)[op.id := op] && kernel == old(kernel) + Requests(op, sqeCount)
      ensures d.Submitted? ==> pendingSubmissions == old(pendingSubmissions)
      ensures d.Queued? ==> kernel == old(kernel) && inFlight == old(inFlight)
      ensures d.Queued? ==> pendingSubmissions == old(pendingSubmissions) + [PendingSubmission(op, sqeCount)]
    {
      hide RegistryOk, OpsOk, MayEnter, KeepsOrder;
      if space >= sqeCount {
        SubmitNow(op, sqeCount);
        d := Submitted;
      } else if |pendingSubmissions| < pendingSubmissionCapacity {
        Enqueue(op, sqeCount);
        d := Queued;
      } else {
        d := Refuse(op, Error(ResourceExhausted, EAGAIN));
      }
    }

    /** Submits queued operations, oldest first, while the front one fits: `flushed` of them. */
    method FlushPendingSubmissions(space: nat) returns (ghost flushed: nat)
      requires Valid()
      modifies this`inFlight, this`inFlightCount, this`kernel, this`pendingSubmissions, this`queued
      modifies accepted`pendingCqes
      ensures Valid() && flushed <= |old(pendingSubmissions)|
      ensures pendingSubmissions == old(pendingSubmissions)[flushed..]
      ensures kernel == old(kernel) + AllRequests(old(pendingSubmissions)[..flushed])
      ensures |kernel| - |old(kernel)| <= space
      ensures pendingSubmissions != [] ==> pendingSubmissions[0].sqeCount > space - (|kernel| - |old(kernel)|)
    {
      hide RegistryOk, OpsOk, AllRequests, Requests;
      var left: nat := space;
      flushed := 0;
      ghost var queue := pendingSubmissions;
      QueuedEntries();
      NoRequests(queue);
      while pendingSubmissions != [] && left >= pendingSubmissions[0].sqeCount
        invariant Valid() && accepted == old(accepted)
        invariant flushed <= |queue| && pendingSubmissions == queue[flushed..]
        invariant left == space - (|kernel| - |old(kernel)|)
        invariant kernel == old(kernel) + AllRequests(queue[..flushed])
        decreases |pendingSubmissions|
      {
        var sqeCount := pendingSubmissions[0].sqeCount;
        assert pendingSubmissions[0] == queue[flushed];
        MoreRequests(queue, flushed);
        SubmitFront();
        left := left - sqeCount;
        flushed := flushed + 1;
      }
    }

    lemma QueuedEntries()
      requires Valid()
      ensures forall p :: p in pendingSubmissions ==> p.sqeCount > 0 && p.op in accepted
    {
      forall p | p in pendingSubmissions ensures p.op in accepted {
        assert p.op in queued;
      }
    }

    /** Takes an entry out of the queue; its operation is then in no one's hands. */
    method TakeQueued(index: nat) returns (entry: PendingSubmission)
      requires Valid() && index < |pendingSubmissions|
      modifies this`pendingSubmissions, this`queued
      ensures RegistryOk() && entry == old(pendingSubmissions)[index]
      ensures pendingSubmissions == Without(old(pendingSubmissions), index)
      ensures queued == old(queued) - {entry.op}
      ensures entry.op in accepted && entry.sqeCount > 0
      ensures IsUnclaimed(entry.op) && OthersOk(entry.op)
      ensures entry.op.externallyCompleted || !entry.op.cancelRequested
    {
      hide MapOk, KernelOk, IdsOk, Without, OpOk, DistinctIds;
      entry := pendingSubmissions[index];
      QueuedIsUnclaimed(entry);
      RemovedFromQueue(pendingSubmissions, index);
      pendingSubmissions := Without(pendingSubmissions, index);
      queued := queued - {entry.op};
      OthersUntouched(entry.op);
    }

    /** A queued operation is in no one else's hands. */
    lemma QueuedIsUnclaimed(entry: PendingSubmission)
      requires Valid() && entry in pendingSubmissions
      ensures entry.op in accepted && entry.op in queued && entry.sqeCount > 0
      ensures var op := entry.op;
        IsUnregistered(op) && ReportOk(op) && (op.externallyCompleted || !op.cancelRequested)
    {
      assert OpOk(entry.op);
    }

    method SubmitFront()
      requires Valid() && pendingSubmissions != []
      modifies this`inFlight, this`inFlightCount, this`kernel, this`pendingSubmissions, this`queued
      modifies pendingSubmissions[0].op`pendingCqes
      ensures Valid()
      ensures pendingSubmissions == old(pendingSubmissions)[1..]
      ensures kernel == old(kernel) + Requests(old(pendingSubmissions[0].op), old(pendingSubmissions[0].sqeCount))
    {
      hide RegistryOk, OthersOk, OpsOk, IsUnregistered;
      FrontOfQueue();
      var ready := TakeQueued(0);
      PrepareSubmission(ready.op, ready.sqeCount);
    }

    lemma FrontOfQueue()
      requires pendingSubmissions != []
      ensures Without(pendingSubmissions, 0) == pendingSubmissions[1..]
    {
    }

    /** Asks the kernel to cancel the operation's I/O request, if an entry is free. */
    method SubmitCancel(op: IoOperation, space: nat) returns (ok: bool)
      requires Valid() && op in accepted && IsInFlight(op)
      modifies this`kernel, op`pendingCqes
      ensures Valid() && ok == (space > 0)
      ensures kernel == if ok then old(kernel) + multiset{Token(op, CancelRequest)} else old(kernel)
    {
      hide MapOk, QueueOk, KernelOk, IdsOk;
      if space == 0 {
        return false;
      }
      assert OpOk(op);
      AddCancelRequest(op);
      op.AddExpectedCqe();
      OthersUntouched(op);
      assert OpOk(op);
      return true;
    }

    method AddCancelRequest(op: IoOperation)
      requires KernelOk() && op in accepted
      modifies this`kernel
      ensures KernelOk() && kernel == old(kernel) + multiset{Token(op, CancelRequest)}
      ensures Outstanding(op) == old(Outstanding(op)) + 1
      ensures forall o :: o in accepted && o != op ==> Outstanding(o) == old(Outstanding(o))
    {
      kernel := kernel + multiset{Token(op, CancelRequest)};
    }

    /** What an operation is told that leaves the queue with this result: nothing if it had one. */
    ghost function ToldAtLast(before: Option<IoResult>, r: IoResult): Option<IoResult> {
      if before.Some? then before else Some(r)
    }

    /** An operation leaves the queue without ever reaching the kernel. */
    method FinishRejectedAt(index: nat, error: Error)
      requires Valid() && index < |pendingSubmissions|
      modifies this`pendingSubmissions, this`queued, pendingSubmissions[index].op
      ensures Valid() && pendingSubmissions == Without(old(pendingSubmissions), index)
      ensures queued == old(queued) - {old(pendingSubmissions[index].op)}
      ensures var op := old(pendingSubmissions[index].op); op.told == ToldAtLast(old(op.told), Failure(error))
    {
      var entry := TakeQueued(index);
      FinishRejected(entry.op, error);
    }

    /** Gives an operation its error and tells whoever waits. */
    method FinishRejected(op: IoOperation, error: Error)
      requires RegistryOk() && OthersOk(op) && IsUnclaimed(op)
      modifies op`result, op`externallyCompleted, op`waiting, op`resumptions, op`told
      ensures Valid() && op.told == ToldAtLast(old(op.told), Failure(error))
    {
      op.Reject(error);
      op.ResumeContinuation();
      OthersUntouched(op);
      assert OpOk(op);
    }

    /** The kernel completes a request. */
    method TakeCompletion(t: Token)
      requires RegistryOk() && OthersOk(t.op) && t in kernel
      modifies this`kernel
      ensures RegistryOk() && OthersOk(t.op) && kernel == old(kernel) - multiset{t}
      ensures Outstanding(t.op) == old(Outstanding(t.op)) - 1
    {
      hide MapOk, QueueOk, IdsOk, OpOk;
      TokenKinds(t);
      kernel := kernel - multiset{t};
      OthersUntouched(t.op);
    }

    method Erase(op: IoOperation)
      requires RegistryOk() && OthersOk(op) && op in accepted && IsInFlight(op)
      modifies this`inFlight, this`inFlightCount
      ensures RegistryOk() && OthersOk(op) && !IsInFlight(op) && inFlight == old(inFlight) - {op.id}
    {
      hide QueueOk, KernelOk, IdsOk, OpOk;
      Unregister(op);
      OthersUntouched(op);
    }

    method Unregister(op: IoOperation)
      requires MapOk() && IsInFlight(op)
      modifies this`inFlight, this`inFlightCount
      ensures MapOk() && inFlight == old(inFlight) - {op.id} && !IsInFlight(op)
      ensures forall o :: o in accepted && o != op ==> IsInFlight(o) == old(IsInFlight(o))
    {
      OneFewer(inFlight, op.id);
      inFlight := inFlight - {op.id};
      inFlightCount := inFlightCount - 1;
    }

    /** A completion arrives. Its operation is always registered; it is erased exactly when no other
    request of it is outstanding, and resumed exactly when this completion decided its result. */
    method HandleCompletion(t: Token, res: int) returns (resume: bool)
      requires Valid() && t in kernel
      modifies this`kernel, this`inFlight, this`inFlightCount, t.op
      ensures Valid() && old(IsInFlight(t.op)) && kernel == old(kernel) - multiset{t}
      ensures t.op.View() == Complete(old(t.op.View()), Cqe(t.kind, res))
      ensures resume == (!old(t.op.externallyCompleted) && t.op.externallyCompleted)
      ensures inFlight == if Outstanding(t.op) == 0 then old(inFlight) - {t.op.id} else old(inFlight)
      ensures t.op.told == if resume then Some(t.op.result) else old(t.op.told)
      ensures !old(t.op.externallyCompleted) && t.kind.Io? && res > 0 ==> t.op.told == Some(Success(res))
    {
      hide MapOk, QueueOk, IdsOk, OthersOk;
      TokenKinds(t);
      assert OpOk(t.op);
      var d := SettleToken(t, res);
      resume := d.resume;
      Report(t.op, resume);
    }

    /** Settled but for the report: the result is there and nobody was told. */
    ghost predicate MustTell(op: IoOperation)
      reads op
    {
      op.externallyCompleted && op.waiting && op.resumptions == 0
    }

    /** Resumes whoever waits for the operation when its result was just decided. */
    method Report(op: IoOperation, resume: bool)
      requires RegistryOk() && OthersOk(op) && CountOk(op)
      requires if resume then MustTell(op) else ReportOk(op)
      modifies op`waiting, op`resumptions, op`told
      ensures Valid() && op.View() == old(op.View())
      ensures op.told == if resume then Some(op.result) else old(op.told)
    {
      if resume {
        op.ResumeContinuation();
        OthersUntouched(op);
      }
      assert OpOk(op);
    }

    method SettleToken(t: Token, res: int) returns (d: Decision)
      requires Valid() && t in kernel && OpOk(t.op) && Outstanding(t.op) > 0
      modifies this`kernel, this`inFlight, this`inFlightCount
      modifies t.op`pendingCqes, t.op`result, t.op`externallyCompleted
      ensures RegistryOk() && kernel == old(kernel) - multiset{t}
      ensures OthersOk(t.op)
      ensures t.op.View() == Complete(old(t.op.View()), Cqe(t.kind, res))
      ensures d.resume == (!old(t.op.externallyCompleted) && t.op.externallyCompleted)
      ensures CountOk(t.op)
      ensures if d.resume then MustTell(t.op) else ReportOk(t.op)
      ensures inFlight == if t.op.pendingCqes == 0 then old(inFlight) - {t.op.id} else old(inFlight)
    {
      hide QueueOk, KernelOk, IdsOk, ReportOk;
      TakeCompletion(t);
      if t.op.id !in inFlight {
        // The branch that logs a completion of an unknown operation.
        assert false;
      }
      d := Settle(t.op, Cqe(t.kind, res));
    }

    /** Counts a completion and erases the operation when it was the last one. */
    method Settle(op: IoOperation, c: Cqe) returns (d: Decision)
      requires RegistryOk() && OthersOk(op) && op in accepted && IsInFlight(op)
      requires op.pendingCqes == Outstanding(op) + 1 && op !in queued && ReportOk(op)
      modifies this`inFlight, this`inFlightCount
      modifies op`pendingCqes, op`result, op`externallyCompleted
      ensures RegistryOk() && OthersOk(op) && CountOk(op)
      ensures op.View() == Complete(old(op.View()), c)
      ensures d.resume == (!old(op.externallyCompleted) && op.externallyCompleted)
      ensures if d.resume then MustTell(op) else ReportOk(op)
      ensures inFlight == if op.pendingCqes == 0 then old(inFlight) - {op.id} else old(inFlight)
    {
      hide RegistryOk, OpOk;
      d := op.OnCompletion(c);
      OthersUntouched(op);
      if d.drained {
        Erase(op);
      }
    }

    // ---------- Cancellation ----------

    method FindQueued(op: IoOperation) returns (index: nat)
      ensures index <= |pendingSubmissions|
      ensures index < |pendingSubmissions| ==> pendingSubmissions[index].op == op
      ensures index == |pendingSubmissions| ==> forall p :: p in pendingSubmissions ==> p.op != op
    {
      index := 0;
      while index < |pendingSubmissions| && pendingSubmissions[index].op != op
        invariant index <= |pendingSubmissions|
        invariant forall k :: 0 <= k < index ==> pendingSubmissions[k].op != op
      {
        index := index + 1;
      }
    }

    /** Marks an operation that is not queued as cancelled, if it has no result yet. */
    method MarkCancelled(op: IoOperation) returns (ok: bool)
      requires Valid() && op !in queued
      modifies op`cancelRequested
      ensures Valid() && ok == (!op.externallyCompleted && !old(op.cancelRequested))
      ensures op.cancelRequested == (ok || old(op.cancelRequested))
    {
      ok := op.RequestCancel();
      OthersUntouched(op);
      assert op in accepted ==> OpOk(op);
    }

    /** Hands a cancel request to the kernel, or leaves it for a later turn of the loop. */
    method CancelOrRetry(op: IoOperation, space: nat)
      requires Valid() && op in accepted && IsInFlight(op)
      modifies this`kernel, this`retries, op`pendingCqes
      ensures Valid()
      ensures kernel == if space > 0 then old(kernel) + multiset{Token(op, CancelRequest)} else old(kernel)
      ensures retries == if space > 0 || stoppingRequested then old(retries) else old(retries) + [op]
    {
      hide MapOk, QueueOk, KernelOk;
      var submitted := SubmitCancel(op, space);
      // A loop that is stopping takes no more control callbacks; its drain sends the cancel request.
      if !submitted && !stoppingRequested {
        retries := retries + [op];
      }
    }

    /** Cancels an operation that is still queued, which never reaches the kernel. */
    method CancelQueued(op: IoOperation, index: nat)
      requires Valid() && index < |pendingSubmissions| && pendingSubmissions[index].op == op
      requires !op.externallyCompleted && !op.cancelRequested
      modifies this`pendingSubmissions, this`queued, op
      ensures Valid() && pendingSubmissions == Without(old(pendingSubmissions), index) && queued == old(queued) - {op}
      ensures op.cancelRequested && op.told == Some(CANCELLED)
    {
      hide RegistryOk, OthersOk, OpsOk;
      var _ := TakeQueued(index);
      MarkTaken(op);
      FinishRejected(op, Error(Cancelled, ECANCELED));
    }

    method MarkTaken(op: IoOperation)
      requires RegistryOk() && OthersOk(op) && IsUnclaimed(op)
      requires !op.externallyCompleted && !op.cancelRequested
      modifies op`cancelRequested
      ensures RegistryOk() && OthersOk(op) && IsUnclaimed(op) && op.cancelRequested
    {
      var marked := op.RequestCancel();
      if !marked {
        assert false;
      }
      OthersUntouched(op);
    }

    /** What finding an operation in the queue, or not, says about it. */
    lemma InQueue(op: IoOperation, index: nat)
      requires Valid() && index <= |pendingSubmissions|
      requires index < |pendingSubmissions| ==> pendingSubmissions[index].op == op
      requires index == |pendingSubmissions| ==> forall p :: p in pendingSubmissions ==> p.op != op
      ensures op in queued <==> index < |pendingSubmissions|
      ensures op in queued ==> op.externallyCompleted || !op.cancelRequested
    {
      if index < |pendingSubmissions| {
        assert pendingSubmissions[index] in pendingSubmissions && OpOk(op);
      }
    }

    /** Cancelling an operation a second time, or one with a result, or one the loop does not hold
    changes nothing. Otherwise a queued operation is told at once, and one in flight gets a cancel
    request, now or in a later turn. */
    method CancelOperation(op: IoOperation, inLoopThread: bool, space: nat) returns (ok: bool)
      requires Valid() && forall o :: o in accepted && o.id == op.id ==> o == op
      modifies this`pendingSubmissions, this`queued, this`kernel, this`retries, op
      ensures Valid()
      ensures ok == (inLoopThread && !old(op.cancelRequested) && !old(op.externallyCompleted)
                     && (op in old(queued) || old(IsInFlight(op))))
      ensures !ok ==> unchanged(this) && unchanged(op)
      ensures ok ==> op.cancelRequested
      ensures ok && op in old(queued) ==> kernel == old(kernel) && retries == old(retries) && op.told == Some(CANCELLED)
      ensures ok && op in old(queued) ==> queued == old(queued) - {op}
      ensures ok && op in old(queued) ==> |pendingSubmissions| < |old(pendingSubmissions)|
      ensures ok && op !in old(queued) ==> pendingSubmissions == old(pendingSubmissions) && queued == old(queued)
      ensures ok && op !in old(queued) ==> op.told == old(op.told)
      ensures ok && op !in old(queued) && space > 0 ==> kernel == old(kernel) + multiset{Token(op, CancelRequest)}
      ensures ok && op !in old(queued) && space == 0 ==> kernel == old(kernel)
      ensures ok && op !in old(queued) ==>
        retries == if space > 0 || stoppingRequested then old(retries) else old(retries) + [op]
    {
      hide RegistryOk, OpsOk;
      if !inLoopThread {
        return false;
      }
      var index := FindQueued(op);
      InQueue(op, index);
      if index < |pendingSubmissions| {
        if op.externallyCompleted || op.cancelRequested {
          return false;
        }
        CancelQueued(op, index);
        return true;
      }
      ok := CancelInFlight(op, space);
    }

    method CancelInFlight(op: IoOperation, space: nat) returns (ok: bool)
      requires Valid() && forall o :: o in accepted && o.id == op.id ==> o == op && op !in queued
      modifies this`kernel, this`retries, op`cancelRequested, op`pendingCqes
      ensures Valid()
      ensures ok == (!old(op.cancelRequested) && !op.externallyCompleted && IsInFlight(op))
      ensures !ok ==> unchanged(this) && unchanged(op)
      ensures ok ==> op.cancelRequested
      ensures ok ==> kernel == if space > 0 then old(kernel) + multiset{Token(op, CancelRequest)} else old(kernel)
      ensures ok ==> retries == if space > 0 || stoppingRequested then old(retries) else old(retries) + [op]
    {
      hide QueueOk, KernelOk;
      if op.id !in inFlight {
        return false;
      }
      ok := MarkCancelled(op);
      if ok {
        CancelOrRetry(op, space);
      }
    }

    /** The control callback that tries again to hand over a cancel request. */
    method RetryCancel(op: IoOperation, space: nat)
      requires Valid() && retries != [] && retries[0] == op
      modifies this`kernel, this`retries, op`pendingCqes
      ensures Valid() && (!old(IsInFlight(op)) || space == 0 ==> kernel == old(kernel))
      ensures old(IsInFlight(op)) && space > 0 ==> kernel == old(kernel) + multiset{Token(op, CancelRequest)}
      ensures retries == old(retries)[1..] +
        if old(IsInFlight(op)) && space == 0 && !stoppingRequested then [op] else []
    {
      var _ := TakeRetry();
      if op.id !in inFlight {
        return;
      }
      CancelOrRetry(op, space);
    }

    method TakeRetry() returns (op: IoOperation)
      requires Valid() && retries != []
      modifies this`retries
      ensures Valid() && op in accepted && (op.id in inFlight <==> IsInFlight(op))
      ensures op == old(retries[0]) && retries == old(retries)[1..]
    {
      op := retries[0];
      retries := retries[1..];
    }

    // ---------- Draining at shutdown ----------

    /** From now on every submission is refused. */
    method BeginStopping()
      requires Valid()
      modifies this`stoppingRequested
      ensures Valid() && stoppingRequested
    {
      hide OpsOk, RegistryOk;
      stoppingRequested := true;
    }

    /** Operations left the queue as cancelled, and nobody else was told anything. */
    twostate predicate OnlyCancelledOnes()
      reads this`queued, this`accepted, accepted
    {
      && queued <= old(queued) && accepted == old(accepted)
      && (forall o :: o in old(queued) && o in accepted && o !in queued ==>
            o.told == ToldAtLast(old(o.told), CANCELLED))
      && (forall o :: o in accepted && o !in old(queued) ==> o.told == old(o.told))
      && (forall o :: o in accepted && o in queued ==> o.told == old(o.told))
    }

    /** Everything in flight has its result or was asked to cancel. */
    ghost predicate AllAsked()
      reads this`inFlight, this`accepted, accepted
    {
      forall o :: o in accepted && IsInFlight(o) ==> o.cancelRequested || o.externallyCompleted
    }

    /** A resumed waiter submits a new operation, which is refused because the loop is stopping. */
    method SubmitLate()
      requires Valid() && stoppingRequested
      ensures Valid()
    {
      hide MapOk, QueueOk, IdsOk, OpsOk;
      var id: nat, sqeCount: nat, space: nat :| true;
      var kind: OperationType, linkedTimeout: bool, prepared: bool := *, *, *;
      var op := new IoOperation(id, kind, linkedTimeout);
      var _ := SubmitOperation(op, sqeCount, true, prepared, space);
    }

    /** A resumed waiter submits an operation again that has its result, which changes nothing. */
    method SubmitAgain(op: IoOperation)
      requires Valid() && stoppingRequested && op in accepted && op.externallyCompleted
      modifies op`pendingCqes, op`result, op`externallyCompleted
      ensures Valid() && unchanged(op)
    {
      hide RegistryOk, OpsOk;
      var sqeCount: nat, space: nat :| true;
      var prepared: bool := *;
      var _ := SubmitOperation(op, sqeCount, true, prepared, space);
    }

    /** A resumed waiter cancels an operation. When all are cancelled already, nothing happens. */
    method CancelLate(op: IoOperation)
      requires Valid() && stoppingRequested && op in accepted
      modifies this`pendingSubmissions, this`queued, this`kernel, this`retries, accepted
      ensures Valid() && OnlyCancelledOnes() && |pendingSubmissions| <= |old(pendingSubmissions)|
      ensures retries == old(retries)
      ensures old(AllAsked() && queued == {}) ==> unchanged(this) && forall o :: o in accepted ==> unchanged(o)
    {
      hide MapOk, QueueOk, KernelOk;
      var space: nat :| true;
      assert OpOk(op);
      var ok := CancelOperation(op, true, space);
    }

    /** What the code of a resumed waiter may do to a loop that is stopping, any number of times. */
    method RunWaiter()
      requires Valid() && stoppingRequested
      modifies this`pendingSubmissions, this`queued, this`kernel, this`retries, accepted
      ensures Valid() && OnlyCancelledOnes() && |pendingSubmissions| <= |old(pendingSubmissions)|
      ensures retries == old(retries)
      ensures old(AllAsked() && queued == {}) ==> unchanged(this) && forall o :: o in accepted ==> unchanged(o)
    {
      hide RegistryOk, OpsOk, AllAsked;
      var calls: nat :| true;
      while calls > 0
        invariant Valid() && OnlyCancelledOnes() && |pendingSubmissions| <= |old(pendingSubmissions)|
        invariant retries == old(retries)
        invariant old(AllAsked() && queued == {}) ==> unchanged(this) && forall o :: o in accepted ==> unchanged(o)
      {
        calls := calls - 1;
        var cancels: bool, resubmits: bool := *, *;
        if cancels && accepted != {} {
          var op :| op in accepted;
          CancelLate(op);
        } else if resubmits && exists op :: op in accepted && op.externallyCompleted {
          var op :| op in accepted && op.externallyCompleted;
          SubmitAgain(op);
        } else {
          SubmitLate();
        }
      }
    }

    lemma HeldAreAccepted()
      requires Valid()
      ensures forall id :: id in inFlight ==> inFlight[id] in accepted && IsInFlight(inFlight[id])
      ensures forall i :: 0 <= i < |pendingSubmissions| ==>
        pendingSubmissions[i].op in queued && pendingSubmissions[i].op in accepted
      ensures queued <= accepted
    {
      forall i | 0 <= i < |pendingSubmissions| ensures pendingSubmissions[i].op in queued {
        assert pendingSubmissions[i] in pendingSubmissions;
      }
    }

    /** Every queued operation is told that it was cancelled, and nobody else is told anything, whatever
    the resumed waiters do. */
    method RejectPending()
      requires Valid() && stoppingRequested
      modifies this`pendingSubmissions, this`queued, this`kernel, this`retries, accepted
      ensures Valid() && pendingSubmissions == [] && queued == {} && retries == old(retries)
      ensures OnlyCancelledOnes()
    {
      hide RegistryOk, OpsOk;
      while pendingSubmissions != []
        invariant Valid() && OnlyCancelledOnes() && retries == old(retries)
        decreases |pendingSubmissions|
      {
        HeldAreAccepted();
        FinishRejectedAt(0, Error(Cancelled, ECANCELED));
        RunWaiter();
      }
      NothingQueued();
    }

    lemma NothingQueued()
      requires Valid()
      ensures queued == {} <==> pendingSubmissions == []
    {
      if pendingSubmissions != [] {
        assert pendingSubmissions[0] in pendingSubmissions && pendingSubmissions[0].op in queued;
      }
    }

    method RequestCancels() returns (cancellations: seq<IoOperation>)
      requires Valid()
      modifies accepted`cancelRequested
      ensures Valid() && AllAsked()
      ensures forall o :: o in cancellations <==> IsInFlight(o)
      ensures forall o :: o in cancellations ==> o in accepted
    {
      hide RegistryOk, OpsOk;
      cancellations := [];
      var ids := inFlight.Keys;
      while ids != {}
        invariant Valid() && ids <= inFlight.Keys
        invariant forall o :: o in cancellations ==> IsInFlight(o) && o in accepted
        invariant forall id :: id in inFlight && id !in ids ==> inFlight[id] in cancellations
        invariant forall o :: o in cancellations ==> o.cancelRequested || o.externallyCompleted
        decreases |ids|
      {
        var id :| id in ids;
        HeldAreAccepted();
        var op := inFlight[id];
        RequestCancelOf(op);
        cancellations := cancellations + [op];
        ids := ids - {id};
      }
    }

    method RequestCancelOf(op: IoOperation)
      requires Valid() && op in accepted && IsInFlight(op)
      modifies op`cancelRequested
      ensures Valid() && (op.cancelRequested || op.externallyCompleted)
      ensures old(op.cancelRequested) ==> op.cancelRequested
    {
      assert OpOk(op);
      var _ := MarkCancelled(op);
    }

    /** Hands over the cancel requests that are still due and fit, skipping what has finished. */
    method SubmitCancels(cancellations: seq<IoOperation>, first: nat, space: nat) returns (next: nat)
      requires Draining() && first <= |cancellations| && forall o :: o in cancellations ==> o in accepted
      modifies this`kernel, accepted`pendingCqes
      ensures Draining() && first <= next <= |cancellations|
      ensures |kernel| - |old(kernel)| <= next - first && |kernel| - |old(kernel)| <= space
    {
      hide Valid, AllAsked;
      next := first;
      var left: nat := space;
      while next < |cancellations|
        invariant Draining() && first <= next <= |cancellations| && left <= space
        invariant |kernel| - |old(kernel)| <= next - first && |kernel| - |old(kernel)| == space - left
      {
        var done, used := SubmitDue(cancellations[next], left);
        if !done {
          break;
        }
        left := left - used;
        next := next + 1;
      }
    }

    lemma RegisteredIsInFlight(op: IoOperation)
      requires Valid() && op in accepted
      ensures op.id in inFlight <==> IsInFlight(op)
    {
    }

    /** Requests and completions counted make no difference to what was asked. */
    twostate lemma StillAsked()
      requires old(AllAsked()) && inFlight == old(inFlight) && accepted == old(accepted)
      requires forall o :: o in accepted ==> unchanged(o`cancelRequested) && unchanged(o`externallyCompleted)
      ensures AllAsked()
    {
    }

    /** Hands over one cancel request, unless the operation has finished or no entry is free. */
    method SubmitDue(op: IoOperation, space: nat) returns (done: bool, used: nat)
      requires Draining() && op in accepted
      modifies this`kernel, op`pendingCqes
      ensures Draining() && used <= space && |kernel| == |old(kernel)| + used
      ensures used == if IsInFlight(op) && done then 1 else 0
      ensures done <==> !IsInFlight(op) || space > 0
    {
      hide RegistryOk, OpsOk, AllAsked;
      RegisteredIsInFlight(op);
      if op.id !in inFlight {
        return true, 0;
      }
      var submitted := SubmitCancel(op, space);
      StillAsked();
      return submitted, if submitted then 1 else 0;
    }

    lemma InFlightHasTokens(id: nat)
      requires Valid() && id in inFlight
      ensures |kernel| > 0
    {
      var op := inFlight[id];
      assert OpOk(op);
      var t := if kernel[Token(op, Io)] > 0 then Token(op, Io)
               else if kernel[Token(op, Timeout)] > 0 then Token(op, Timeout) else Token(op, CancelRequest);
      assert t in kernel;
    }

    lemma NothingLeft()
      requires Valid() && inFlight == map[] && queued == {}
      ensures kernel == multiset{} && inFlightCount == 0 && pendingSubmissions == []
      ensures forall o :: o in accepted ==> o.resumptions == 1 && o.told == Some(o.result)
    {
      NothingQueued();
      forall o | o in accepted ensures o.resumptions == 1 && o.told == Some(o.result) {
        assert OpOk(o);
      }
      forall t | t in kernel ensures false {
        assert OpOk(t.op);
        TokenKinds(t);
      }
    }

    /** Whoever was told before is told nothing else. */
    twostate predicate StillTold()
      reads this`accepted, accepted
    {
      accepted == old(accepted) && forall o :: o in accepted && old(o.told).Some? ==> o.told == old(o.told)
    }

    /** Nothing is queued, and everything in flight was asked to cancel or has its result. */
    ghost predicate Draining()
      reads this, accepted
    {
      Valid() && stoppingRequested && queued == {} && AllAsked()
    }

    /** Takes `count` completions off the kernel, whichever it delivers and with whatever results, and
    runs the waiters that are resumed. */
    method DeliverCompletions(count: nat)
      requires Draining() && count <= |kernel|
      modifies this`kernel, this`inFlight, this`inFlightCount, this`pendingSubmissions, this`queued
      modifies this`retries, accepted
      ensures Draining() && |kernel| == |old(kernel)| - count && StillTold()
    {
      hide Valid, AllAsked;
      var left: nat := count;
      while left > 0
        invariant Draining() && left <= count && |kernel| == |old(kernel)| - (count - left) && StillTold()
      {
        assert kernel != multiset{};
        var t :| t in kernel;
        var res: int := *;
        OwnerAccepted(t);
        var resumed := Deliver(t, res);
        if resumed {
          RunWaiter();
        }
        left := left - 1;
      }
    }

    method Deliver(t: Token, res: int) returns (resumed: bool)
      requires Draining() && t in kernel
      modifies this`kernel, this`inFlight, this`inFlightCount, t.op
      ensures Draining() && t.op in accepted && |kernel| == |old(kernel)| - 1
      ensures old(t.op.told).Some? ==> t.op.told == old(t.op.told)
    {
      hide RegistryOk;
      OwnerAccepted(t);
      assert OpOk(t.op);
      resumed := HandleCompletion(t, res);
      assert OpOk(t.op);
      StaysTold(t.op);
    }

    lemma OwnerAccepted(t: Token)
      requires Draining() && t in kernel
      ensures t.op in accepted
    {
    }

    /** What the waiting side read never changes. */
    twostate lemma StaysTold(op: IoOperation)
      requires old(ReportOk(op)) && ReportOk(op)
      requires old(op.externallyCompleted) ==> op.externallyCompleted && op.result == old(op.result)
      ensures old(op.told).Some? ==> op.told == old(op.told)
    {
    }

    /** Waits until nothing is in flight. The kernel completes at least one request whenever the loop
    waits for it; a wait is interrupted at most `interrupts` times. Outstanding requests plus twice
    the cancel requests still due go down, so this ends: a waiter that cancels again adds none. */
    method AwaitInFlight(cancellations: seq<IoOperation>, interrupts: nat)
      requires Draining() && forall o :: o in cancellations ==> o in accepted
      modifies this`inFlight, this`inFlightCount, this`kernel, this`pendingSubmissions, this`queued
      modifies this`retries, accepted
      ensures Draining() && inFlight == map[] && StillTold()
    {
      hide Valid, AllAsked;
      var next: nat, patience := 0, interrupts;
      while inFlight != map[]
        invariant Draining() && next <= |cancellations| && StillTold()
        decreases 2 * (|cancellations| - next) + |kernel|, patience
      {
        var space: nat :| true;
        next := SubmitCancels(cancellations, next, space);
        var interrupted: bool := *;
        if interrupted && patience > 0 {
          patience := patience - 1;
        } else {
          AwaitCompletions();
        }
      }
    }

    /** The kernel delivers one completion or more. */
    method AwaitCompletions()
      requires Draining() && inFlight != map[]
      modifies this`kernel, this`inFlight, this`inFlightCount, this`pendingSubmissions, this`queued
      modifies this`retries, accepted
      ensures Draining() && |kernel| < |old(kernel)| && StillTold()
    {
      hide Valid, AllAsked;
      var id :| id in inFlight;
      InFlightHasTokens(id);
      var count: nat :| 1 <= count <= |kernel|;
      DeliverCompletions(count);
    }

    /** The drain at shutdown ends with nothing registered, queued or outstanding, whatever the waiters
    that it resumes submit or cancel. Every operation ever accepted has then been resumed exactly once,
    with its result; whoever was told before the drain was told for good, and what was still queued is
    told that it was cancelled. */
    method DrainForShutdown(interrupts: nat)
      requires Valid() && stoppingRequested
      modifies this`inFlight, this`inFlightCount, this`kernel, this`pendingSubmissions, this`queued
      modifies this`retries, accepted
      ensures Valid() && inFlight == map[] && inFlightCount == 0 && kernel == multiset{} && pendingSubmissions == []
      ensures forall o :: o in accepted ==> o.resumptions == 1 && o.told == Some(o.result)
      ensures StillTold()
      ensures forall o :: o in old(queued) ==> o in accepted && o.told == ToldAtLast(old(o.told), CANCELLED)
    {
      hide RegistryOk, OpsOk, AllAsked;
      HeldAreAccepted();
      RejectPending();
      var cancellations := RequestCancels();
      HeldAreAccepted();
      AwaitInFlight(cancellations, interrupts);
      NothingLeft();
    }

    /** From the moment the loop stops to the end of its drain. */
    method Shutdown(interrupts: nat)
      requires Valid()
      modifies this, accepted
      ensures Valid() && stoppingRequested && kernel == multiset{} && inFlight == map[] && accepted == old(accepted)
      ensures forall o :: o in accepted ==> o.resumptions == 1 && o.told == Some(o.result)
      ensures StillTold()
      ensures forall o :: o in old(queued) ==> o in accepted && o.told == ToldAtLast(old(o.told), CANCELLED)
    {
      hide RegistryOk, OpsOk;
      BeginStopping();
      DrainForShutdown(interrupts);
    }

    // ---------- Whole runs ----------

    /** Operations were accepted, and whoever was told before is told nothing else. */
    twostate predicate Grown()
      reads this`accepted, accepted
    {
      old(accepted) <= accepted && forall o :: o in old(accepted) && old(o.told).Some? ==> o.told == old(o.told)
    }

    /** A new operation with the next id. */
    method SubmitNew()
      requires Valid() && IdsFromCounter()
      modifies this
      ensures Valid() && IdsFromCounter() && Grown() && fresh(accepted - old(accepted))
    {
      hide RegistryOk, OpsOk;
      var id := NextOperationId();
      var sqeCount: nat, space: nat :| true;
      var kind: OperationType, linkedTimeout: bool, inLoopThread: bool, prepared: bool := *, *, *, *;
      var op := new IoOperation(id, kind, linkedTimeout);
      var _ := SubmitOperation(op, sqeCount, inLoopThread, prepared, space);
    }

    /** An operation that has its result and is not queued, once more. */
    method SubmitFinished(op: IoOperation)
      requires Valid() && IdsFromCounter() && op in accepted && op.externallyCompleted
      requires forall p :: p in pendingSubmissions ==> p.op != op
      modifies this, op`pendingCqes, op`result, op`externallyCompleted
      ensures Valid() && IdsFromCounter() && Grown() && accepted == old(accepted)
    {
      hide MapOk, KernelOk, IdsOk;
      assert OpOk(op);
      var sqeCount: nat, space: nat :| true;
      var inLoopThread: bool, prepared: bool := *, *;
      var _ := SubmitOperation(op, sqeCount, inLoopThread, prepared, space);
    }

    method CancelAccepted(op: IoOperation)
      requires Valid() && IdsFromCounter() && op in accepted
      modifies this`pendingSubmissions, this`queued, this`kernel, this`retries, op
      ensures Valid() && IdsFromCounter() && Grown()
    {
      hide MapOk, QueueOk, KernelOk;
      assert OpOk(op);
      var inLoopThread: bool := *;
      var space: nat :| true;
      var _ := CancelOperation(op, inLoopThread, space);
    }

    method KernelCompletes(t: Token)
      requires Valid() && IdsFromCounter() && t in kernel
      modifies this`kernel, this`inFlight, this`inFlightCount, t.op
      ensures Valid() && IdsFromCounter() && Grown()
    {
      hide RegistryOk;
      HeldByKernel(t);
      assert OpOk(t.op);
      var res: int := *;
      var _ := HandleCompletion(t, res);
      assert OpOk(t.op);
      StaysTold(t.op);
    }

    /** A turn of the loop: queued operations are handed over, or a cancel request is tried again. */
    method Turn()
      requires Valid() && IdsFromCounter()
      modifies this`inFlight, this`inFlightCount, this`kernel, this`pendingSubmissions, this`queued, this`retries
      modifies accepted`pendingCqes
      ensures Valid() && IdsFromCounter() && Grown()
    {
      hide MapOk, QueueOk, KernelOk, OpsOk;
      var space: nat :| true;
      if retries != [] {
        RetryCancel(retries[0], space);
      } else {
        var _ := FlushPendingSubmissions(space);
      }
    }

    /** What callers, the kernel and the loop itself do, in any order and any number of times. */
    method Run()
      requires Valid() && IdsFromCounter()
      modifies this, accepted
      ensures Valid() && IdsFromCounter() && Grown() && fresh(accepted - old(accepted))
    {
      hide Valid, IdsFromCounter;
      var steps: nat :| true;
      while steps > 0
        invariant Valid() && IdsFromCounter() && Grown() && fresh(accepted - old(accepted))
      {
        steps := steps - 1;
        var choice: nat :| true;
        if choice == 0 && accepted != {} {
          var op :| op in accepted;
          CancelAccepted(op);
        } else if choice == 1 && kernel != multiset{} {
          var t :| t in kernel;
          HeldByKernel(t);
          KernelCompletes(t);
        } else if choice == 2 && exists op :: op in accepted && op.externallyCompleted && !Waits(op) {
          var op :| op in accepted && op.externallyCompleted && !Waits(op);
          SubmitFinished(op);
        } else if choice == 3 {
          Turn();
        } else {
          SubmitNew();
        }
      }
    }

    predicate Waits(op: IoOperation)
      reads this`pendingSubmissions
    {
      exists p :: p in pendingSubmissions && p.op == op
    }

    lemma HeldByKernel(t: Token)
      requires Valid() && t in kernel
      ensures t.op in accepted
    {
    }
  }

  /** The whole life of a loop: whatever is submitted, cancelled, completed or handed over again before
  it stops, and whatever its waiters do after that, every operation it ever accepted is resumed exactly
  once, with its result, and nothing is left in the kernel's hands. */
  method LifeOfALoop(pendingSubmissionCapacity: nat, interrupts: nat) returns (loop: OperationLoop)
    ensures fresh(loop) && loop.stoppingRequested && loop.kernel == multiset{} && loop.inFlight == map[]
    ensures forall o :: o in loop.accepted ==> o.resumptions == 1 && o.told == Some(o.result)
  {
    loop := new OperationLoop(pendingSubmissionCapacity);
    loop.Run();
    loop.Shutdown(interrupts);
  }

  /** A new operation with one entry, submitted to a loop that takes it, has one request in the kernel's
  hands: the I/O. */
  method SubmitSingle(loop: OperationLoop, kind: OperationType, space: nat) returns (op: IoOperation)
    requires loop.Valid() && loop.IdsFromCounter() && !loop.stoppingRequested && space > 0
    modifies loop
    ensures loop.Valid() && fresh(op) && op in loop.accepted
    ensures op.View() == OpState(kind, false, false, false, 1, Failure(Error(System, 0)))
    ensures loop.kernel == old(loop.kernel) + multiset{Token(op, Io)} && loop.Outstanding(op) == 1
  {
    hide OperationLoop.RegistryOk, OperationLoop.OpsOk;
    var id := loop.NextOperationId();
    op := new IoOperation(id, kind, false);
    loop.NotHeld(op);
    var d := loop.SubmitOperation(op, 1, true, true, space);
    assert d.Submitted?;
    loop.Held(op);
  }

  /** The life of one operation: submitted with a single entry and not cancelled, a completion with a positive
  result tells exactly that result to whoever waits, once, and the operation is no longer registered. */
  method SubmitAndComplete(loop: OperationLoop, kind: OperationType, space: nat, res: int) returns (op: IoOperation)
    requires loop.Valid() && loop.IdsFromCounter() && !loop.stoppingRequested && space > 0 && res > 0
    modifies loop
    ensures loop.Valid() && fresh(op) && op in loop.accepted
    ensures op.told == Some(Success(res)) && op.resumptions == 1 && op.id !in loop.inFlight
    ensures loop.kernel == old(loop.kernel)
  {
    hide OperationLoop.RegistryOk, OperationLoop.OpsOk;
    op := SubmitSingle(loop, kind, space);
    assert Token(op, Io) in loop.kernel;
    var t :| t in loop.kernel && t.op == op;
    TokenKinds(t);
    var _ := loop.HandleCompletion(t, res);
    loop.Held(op);
    assert loop.kernel == old(loop.kernel);
  }
}

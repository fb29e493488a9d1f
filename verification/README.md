# Verified model of the gateway runtime

The repository is an HTTP/1.1 reverse proxy on io_uring and C++ coroutines. This project models the
parts of it whose correctness depends on every interleaving, every chunking or every history, and
proves what they promise.

| modules | part of the system |
|---|---|
| `SizeArithmetic`, `LockFreeQueue`, `LockFreeQueueSafety`, `LockFreeQueueProgress` | the bounded ring of tickets with a sequence number in each slot, one atomic action a step, any number of threads; that its calls end, and what they answer |
| `LoopIngress`, `LoopIngressSafety`, `LoopIngressResults`, `LoopIngressCalls`, `LoopIngressTurns` | the event loop's two callback lanes, the admission counter, what the queueing calls answer, what a turn runs, stopping and the final drain |
| `IoOperation`, `OperationLoop` | one I/O operation with its I/O, timeout and cancel completions; the registry, the submission queue, cancellation and the drain at shutdown |
| `HttpSyntax`, `HttpFields`, `HttpFramer`, `HttpForwarding`, `HeadMeaning` | the incremental head parser, the rewriting of the head that is forwarded, what reading it again gives, and what an accepted head says in terms of its bytes |
| `AsyncSocket`, `BodyPump`, `ProxyResponses`, `ProxySession` | short reads and writes, the body pump, error responses, and a whole client session |
| `BucketKey`, `UpstreamPool` | leases, idle connections and suspended connects of the upstream pool |
| `GatewayShutdown` | the count of live sessions and the barrier over all workers |
| `RecencyList`, `LruCache`, `FeatureStore` | the cache of least recently used entries on a linked list, and the read-through store |
| `Buffer`, `RpcCodec` | the relocating byte buffer and the length-prefixed codec over it |

`Wrappers` holds the two result types that all of them use, and `Sequences` what several of them need to
know of sequences. Code that changes state in the source is a
class or a method with loops here; concurrent code is a step machine whose steps are the atomic
actions of the source, so that a statement about `Run` is a statement about every interleaving. What
the kernel, a peer, a clock or another component decides is a parameter or an arbitrary value chosen
at the point where it matters. A session runs for an arbitrary number of turns; a statement about it
therefore holds of every finite run.

Where the code is narrower than the HTTP standards (RFC 9110, RFC 9112), the model follows the code:
only `GET` and `POST`, no transfer coding, no `Upgrade`, no line folding, and only `close` and
`keep-alive` as connection options.

Some promises hold only under a condition, which is proved exact: the ring is safe if and only if it has
two slots or more (`SafeExactlyWithTwoSlots`), the result of an operation with a linked timeout is
independent of the order of its completions if and only if the two results satisfy `OrderFree`, a
message survives the codec if and only if its payload is at most 64 MiB (`RoundTripExactlyWhen`), and a
submission, whatever becomes of it, keeps the registry in order if and only if `KeepsOrder` holds of its
operation (`SubmitOperation`): one that is refused must not be waiting for its result already, one that is
submitted or queued must not be in the queue, must not have a result that nobody was told, and is queued
only if it was not asked to cancel or has its result. With new sessions refused, a zero of the session count is final if and only
if no worker is starting one (`ZeroIsFinalExactlyWhen`), which the barrier ensures;
`ZeroMayRiseBeforeBarrier` shows that it can rise in front of the barrier.

## Model

| member | source | states |
|---|---|---|
| SizeArithmetic.RoundUpToPowerOf2 | include/LockFreeQueue.hpp:52-63 | the six shifts give the least power of two that is at least the capacity, for every capacity up to 2^63; above it the increment wraps to zero |
| SizeArithmetic.MaskIsRemainder | include/LockFreeQueue.hpp:69-85 | masking with a power of two less one is taking the remainder |
| LockFreeQueue.MaskSelectsSlot | include/LockFreeQueue.hpp:85-85 | the masked position is the slot of the ticket |
| LockFreeQueue.IndexIsModulo | include/LockFreeQueue.hpp:133-133 | the slot of a ticket is the ticket modulo the ring size |
| LockFreeQueue.Construct | include/LockFreeQueue.hpp:67-76 | the ring starts with the least power of two of slots, each waiting for its own first ticket; a capacity above 2^63 gets no slot at all |
| LockFreeQueueSafety.ApplyInvariant | include/LockFreeQueue.hpp:78-161 | every atomic action of any thread, spurious failures included, keeps the ring invariant |
| LockFreeQueueSafety.EveryRunIsSafe | include/LockFreeQueue.hpp:78-161 | on every run with two slots or more each ticket is written once and read at most once and only after its write, with the value offered under it; no slot is touched by two threads; outstanding tickets never exceed the slots |
| LockFreeQueueSafety.RefinesFifo | include/LockFreeQueue.hpp:78-161 | every action is a push, a pop of the oldest pending value, or invisible |
| LockFreeQueueSafety.TicketIsKept | include/LockFreeQueue.hpp:126-161 | on every run, whatever the other threads do, a thread that won ticket `t` stays bound to the value offered under `t` until it returns |
| LockFreeQueueSafety.PopReturnsHead | include/LockFreeQueue.hpp:126-161 | a thread whose action popped the queue returns the value that was the oldest pending one at that moment, on every run that follows |
| LockFreeQueueSafety.ConsumerHoldsItsTicket | include/LockFreeQueue.hpp:157-160 | what a consumer holds is what the producer of its ticket offered |
| LockFreeQueueSafety.SafeExactlyWithTwoSlots | include/LockFreeQueue.hpp:67-161 | all runs are safe if and only if there are two slots or more; on one slot a second enqueue overwrites the first value |
| LockFreeQueueSafety.QuietQueueIsReadable | include/LockFreeQueue.hpp:126-149 | in every state that a run reaches with no producer at work, a dequeue finds the oldest pending ticket, so it reports an empty ring only when nothing is pending |
| LockFreeQueueProgress.EnqueueEnds | include/LockFreeQueue.hpp:78-114 | from every state of the invariant, a thread that stands anywhere inside an enqueue, with a stale position or not, and moves alone is through within six actions: with room its value is published as the last pending one, without room nothing has changed and it reports a full ring |
| LockFreeQueueProgress.DequeueEnds | include/LockFreeQueue.hpp:126-161 | the same for a dequeue: it returns the oldest pending value, which leaves the queue and releases its slot, exactly when that one is published, and otherwise reports an empty ring and changes nothing |
| LockFreeQueueProgress.CallEnqueue | include/LockFreeQueue.hpp:78-114 | a whole enqueue that runs alone adds its value at the end exactly when there is room, and the thread is idle again |
| LockFreeQueueProgress.CallDequeue | include/LockFreeQueue.hpp:126-161 | a whole dequeue that runs alone takes the oldest value exactly when it is published |
| LockFreeQueueProgress.FullMeansNoRoom | include/LockFreeQueue.hpp:88-102 | among any other threads an enqueue reports a full ring only at a moment at which the ticket one lap before had not been released |
| LockFreeQueueProgress.EmptyMeansUnpublished | include/LockFreeQueue.hpp:134-149 | among any other threads a dequeue reports an empty ring only at a moment at which nothing is pending or the producer of the oldest ticket is at work |
| LoopIngressSafety.ApplyInvariant | src/EventLoop.cpp:203-391 | every step of producers, quitters, callbacks and the loop keeps the ingress invariant |
| LoopIngressSafety.RingHasRoom | src/EventLoop.cpp:276-311 | while a reservation is held the slot of the next ticket cannot belong to the previous lap |
| LoopIngressResults.AdmittedNeverRejected | src/EventLoop.cpp:276-311 | after a successful reservation the ring-full branch and the rollback are never taken, and the counter stays between zero and the capacity |
| LoopIngressResults.LanesRunInOrder | src/EventLoop.cpp:888-944 | in every reachable state what ran from a lane is a front part of what entered it |
| LoopIngressResults.NothingEntersAfterStopping | src/EventLoop.cpp:227-243 | once stopping has begun no later run adds to a lane or accepts a callback |
| LoopIngressResults.AcceptedRunExactlyOnce | src/EventLoop.cpp:203-219 | when `loop` has returned, each callback whose enqueue returned true ran exactly as often as it was accepted, and nothing else ran |
| LoopIngressResults.DrainEnds | src/EventLoop.cpp:206-219 | on every run from a state of the final drain, whatever other threads and callbacks do in between: while `loop` has neither returned nor reached its last step, it has made at most as many moves as there was work left in that state, and three more for each spurious failure; its last step returns as soon as nobody holds the lifecycle lock |
| LoopIngressResults.DrainStepCloser | src/EventLoop.cpp:206-211 | every step of the final drain that does not wait lowers the work that is left |
| LoopIngressResults.OthersKeepDrainWork | src/EventLoop.cpp:206-211 | no step of another thread, and no callback, changes that work |
| LoopIngressCalls.QueueingAnswer | src/EventLoop.cpp:262-391 | a whole call of either queueing function that runs alone, from every reachable state, returns with its callback at the end of its lane and reported as accepted exactly when the stopping flag is clear, the lifecycle is not closed and, in the normal lane, the count is below the capacity; otherwise the lanes stay as they were |
| LoopIngressCalls.QueueingCallEnds | src/EventLoop.cpp:262-391 | wherever inside it stands, a queueing call that runs alone returns within twelve moves |
| LoopIngressCalls.RefusedOnlyWhenBlocked | src/EventLoop.cpp:264-291 | on every run, whatever the other threads do, a call that returns without its callback accepted met a moment at which the flag was set, the lifecycle closed or, in the normal lane, the count at its capacity |
| LoopIngressCalls.StopsOnlyWhenAsked | src/EventLoop.cpp:152-206 | on every run without a call of `quit` and without an error of io_uring neither the flag nor the lifecycle nor `loop` ever stops |
| LoopIngressTurns.TurnRunsWhatWaits | src/EventLoop.cpp:152-156 | on every run, when a turn that began in a state is through, all callbacks that were on the control lane then have run, and those of the normal lane that were published without a gap, up to 65536 of them |
| LoopIngressTurns.TurnEnds | src/EventLoop.cpp:152-156 | on every run from a state of a turn that has swapped the control lane, `loop` makes at most as many moves as there is work left, and two more for each spurious failure, before the turn is through |
| LoopIngressTurns.LoopStarts | src/EventLoop.cpp:137-155 | `loop` on an initialized, unstopped event loop sets it running and takes over the control lane |
| LoopIngressTurns.NextTurn | src/EventLoop.cpp:152-201 | after a turn an unstopped loop handles events and begins the next turn |
| LoopIngressTurns.QuitCloses | src/EventLoop.cpp:222-243 | a call of `quit` that finds the lifecycle lock free sets the flag, closes the lifecycle and asks the loop to stop, or leaves a closed one closed |
| LoopIngressTurns.StopIsFollowed | src/EventLoop.cpp:152-206 | a loop that was asked to stop, or whose ring failed, is closed and in its final drain after at most five moves of its own |
| IoOperation.IoOperation.OnCompletion | src/ucp/runtime/IoOperation.cpp:96-138 | a completion changes the operation as the specification says, resumes only when it decides the result, and never changes a result that is decided |
| IoOperation.DeliveredOnce | src/ucp/runtime/IoOperation.cpp:96-138 | delivering the expected completions in any order resumes exactly once, with the first verdict or as cancelled |
| IoOperation.CompletedIsFinal | src/ucp/runtime/IoOperation.cpp:104-145 | a decided result never changes and never resumes again, whatever completes afterwards |
| IoOperation.OrderIrrelevantExactlyWhen | src/ucp/runtime/IoOperation.cpp:96-138 | the result of an operation with a linked timeout is the same for every interleaving of its completions with any number of cancel acknowledgements if and only if the pair of results is order free |
| IoOperation.WhatIsTold | src/ucp/runtime/IoOperation.cpp:96-138 | in plain numbers: a positive I/O result is told with its size, zero as the end of a read and as success otherwise, a negative one as cancelled, as timed out or with its error number, and an expired timeout as such |
| IoOperation.WhatIsNotTold | src/ucp/runtime/IoOperation.cpp:104-138 | an acknowledged cancel, a disarmed timeout and an I/O that the timeout stopped decide nothing, unless they are the last, which makes the operation cancelled |
| IoOperation.KernelErrors | src/ucp/runtime/IoOperation.cpp:11-34 | each error code stands for exactly its error numbers |
| IoOperation.ReadWithTimeout | src/ucp/runtime/IoOperation.cpp:96-138 | in every interleaving a read whose timeout was disarmed is told its size or the end, and one stopped by its timeout is told that |
| OperationLoop.OperationLoop.NextOperationId | src/EventLoop.cpp:398-401 | the counter goes up and gives an id that no accepted operation has, if theirs came from it too |
| OperationLoop.OperationLoop.SubmitOperation | src/EventLoop.cpp:403-462 | a submission of no operation, of a new one or of one accepted before, in whatever state, is refused, submitted or queued by the order of the checks; what is refused leaves the loop as it was and keeps a result it had, what is submitted hands the kernel one linked timeout if it has more than one entry and the I/O with all others, what is queued goes to the end of the queue; the invariant survives if and only if `KeepsOrder` held |
| OperationLoop.OperationLoop.WhatIsDecided | src/EventLoop.cpp:403-462 | when a submission is handed over, when it waits, and with which error number it is refused, each exactly |
| OperationLoop.OperationLoop.FlushPendingSubmissions | src/EventLoop.cpp:901-915 | the kernel gets exactly the requests of the oldest queued operations that fit, the first one that does not fit stays in front, and of the operations only the counts of outstanding completions change |
| OperationLoop.OperationLoop.HandleCompletion | src/EventLoop.cpp:686-731 | a completion always finds its operation registered; the operation is erased exactly at its last outstanding request and resumed exactly when its result was decided, and then told that result: its size for an undecided I/O with a positive result |
| OperationLoop.OperationLoop.CancelOperation | src/EventLoop.cpp:464-501 | cancelling has an effect exactly for an operation that is queued or in flight, has no result and was not asked to cancel before; a queued one is told at once, one in flight gets a cancel request or a retry |
| OperationLoop.OperationLoop.RetryCancel | src/EventLoop.cpp:582-595 | a retry for a finished operation does nothing; otherwise it hands over the cancel request or is queued again |
| OperationLoop.OperationLoop.RunWaiter | src/EventLoop.cpp:547-561 | whatever a resumed waiter does while the loop stops, any number of times: submitting new operations, or accepted ones that have their result, changes nothing, cancelling any accepted operation takes a queued one out of the queue at most once, and nothing happens once all are cancelled |
| OperationLoop.OperationLoop.DrainForShutdown | src/EventLoop.cpp:597-668 | the drain ends with no request outstanding and nothing registered or queued, with every resumed waiter running such code; every operation ever accepted was resumed exactly once with its result, and nobody who was told before is told anything else |
| OperationLoop.OperationLoop.Shutdown | src/EventLoop.cpp:204-211 | stopping and draining, from any valid state of the loop |
| OperationLoop.OperationLoop.Run | src/EventLoop.cpp:403-595 | submissions of new and of finished operations, cancels, completions, flushes and retries of cancel requests, in any order and any number, on a running or a stopping loop: the invariant holds, new operations get ids of their own, and nobody who was told is told anything else |
| OperationLoop.LifeOfALoop | src/EventLoop.cpp:203-219 | from the construction of a loop over any such run to the end of its shutdown: every operation it ever accepted was resumed exactly once, with its result, and no request is outstanding |
| OperationLoop.SubmitSingle | src/EventLoop.cpp:403-545 | a new operation with one entry, submitted to a running loop with room, has exactly the I/O request in the kernel's hands |
| OperationLoop.SubmitAndComplete | src/EventLoop.cpp:403-731 | such an operation, not cancelled, whose request completes with a positive result is told exactly that result, once, and is no longer registered |
| HttpFields.ParseDecimal | src/ucp/proxy/HttpFramer.cpp:81-101 | accepts exactly the trimmed non-empty digit strings whose value fits a `size_t`, with that value |
| HttpFields.ParseConnectionTokens | src/ucp/proxy/HttpFramer.cpp:112-133 | accepts exactly lists of `close` and `keep-alive`, and clears the flag exactly when `close` occurs |
| HttpFields.TrimExactly | src/ucp/proxy/HttpFramer.cpp:41-52 | trimming is the only way to split off all blanks and tabs at both ends |
| HttpFramer.ParseHeaderLines | src/ucp/proxy/HttpFramer.cpp:135-192 | the cursor loop reads the lines of the block one by one, and the first wrong line decides the error |
| HttpFramer.BuildForwardHead | src/ucp/proxy/HttpFramer.cpp:194-214 | prints the start line, the lines that are not about the connection, and one connection line |
| HttpFramer.ParseRequestHead | src/ucp/proxy/HttpFramer.cpp:234-297 | parses the front of the buffer and takes off exactly the head, or leaves the buffer alone |
| HttpFramer.ParseResponseHead | src/ucp/proxy/HttpFramer.cpp:299-378 | the same for responses |
| HttpForwarding.FoundIsHead | src/ucp/proxy/HttpFramer.cpp:237-255 | what is found as a head is the print of its start line and its header lines |
| HttpForwarding.HeadIsFound | src/ucp/proxy/HttpFramer.cpp:237-255 | the print of any start line and any header lines is found again, whatever follows it, unless it is too long |
| HttpForwarding.RequestVerdictIsStable | src/ucp/proxy/HttpFramer.cpp:234-297 | a verdict about a prefix, complete or error, is the verdict about every longer stream |
| HttpForwarding.ResponseVerdictIsStable | src/ucp/proxy/HttpFramer.cpp:299-378 | the same for responses |
| HttpForwarding.NeedMoreExactlyWhen | src/ucp/proxy/HttpFramer.cpp:239-248 | more bytes are asked for exactly while there is no empty line and the limit is not reached |
| HttpForwarding.RequestFixpoint | src/ucp/proxy/HttpFramer.cpp:194-297 | reading a forwarded request head gives the very record it came from, forwarded head included, exactly when it is within the limit |
| HttpForwarding.ResponseFixpoint | src/ucp/proxy/HttpFramer.cpp:194-378 | reading a forwarded response head, with its connection line rewritten either way, gives the record it came from with that flag |
| HttpForwarding.ForwardLength | src/ucp/proxy/HttpFramer.cpp:194-214 | forwarding adds at most 24 bytes, and adds 24 exactly when no header line was about the connection |
| HttpForwarding.ResponseForwardLength | src/ucp/proxy/HttpFramer.cpp:194-378 | the forwarded head of any response that parses is at most 24 bytes longer than the head that was read |
| HttpForwarding.NormalizedIsForward | src/ucp/proxy/ProxySession.cpp:74-88 | rewriting the last connection header of a forwarded head is forwarding with the other flag |
| HeadMeaning.RequestExactly | src/ucp/proxy/HttpFramer.cpp:234-297 | a request is accepted with a record exactly when its bytes say it: known method, absolute path and version in the start line; no wrong header line; the announced length or zero, which `POST` must announce; closing exactly when a connection line says so; and the forwarded head that keeps all other lines |
| HeadMeaning.ResponseExactly | src/ucp/proxy/HttpFramer.cpp:299-378 | a response is accepted with a record exactly when its bytes say it: a status from 100 to 599, no wrong header line, a length unless the status has no body, and then none but zero |
| HeadMeaning.HeadersExactly | src/ucp/proxy/HttpFramer.cpp:135-192 | header lines are accepted exactly when none is wrong: each is a field, none is named transfer-encoding or upgrade, the lengths are numbers within the limit and equal, the connection options are known; the length is the announced one, and otherwise the first wrong line decides the error |
| HeadMeaning.ReadExactly | src/ucp/proxy/HttpFramer.cpp:152-167 | a line is read as a name and a value exactly when it is a name, a colon and the value with white space around it |
| HeadMeaning.OptionsArePieces | src/ucp/proxy/HttpFramer.cpp:112-133 | the options of a connection line are its pieces between commas, trimmed and in lower case |
| HeadMeaning.RequestLineExactly | src/ucp/proxy/HttpFramer.cpp:256-276 | a request line is accepted exactly as three words with a known method, an absolute path and HTTP/1.1, and another method has an error of its own |
| HeadMeaning.StatusLineExactly | src/ucp/proxy/HttpFramer.cpp:321-354 | a status line is accepted exactly as HTTP/1.1, three digits from 100 to 599, and anything behind a further space |
| HeadMeaning.TokenCharacters | src/ucp/proxy/HttpFramer.cpp:54-72 | the characters of a field name, listed |
| HeadMeaning.LowerCase | src/ucp/proxy/HttpFramer.cpp:27-39 | lower case changes the letters of the alphabet one by one and nothing else |
| HeadMeaning.TooLongExactlyWhen | src/ucp/proxy/HttpFramer.cpp:239-252 | a head is too long exactly when no empty line ends it within the limit and the limit is reached |
| HeadMeaning.RequestErrorIs | src/ucp/proxy/HttpFramer.cpp:234-285 | every error of a request is that of its size, its start line, its first wrong header line or a missing length, in this order |
| HeadMeaning.ResponseErrorIs | src/ucp/proxy/HttpFramer.cpp:299-367 | the same for responses, with the rule about bodies last |
| AsyncSocket.Socket.WriteAll | src/ucp/net/AsyncSocket.cpp:300-328 | success means all bytes in order; an error leaves a front part of them sent, and there is one exactly when the socket failed |
| BodyPump.ReadRequestHead | src/ucp/proxy/ProxySession.cpp:280-310 | for every chunking the result is that of parsing all bytes at once; it is an error exactly for a wrong head or a failed read, nothing is read when the buffered bytes have a verdict already, the buffer stays within the limit, the loop ends, and what follows the head stays buffered |
| BodyPump.ReadResponseHead | src/ucp/proxy/ProxySession.cpp:312-344 | the same for responses |
| BodyPump.StreamExact | src/ucp/proxy/ProxySession.cpp:346-400 | on success the destination got exactly the announced bytes in order and the bytes behind them are still buffered; an error means that exactly one of the two sockets failed, once, and the destination got a front part of them |
| ProxyResponses.ErrorIsOneResponse | src/ucp/proxy/ProxySession.cpp:402-417 | every error response frames as one response with the given status, without a body, that announces the close |
| ProxyResponses.RequestErrorStatuses | src/ucp/proxy/ProxySession.cpp:34-48 | a head that is too large is answered with 431, a body that is too large with 413, everything else with 400 |
| ProxyResponses.CutResponse | src/ucp/proxy/ProxySession.cpp:235-259 | what a client got of a relayed response, cut anywhere, is a front part of one response |
| ProxySession.ProxySession.Refuse | src/ucp/proxy/ProxySession.cpp:145-155 | bytes that are no complete request are answered with the error response whose status belongs to the parse error or the failed read, all of it unless sending it fails, and the session ends |
| ProxySession.ProxySession.FailWith | src/ucp/proxy/ProxySession.cpp:162-233 | giving up a request that got no complete response head sends the error response whose status belongs to the cause, all of it unless sending fails, and nothing else; the cause is borne out by the sockets |
| ProxySession.ProxySession.Upload | src/ucp/proxy/ProxySession.cpp:191-220 | the upstream gets a front part of the forwarded head and the body, and on success all of it, with the next request untouched in the buffer; it fails only with one fault of one of the two sockets, and with the status of that cause |
| ProxySession.ProxySession.Download | src/ucp/proxy/ProxySession.cpp:234-271 | the client gets the rewritten head and the announced body as the upstream sent it: all of it exactly when no socket fails, otherwise a front part; only a complete response with both keep-alive flags leads to another request, and only then is the lease marked reusable |
| ProxySession.ProxySession.ServeOne | src/ucp/proxy/ProxySession.cpp:141-271 | one turn of the session loop: a complete request in the buffer is answered in one more exchange with exactly that head, or given up; bytes that are no request are refused with their error; a turn ends without either only when the client has left; what routing, balancer and pool say decides between 404, 503, 504, 502 and an upstream; the whole log is kept against the client and all upstream sockets |
| ProxySession.ProxySession.RunLoop | src/ucp/proxy/ProxySession.cpp:139-278 | over any number of turns: it goes on, one exchange a turn, until it is cancelled, a response announces the close, the session ends or the client has left; the client stream is the consumed heads and bodies in order; each upstream got its forwarded request and sent the answer; the client got the complete replies in that order and then at most a front part of one error response or of one relayed response, never of both |
| ProxySession.ProxySession.WithoutFaults | src/ucp/proxy/ProxySession.cpp:139-278 | in every state between two turns in which no socket has failed: every request that was read was answered in full, but for one that found no route, endpoint or connection, whose upstream sent no response head, or that was no request, and that one got its whole error response |
| ProxySession.UpstreamReadsTheRequest | src/ucp/proxy/ProxySession.cpp:191-211 | what was sent for an exchange parses to the same request with the same body behind it |
| ProxySession.ProxySession.PeersReadTheirRequests | src/ucp/proxy/ProxySession.cpp:191-211 | in every state between two turns, the bytes that each upstream socket got parse to the request of its exchange, with exactly its body behind the head |
| ProxySession.ProxySession.ReusedExactlyWhen | src/ucp/proxy/ProxySession.cpp:264-271 | in every state between two turns, an upstream connection is marked reusable if and only if it carried a complete exchange whose request and response both keep the connection; one whose request was given up never is |
| ProxySession.CutIsRelayed | src/ucp/proxy/ProxySession.cpp:235-259 | in a response that was cut, every byte behind the head is the upstream's byte at that place of the announced body |
| ProxySession.EndingIsOnePart | src/ucp/proxy/ProxySession.cpp:402-427 | however a session ends, the client got a front part of one response for the last request |
| ProxySession.ClientSplitsReplies | src/ucp/proxy/ProxySession.cpp:139-278 | splitting what the client got by heads and lengths alone gives the complete replies in the order of the requests, then what the last part gives |
| ProxySession.ProxySession.ClientReadsReplies | src/ucp/proxy/ProxySession.cpp:139-278 | in every state between two turns, splitting the bytes that the client socket got gives one response for each exchange and at most one more, which is all that the last request got |
| ProxySession.CloseComesLast | src/ucp/proxy/ProxySession.cpp:264-271 | every complete reply is one response, and nothing follows one that announces the close |
| BucketKey.KeysAreInjective | src/ucp/proxy/UpstreamPool.cpp:90-95 | two keys are equal if and only if route name, host and port are |
| UpstreamPool.UpstreamPool.PruneIdle | src/ucp/proxy/UpstreamPool.cpp:110-134 | exactly the entries that are disconnected or expired leave, in order, and the total goes down with them |
| UpstreamPool.KeptExactly | src/ucp/proxy/UpstreamPool.cpp:110-134 | what pruning leaves are exactly the other connections, in the order they had |
| UpstreamPool.UpstreamPool.Acquire | src/ucp/proxy/UpstreamPool.cpp:136-215 | the errors in the order of the checks, then the first idle connection that is still good, the capacity error, or a reserved connect, with the exact new bucket for each |
| UpstreamPool.UpstreamPool.WhatIsAcquired | src/ucp/proxy/UpstreamPool.cpp:159-186 | a connection is reused exactly when an idle one is still good, and without one the capacity error comes exactly when leases and suspended connects fill the limit of the bucket |
| UpstreamPool.UpstreamPool.ResumeConnect | src/ucp/proxy/UpstreamPool.cpp:211-244 | the reservation ends with the connect, and a new connection is leased at once |
| UpstreamPool.UpstreamPool.Release | src/ucp/proxy/UpstreamPool.cpp:262-301 | the connection becomes idle exactly when it is reusable, connected and there is room, and is destroyed otherwise; the asserted counters are positive |
| UpstreamPool.UpstreamLease.Destroy | src/ucp/proxy/UpstreamPool.cpp:60-82 | a lease that goes gives its connection back to its pool, which keeps or destroys it by the same rule; an empty one changes nothing |
| UpstreamPool.UpstreamLease.MoveAssign | src/ucp/proxy/UpstreamPool.cpp:47-58 | a move gives back what the target held to its pool, which counts it back or out by the rule of `Release`, and takes over the rest from the pool of the source, which may be another one; moving a lease to itself changes nothing |
| UpstreamPool.UpstreamPool.CloseIdle | src/ucp/proxy/UpstreamPool.cpp:311-329 | every idle connection is destroyed and its bucket counts without it; leases stay |
| UpstreamPool.UpstreamPool.Accounting | src/ucp/proxy/UpstreamPool.cpp:97-329 | between any two steps total is leased plus idle, counters are the live leases and suspended connects, limits hold, and no connection is in two places |
| GatewayShutdown.CountsAreExact | src/ucp/proxy/GatewayServer.cpp:240-281 | on every run the shared count is that of the live sessions and of those being installed or finished, and between callbacks accepted minus closed equals active on each worker |
| GatewayShutdown.ZeroIsFinal | src/ucp/proxy/GatewayServer.cpp:129-162 | a zero read behind the barrier stays zero on every continuation, and no worker has a session or is about to |
| GatewayShutdown.FallsAfterBarrier | src/ucp/proxy/GatewayServer.cpp:367-392 | behind the barrier no run of any length raises the count |
| GatewayShutdown.ZeroIsFinalExactlyWhen | src/ucp/proxy/GatewayServer.cpp:129-162 | with new sessions refused, a zero stays zero on every continuation if and only if no worker is inside `startSession` in front of the count |
| GatewayShutdown.ZeroMayRiseBeforeBarrier | src/ucp/proxy/GatewayServer.cpp:129-143 | without the barrier a zero can rise again, even with new sessions refused, in every gateway that has a worker |
| GatewayShutdown.BarrierCanBePassed | src/ucp/proxy/GatewayServer.cpp:367-392 | from every state that a gateway reaches, whatever its workers are doing, some continuation passes the barrier |
| GatewayShutdown.CompleteCountsExactly | src/ucp/proxy/GatewayServer.cpp:367-392 | on every run the count that the stopping thread waits for is the number of workers that have run its callback, and it passes only when all have |
| GatewayShutdown.SessionStarts | src/ucp/proxy/GatewayServer.cpp:240-281 | an idle worker of a gateway that accepts sessions serves a new one: it holds it, and all counters have gone up by one |
| GatewayShutdown.SessionEnds | src/ucp/proxy/GatewayServer.cpp:267-276 | a session that finishes leaves its worker, and all counters have gone down by one |
| RecencyList.StackProperty | recommend/FeatureStore.hpp:157-201 | a cache of any capacity holds the most recently used distinct keys of the trace, most recent first |
| RecencyList.HoldsMostRecent | recommend/FeatureStore.hpp:157-201 | the same against the list that is sorted by last use |
| RecencyList.Inclusion | recommend/FeatureStore.hpp:157-201 | a larger cache holds all a smaller one holds |
| RecencyList.CachedSize | recommend/FeatureStore.hpp:157-201 | after any trace a cache holds distinct keys of the trace, at most as many as its capacity |
| RecencyList.HitsMonotone | recommend/FeatureStore.hpp:311-331 | a larger cache never scores fewer hits on the same trace |
| RecencyList.CachedExactlyWhen | recommend/FeatureStore.hpp:157-201 | a key is cached exactly when it was used before and fewer distinct keys than the capacity were used since |
| RecencyList.HitsExactly | recommend/FeatureStore.hpp:311-331 | the hits of a trace are exactly its requests for a key that was used before with fewer distinct keys than the capacity in between |
| LruCache.LruCache.Get | recommend/FeatureStore.hpp:157-169 | the linked list and the index refine the recency list: a hit returns the cached value and moves its entry to the front |
| LruCache.LruCache.Put | recommend/FeatureStore.hpp:176-201 | the entry is at the front and the least recently used one leaves when there is no room, for every capacity including zero |
| LruCache.LruCache.Clear | recommend/FeatureStore.hpp:214-219 | nothing is cached afterwards and the cache stays usable |
| FeatureStore.FeatureStore.GetUserFeature | recommend/FeatureStore.hpp:311-331 | the vector is the generated one whatever the cache holds, and cache and counters follow the trace |
| FeatureStore.FeatureStore.GetItemFeature | recommend/FeatureStore.hpp:339-355 | the same for items, without touching the user cache |
| FeatureStore.LargerStoreHitsMore | recommend/FeatureStore.hpp:311-331 | of two stores with the same history the larger one has at least as many hits |
| Buffer.Buffer.MakeSpace | include/Buffer.hpp:78-95 | growing or moving the bytes to the front keeps the contents and makes the room |
| Buffer.Buffer.Append | src/Buffer.cpp:43-48 | appends to the byte sequence, whether or not the storage moves |
| Buffer.Buffer.Retrieve | src/Buffer.cpp:3-15 | drops the front of the byte sequence, all of it when asked for more |
| RpcCodec.Encode | codec/RpcCodec.cpp:95-129 | appends the frame of the message |
| RpcCodec.Decode | codec/RpcCodec.cpp:19-93 | takes one message off, or leaves buffer and output alone when it is incomplete or too large |
| RpcCodec.ParsedExactlyFrames | codec/RpcCodec.cpp:19-129 | a message and a rest are found if and only if the bytes are its frame followed by that rest and the payload is within 64 MiB |
| RpcCodec.FrameBytes | codec/RpcCodec.cpp:95-129 | the sixteen header bytes of a frame one by one: length, type and id with the most significant byte first, then the payload |
| RpcCodec.TooLargeExactlyWhen | codec/RpcCodec.cpp:36-46 | a message is refused exactly when its first four bytes announce more than 64 MiB |
| RpcCodec.RoundTripExactlyWhen | codec/RpcCodec.cpp:95-129 | decoding an encoded message gives it back if and only if its payload is within 64 MiB |
| RpcCodec.NeedMoreExactlyWhenCut | codec/RpcCodec.cpp:27-76 | from sixteen bytes on, more is needed exactly when the bytes are a proper front part of some frame |
| RpcCodec.StreamRoundTrip | codec/RpcCodec.cpp:19-129 | any list of messages within the limit, followed by a cut frame or nothing, decodes to itself and leaves the cut frame alone |
| RpcCodec.EncodeEach | codec/RpcCodec.cpp:95-129 | encoding a list into a buffer appends its frames in order |
| RpcCodec.DecodeArriving | codec/RpcCodec.cpp:19-93 | decoding over a buffer finds the same messages however the stream is cut into chunks; a stream of frames and a cut frame gives exactly the messages sent and leaves the cut frame in the buffer |
| RpcCodec.VerdictIsStable | codec/RpcCodec.cpp:19-93 | more bytes never change a verdict other than incomplete |

## Left out

- LockFreeQueueSafety.EveryRunIsSafe: sequential consistency and unbounded tickets; the acquire and release orderings and the wrap of the 64-bit counters are not modelled.
- LockFreeQueueProgress.EnqueueEnds: a thread makes progress when it runs alone; that some thread always does among others that keep failing spuriously is left to the hardware.
- LoopIngressTurns.NextTurn: the wait for events always ends; the `eventfd` that wakes a waiting loop is not modelled.
- LoopIngressResults.DrainEnds: that the loop's thread, and a thread that holds the lifecycle lock, go on running is left to the machine.
- OperationLoop.OperationLoop.DrainForShutdown: what a resumed waiter does besides submitting and cancelling does not touch the loop.
- OperationLoop.OperationLoop.SubmitOperation: an operation that no loop accepted has no outstanding completions and no id of an accepted operation that is not in flight. The exception thrown when an operation that is queued twice is handed over the second time is not modelled: the contract says that queueing it twice breaks the invariant. Nor is setting a new continuation on an operation that has its result.
- OperationLoop.OperationLoop.NextOperationId: the 64-bit counter does not wrap.
- OperationLoop.OperationLoop.Run: callers submit no operation for which `KeepsOrder` fails; for the others the contract of `SubmitOperation` says that the invariant is lost.
- AsyncSocket.Socket.WriteAll: deadlines and the closing of sockets appear only as errors that may occur at any read or write.
- ProxySession.ProxySession.RunLoop: what routes, the balancer and the pool say about each request, and whether the session is cancelled between two turns, are parameters; a cancellation in the middle of a turn appears as an error of a socket. Each request gets an upstream socket of its own, so what an upstream sends behind its announced body is not carried over to a later exchange on the same connection. The source drops only those bytes of it that were read into `upstreamInput_` already; what is still unread stays in a reused connection and would be read as the beginning of the next answer.
- UpstreamPool.UpstreamPool.Acquire: expiry, disconnection and deadlines are parameters; allocation failure in the release path is not modelled.
- GatewayShutdown.ZeroIsFinal: a session that finishes inside the call that starts it is modelled as the next callback of its worker; the waits with deadlines and the abort on a stall are not modelled.
- Buffer.Buffer.MakeSpace: sizes are unbounded, so the sums of the space test do not wrap; the capacity of the storage is any number that is at least its size.
- FeatureStore.FeatureStore.GetUserFeature: the generated vector is an arbitrary function of the id, and the hit rates in floating point are left out.
- Backpressure watermarks, metrics, logging, configuration, route matching and the balancer: input and output, or easy members.
- `LockFreeQueue::empty` and `size`: approximate by their own comment.
- The legacy read and write path, the older parsers and `memory/MemoryPool.cpp`: superseded code, or raw addresses.
- FIFO order of submissions: a small operation may overtake queued ones in the source.

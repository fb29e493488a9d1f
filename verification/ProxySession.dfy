/** One client connection: requests are read, forwarded and answered one after the other. What the
pool, the routes and the peers do is left open at every step. */
module ProxySession {
  import opened AsyncSocket
  import opened BodyPump
  import opened Buffer
  import opened HttpForwarding
  import opened HttpFramer
  import opened IoOperation
  import opened ProxyResponses
  import opened Sequences
  import opened Wrappers

  /** A request that was answered completely: its bytes from the client, what the upstream got for it,
  the bytes of the upstream's answer, and what the client got. */
  datatype Exchange = Exchange(
    headBytes: string, request: RequestHead, body: string, upstream: string,
    answer: string, keepAlive: bool, reply: string)

  /** Why a request that was read got no response of an upstream. */
  datatype Cause =
    | NoRoute
    | NoEndpoint
    | NotAcquired(error: Error)
    | HeadNotSent(error: Error)
    | BodyNotRead(error: Error)
    | BodyNotSent(error: Error)
    | NoResponse(error: Error)
    | BadResponse(parseError: HttpParseError)

  /** What routing, the balancer and the pool make of a request. */
  datatype Supply = Unrouted | Unavailable | Refusing(error: Error) | Connected

  /** The status that a request is answered with when it is given up. */
  function StatusOf(cause: Cause): (status: nat)
    ensures status in OWN_STATUSES
  {
    match cause
    case NoRoute => 404
    case NoEndpoint => 503
    case NotAcquired(e) => if e.code == TimedOut then 504 else if e.code == ResourceExhausted then 503 else 502
    case HeadNotSent(e) => if e.code == TimedOut then 504 else 502
    case BodyNotRead(e) => BodyStatus(InBody(e))
    case BodyNotSent(e) => BodyStatus(e)
    case NoResponse(e) => if e.code == TimedOut then 504 else 502
    case BadResponse(_) => 502
  }

  function BodyStatus(e: Error): nat {
    if e.code == TimedOut then 504 else if e.code == Protocol then 400 else 502
  }

  /** How the run of a session ended, if it did not end between two requests: at bytes that are no
  request, at a request before its response was started, or in the middle of the response. */
  datatype Ending =
    | Open
    | Refused(bytes: string, error: Error, status: nat, reply: string)
    | Failed(headBytes: string, request: RequestHead, stream: string, upstream: string,
             answer: string, cause: Cause, status: nat, reply: string)
    | Cut(headBytes: string, request: RequestHead, stream: string, upstream: string,
          answer: string, keepAlive: bool, reply: string)

  ghost predicate RequestOk(headBytes: string, request: RequestHead, limits: HttpLimits) {
    ParseRequest(headBytes, limits) == Complete(request, |headBytes|)
  }

  /** The upstream got the forwarded head and the body, all of it. The client got the head of the
  answer, with the connection header for both sides, and the body of the answer. */
  ghost predicate ExchangeOk(e: Exchange, limits: HttpLimits) {
    var p := ParseResponse(e.answer, limits);
    && RequestOk(e.headBytes, e.request, limits)
    && |e.body| == e.request.contentLength && e.upstream == e.request.forwardHead + e.body
    && p.Complete? && p.headerBytes <= |e.answer| && |e.answer| == p.headerBytes + p.head.contentLength
    && e.keepAlive == (e.request.keepAlive && p.head.keepAlive)
    && e.reply == NormalizeConnection(p.head.forwardHead, e.keepAlive) + e.answer[p.headerBytes..]
  }

  /** The received bytes begin with the complete head of a response. */
  ghost predicate HeadOf(answer: string, response: ResponseHead, limits: HttpLimits) {
    var p := ParseResponse(answer, limits);
    p.Complete? && p.head == response && p.headerBytes <= |answer|
  }

  /** What has been received behind the head that is at the front of `answer`. */
  ghost function BodyOf(answer: string, received: string, limits: HttpLimits): string
    requires answer <= received && ParseResponse(answer, limits).Complete?
    requires ParseResponse(answer, limits).headerBytes <= |answer|
  {
    received[ParseResponse(answer, limits).headerBytes..]
  }

  /** What the client gets of a response with this head, of whose body `body` has arrived. */
  ghost function Relayed(response: ResponseHead, keepAlive: bool, body: string): string {
    NormalizeConnection(response.forwardHead, keepAlive) + Take(body, response.contentLength)
  }

  /** The upstream got a front part of the forwarded head and the body, and never answered with a
  complete head. The client got a front part of one error response. */
  ghost predicate FailedOk(e: Ending, limits: HttpLimits)
    requires e.Failed?
  {
    && RequestOk(e.headBytes, e.request, limits)
    && e.upstream <= e.request.forwardHead + Take(e.stream, e.request.contentLength)
    && !ParseResponse(e.answer, limits).Complete?
    && (e.cause.BadResponse? ==> ParseResponse(e.answer, limits) == Malformed(e.cause.parseError))
    && e.status == StatusOf(e.cause) && e.reply <= ErrorResponse(e.status)
  }

  /** The upstream got the whole request and answered with a complete head. The client got a front part
  of the rewritten head and of the body that has arrived behind it, and nothing else. */
  ghost predicate CutOk(e: Ending, limits: HttpLimits)
    requires e.Cut?
  {
    var p := ParseResponse(e.answer, limits);
    && RequestOk(e.headBytes, e.request, limits) && e.request.contentLength <= |e.stream|
    && e.upstream == e.request.forwardHead + e.stream[..e.request.contentLength]
    && p.Complete? && p.headerBytes <= |e.answer| && e.keepAlive == (e.request.keepAlive && p.head.keepAlive)
    && e.reply <= Relayed(p.head, e.keepAlive, e.answer[p.headerBytes..])
  }

  /** What could not be read is answered with a front part of the error response for its error. */
  ghost predicate RefusedOk(e: Ending, limits: HttpLimits)
    requires e.Refused?
  {
    var p := ParseRequest(e.bytes, limits);
    && !p.Complete? && e.status == RequestErrorStatus(e.error) && e.status in OWN_STATUSES
    && (p.Malformed? ==> e.error == ParserError(p.error)) && e.reply <= ErrorResponse(e.status)
  }

  ghost predicate EndingOk(e: Ending, limits: HttpLimits) {
    && (e.Refused? ==> RefusedOk(e, limits))
    && (e.Failed? ==> FailedOk(e, limits))
    && (e.Cut? ==> CutOk(e, limits))
  }

  ghost function Consumed(exchanges: seq<Exchange>): string {
    if exchanges == [] then ""
    else
      var last := exchanges[|exchanges| - 1];
      Consumed(exchanges[..|exchanges| - 1]) + (last.headBytes + last.body)
  }

  ghost function Replies(exchanges: seq<Exchange>): string {
    if exchanges == [] then ""
    else Replies(exchanges[..|exchanges| - 1]) + exchanges[|exchanges| - 1].reply
  }

  ghost function ReplyOf(e: Ending): string {
    if e.Open? then "" else e.reply
  }

  /** The connection lives on after each of them. */
  ghost predicate AllAlive(exchanges: seq<Exchange>) {
    forall e :: e in exchanges ==> e.keepAlive
  }

  /** Complete exchanges, of which only the last one may announce the close; if it does, nothing else
  follows. */
  ghost predicate LogOk(exchanges: seq<Exchange>, ending: Ending, limits: HttpLimits) {
    && (forall e :: e in exchanges ==> ExchangeOk(e, limits)) && EndingOk(ending, limits)
    && (exchanges != [] ==> AllAlive(exchanges[..|exchanges| - 1]))
    && (!AllAlive(exchanges) ==> ending.Open?)
  }

  /** The log against the sockets: the upstream of each exchange got what the log says, and sent the
  answer the log says. A request that was given up may have had no upstream. */
  ghost predicate PeersOk(peers: seq<Socket>, exchanges: seq<Exchange>, ending: Ending)
    reads peers
  {
    var n := |exchanges|;
    && n <= |peers| && ExchangePeers(peers[..n], exchanges)
    && (ending.Open? || ending.Refused? ==> |peers| == n)
    && (ending.Failed? && |peers| == n ==> ending.upstream == ending.answer == "")
    && (ending.Failed? && |peers| > n ==>
          |peers| == n + 1 && ending.upstream == peers[n].sent && ending.answer == peers[n].received)
    && (ending.Cut? ==>
          |peers| == n + 1 && ending.upstream == peers[n].sent && ending.answer == peers[n].received)
  }

  ghost predicate ExchangePeers(peers: seq<Socket>, exchanges: seq<Exchange>)
    reads peers
  {
    && |peers| == |exchanges|
    && forall i :: 0 <= i < |peers| ==>
         exchanges[i].upstream == peers[i].sent && exchanges[i].answer <= peers[i].received
  }

  /** The errors of the sockets against the log: no socket failed in a complete exchange. */
  ghost predicate FaultsOk(peers: seq<Socket>, exchanges: seq<Exchange>, ending: Ending, client: seq<Error>,
                           limits: HttpLimits)
    reads peers
  {
    var n := |exchanges|;
    && n <= |peers| && (forall i :: 0 <= i < n ==> peers[i].faults == [])
    && EndFaults(ending, if |peers| > n then peers[n].faults else [], client, limits)
  }

  /** What gave a request up is what its upstream reported, or the first error of the client. The client got
  all of the error response, or sending it failed. */
  ghost predicate EndFaults(ending: Ending, upstream: seq<Error>, client: seq<Error>, limits: HttpLimits) {
    && (ending.Refused? ==> ReplyFaults(ending, RefusalFaults(ending, limits), client))
    && (ending.Failed? ==>
          ReplyFaults(ending, GivenUpFaults(ending.cause), client) && UpstreamFaults(ending.cause) == upstream)
    && (ending.Cut? ==> client != [] || upstream != [])
  }

  /** The client's errors are these, and one more unless it got the whole error response. */
  ghost predicate ReplyFaults(ending: Ending, before: seq<Error>, client: seq<Error>)
    requires ending.Refused? || ending.Failed?
  {
    || (client == before && ending.status in OWN_STATUSES && ending.reply == ErrorResponse(ending.status))
    || (exists e :: client == before + [e])
  }

  /** What the client's socket reported before bytes were refused, and before a request was given up. */
  ghost function RefusalFaults(ending: Ending, limits: HttpLimits): seq<Error>
    requires ending.Refused?
  {
    if ParseRequest(ending.bytes, limits).Malformed? then [] else [ending.error]
  }

  ghost function GivenUpFaults(cause: Cause): seq<Error> {
    if cause.BodyNotRead? then [cause.error] else []
  }

  /** What the upstream socket reported, if there was one. */
  ghost function UpstreamFaults(cause: Cause): seq<Error> {
    if cause.HeadNotSent? || cause.BodyNotSent? || cause.NoResponse? then [cause.error] else []
  }

  /** The connections that go back to the pool for reuse are those of the exchanges with keep-alive. */
  ghost predicate KeptOk(kept: set<Socket>, peers: seq<Socket>, exchanges: seq<Exchange>) {
    && |exchanges| <= |peers| && (forall s :: s in kept ==> s in peers)
    && forall i :: 0 <= i < |peers| ==> (peers[i] in kept <==> i < |exchanges| && exchanges[i].keepAlive)
  }

  lemma LogGrows(exchanges: seq<Exchange>, e: Exchange, limits: HttpLimits)
    requires LogOk(exchanges, Open, limits) && AllAlive(exchanges) && ExchangeOk(e, limits)
    ensures LogOk(exchanges + [e], Open, limits) && AllAlive(exchanges + [e]) == e.keepAlive
    ensures Consumed(exchanges + [e]) == Consumed(exchanges) + (e.headBytes + e.body)
    ensures Replies(exchanges + [e]) == Replies(exchanges) + e.reply
  {
    assert (exchanges + [e])[..|exchanges|] == exchanges;
  }

  class ProxySession {
    const downstream: Socket
    const limits: HttpLimits
    const downstreamInput: Buffer<char>
    const upstreamInput: Buffer<char>
    var responseStarted: bool
    ghost var exchanges: seq<Exchange>
    ghost var ending: Ending
    /** The upstream socket of each request that got one, in the order of the requests. */
    ghost var peers: seq<Socket>
    /** The upstream sockets whose lease was marked reusable. */
    var kept: set<Socket>

    constructor (downstream: Socket, limits: HttpLimits)
      requires downstream.received == downstream.sent == "" && downstream.faults == []
      ensures Valid() && Idle() && exchanges == [] && this.downstream == downstream && this.limits == limits
      ensures fresh(downstreamInput) && fresh(upstreamInput)
      ensures fresh(downstreamInput.buffer) && fresh(upstreamInput.buffer)
    {
      this.downstream, this.limits := downstream, limits;
      downstreamInput := new Buffer(1024);
      upstreamInput := new Buffer(1024);
      responseStarted, exchanges, ending, peers, kept := false, [], Open, [], {};
    }

    ghost predicate BuffersOk()
      reads downstreamInput, upstreamInput
    {
      && downstreamInput != upstreamInput && downstreamInput.buffer != upstreamInput.buffer
      && downstreamInput.Valid() && upstreamInput.Valid()
    }

    /** What the client sent is what was used for exchanges, and what is buffered or was abandoned. */
    ghost predicate InOk()
      reads this`exchanges, this`ending, downstream`received, downstreamInput, downstreamInput.buffer
      requires downstreamInput.Valid()
    {
      && downstream.received == Consumed(exchanges) +
        (if ending.Failed? || ending.Cut? then ending.headBytes + ending.stream else downstreamInput.Contents())
      && (ending.Refused? ==> ending.bytes == downstreamInput.Contents())
    }

    /** What the client got is the replies in the order of the requests, and one last part of a response. */
    ghost predicate OutOk()
      reads this`exchanges, this`ending, downstream`sent
    {
      downstream.sent == Replies(exchanges) + ReplyOf(ending)
    }

    ghost predicate Valid()
      reads this, downstream, downstreamInput, downstreamInput.buffer, upstreamInput, peers
    {
      && BuffersOk() && |downstreamInput.Contents()| <= limits.maxHeaderBytes
      && InOk() && OutOk() && LogOk(exchanges, ending, limits)
      && downstream !in peers && PeersOk(peers, exchanges, ending) && KeptOk(kept, peers, exchanges)
      && FaultsOk(peers, exchanges, ending, downstream.faults, limits)
    }

    /** Between two requests. */
    ghost predicate Idle()
      reads this, downstream`faults
    {
      ending.Open? && AllAlive(exchanges) && downstream.faults == []
    }

    /** What the client sent behind the head of the current request. */
    ghost function Stream(headBytes: string): string
      reads this`exchanges, downstream`received
      requires Consumed(exchanges) + headBytes <= downstream.received
    {
      downstream.received[|Consumed(exchanges) + headBytes|..]
    }

    /** A request has been read. */
    ghost predicate RequestRead(headBytes: string, request: RequestHead)
      reads this, downstream`received, downstreamInput, downstreamInput.buffer, upstreamInput
    {
      && BuffersOk() && |downstreamInput.Contents()| <= limits.maxHeaderBytes
      && ending.Open? && AllAlive(exchanges) && LogOk(exchanges, Open, limits) && RequestOk(headBytes, request, limits)
      && Consumed(exchanges) + headBytes <= downstream.received
    }

    /** A request has been read, and nothing has been answered to it. */
    ghost predicate InRequest(headBytes: string, request: RequestHead)
      reads this, downstream, downstreamInput, downstreamInput.buffer, upstreamInput
    {
      RequestRead(headBytes, request) && downstream.sent == Replies(exchanges)
    }

    /** The sockets of the earlier requests, of which `marked` are marked reusable, fit the log. */
    ghost predicate SettledWith(marked: set<Socket>)
      reads this`exchanges, this`peers, peers
    {
      && downstream !in peers && PeersOk(peers, exchanges, Open) && KeptOk(marked, peers, exchanges)
      && forall i :: 0 <= i < |exchanges| ==> peers[i].faults == []
    }

    ghost predicate Settled()
      reads this`exchanges, this`peers, this`kept, peers
    {
      SettledWith(kept)
    }

    /** A socket of its own for the current request. */
    ghost predicate Apart(upstream: Socket)
      reads this`peers
    {
      upstream != downstream && upstream !in peers
    }

    /** What became of the request that was read after the exchanges `before`: one more exchange, or the
    end of the session. */
    ghost predicate Handled(before: seq<Exchange>, headBytes: string, request: RequestHead)
      reads this`exchanges, this`ending
    {
      if ending.Open? then
        && |exchanges| == |before| + 1 && before <= exchanges
        && exchanges[|before|].headBytes == headBytes && exchanges[|before|].request == request
      else
        exchanges == before && !ending.Refused? && ending.headBytes == headBytes && ending.request == request
    }

    /** Sends an error response, unless a response has been started; a front part of it may get out. */
    method SendError(status: nat) returns (r: Result<nat, Error>, ghost reply: string)
      requires status in OWN_STATUSES
      modifies this`responseStarted, downstream`sent, downstream`faults
      ensures responseStarted && downstream.sent == old(downstream.sent) + reply
      ensures old(responseStarted) ==> r.Failure? && reply == "" && downstream.faults == old(downstream.faults)
      ensures reply <= ErrorResponse(status)
      ensures r.Success? ==> reply == ErrorResponse(status) && downstream.faults == old(downstream.faults)
      ensures r.Failure? && !old(responseStarted) ==> downstream.faults == old(downstream.faults) + [r.error]
    {
      hide ErrorResponse;
      ghost var before := downstream.sent;
      if responseStarted {
        return Failure(Error(Protocol, 0)), "";
      }
      responseStarted := true;
      r := downstream.WriteAll(ErrorResponse(status));
      reply := downstream.sent[|before|..];
      assert downstream.sent <= before + ErrorResponse(status);
    }

    /** Answers a request that could not be read. */
    method Refuse(error: Error)
      requires Valid() && ending.Open? && AllAlive(exchanges) && !responseStarted
      requires var p := ParseRequest(downstreamInput.Contents(), limits);
        && !p.Complete? && (p.Malformed? ==> error == ParserError(p.error))
        && downstream.faults == if p.Malformed? then [] else [error]
      modifies this`responseStarted, this`ending, downstream`sent, downstream`faults
      ensures Valid() && ending.Refused? && ending.error == error && ending.status == RequestErrorStatus(error)
      ensures ending.bytes == downstreamInput.Contents()
    {
      hide ParseRequest, ErrorResponse, RequestErrorStatus, ExchangePeers, KeptOk, AllAlive, Consumed, Replies;
      var status := RequestErrorStatus(error);
      OwnStatus(error);
      var r, reply := SendError(status);
      ending := Refused(downstreamInput.Contents(), error, status, reply);
    }

    lemma OwnStatus(error: Error)
      ensures RequestErrorStatus(error) in OWN_STATUSES
    {
    }

    /** Gives up a request with an error response, for a cause that the sockets bear out. There may have been
    an upstream, which got a part of the request and sent no complete head. */
    method FailWith(status: nat, request: RequestHead, ghost headBytes: string, ghost upstream: Socket?,
                    ghost cause: Cause)
      requires InRequest(headBytes, request) && Settled() && !responseStarted && status == StatusOf(cause)
      requires downstream.faults == GivenUpFaults(cause)
      requires UpstreamFaults(cause) == if upstream == null then [] else upstream.faults
      requires upstream != null ==>
        && Apart(upstream) && !ParseResponse(upstream.received, limits).Complete?
        && upstream.sent <= request.forwardHead + Take(Stream(headBytes), request.contentLength)
      requires cause.BadResponse? ==>
        upstream != null && ParseResponse(upstream.received, limits) == Malformed(cause.parseError)
      modifies this`responseStarted, this`ending, this`peers, downstream`sent, downstream`faults
      ensures Valid() && ending.Failed? && Handled(old(exchanges), headBytes, request)
      ensures peers == if upstream == null then old(peers) else old(peers) + [upstream]
      ensures ending.cause == cause && ending.status == status
      ensures downstream.sent <= old(downstream.sent) + ErrorResponse(status)
    {
      hide RequestOk, ParseResponse, ErrorResponse, LogOk, ExchangePeers, AllAlive, Consumed, Replies, StatusOf;
      hide FaultsOk, KeptOk;
      var r, reply := SendError(status);
      ghost var sent := if upstream == null then "" else upstream.sent;
      ghost var answer := if upstream == null then "" else upstream.received;
      NothingIsNoHead(limits);
      ending := Failed(headBytes, request, Stream(headBytes), sent, answer, cause, status, reply);
      GiveUp(headBytes, request);
      Involve(upstream);
    }

    /** Adds the socket of a request that was given up. */
    ghost method Involve(upstream: Socket?)
      requires Settled() && (upstream != null ==> Apart(upstream))
      requires ending.Failed? || ending.Cut?
      requires upstream == null ==> ending.Failed? && ending.upstream == ending.answer == ""
      requires upstream != null ==> ending.upstream == upstream.sent && ending.answer == upstream.received
      requires ending.Failed? ==> ending.status in OWN_STATUSES
      requires EndFaults(ending, if upstream == null then [] else upstream.faults, downstream.faults, limits)
      modifies this`peers
      ensures downstream !in peers && PeersOk(peers, exchanges, ending) && KeptOk(kept, peers, exchanges)
      ensures FaultsOk(peers, exchanges, ending, downstream.faults, limits)
      ensures peers == if upstream == null then old(peers) else old(peers) + [upstream]
    {
      hide ExchangePeers;
      if upstream != null {
        peers := peers + [upstream];
        assert peers[..|exchanges|] == old(peers) == old(peers)[..|exchanges|];
      }
    }

    /** Sends the head and the body of the request upstream; an error comes with the status to answer, and is
    one of the upstream, or one of the client that kept its body back. */
    method Upload(request: RequestHead, upstream: Socket, ghost headBytes: string)
      returns (status: Option<nat>, ghost cause: Cause)
      requires InRequest(headBytes, request) && downstreamInput.Contents() == Stream(headBytes)
      requires upstream != downstream && upstream.sent == "" && upstream.faults == downstream.faults == []
      modifies downstream`received, downstream`faults, downstreamInput`readIndex, upstream`sent, upstream`faults
      ensures InRequest(headBytes, request)
      ensures upstream.sent <= request.forwardHead + Take(Stream(headBytes), request.contentLength)
      ensures status.Some? ==> UploadFailed(status.value, cause, upstream)
      ensures status.None? ==> Answering(headBytes, request, upstream) && upstream.faults == downstream.faults == []
    {
      hide LogOk, RequestOk;
      var writeHead := upstream.WriteAll(request.forwardHead);
      if writeHead.Failure? {
        return Some(if writeHead.error.code == TimedOut then 504 else 502), HeadNotSent(writeHead.error);
      }
      status, cause := UploadBody(request, upstream, headBytes);
    }

    /** The upload failed for this cause, with the status that belongs to it. */
    ghost predicate UploadFailed(status: nat, cause: Cause, upstream: Socket)
      reads upstream`faults, downstream`faults
    {
      && (cause.HeadNotSent? || cause.BodyNotRead? || cause.BodyNotSent?) && status == StatusOf(cause)
      && upstream.faults == UpstreamFaults(cause) && downstream.faults == GivenUpFaults(cause)
    }

    method UploadBody(request: RequestHead, upstream: Socket, ghost headBytes: string)
      returns (status: Option<nat>, ghost cause: Cause)
      requires InRequest(headBytes, request) && downstreamInput.Contents() == Stream(headBytes)
      requires upstream != downstream && upstream.sent == request.forwardHead
      requires upstream.faults == downstream.faults == []
      modifies downstream`received, downstream`faults, downstreamInput`readIndex, upstream`sent, upstream`faults
      ensures InRequest(headBytes, request)
      ensures upstream.sent <= request.forwardHead + Take(Stream(headBytes), request.contentLength)
      ensures status.Some? ==> UploadFailed(status.value, cause, upstream)
      ensures status.None? ==> Answering(headBytes, request, upstream) && upstream.faults == downstream.faults == []
    {
      hide LogOk, RequestOk, AllAlive;
      ghost var start := Consumed(exchanges) + headBytes;
      ghost var before := downstream.received;
      var upload := StreamExact(downstream, downstreamInput, upstream, request.contentLength);
      ReadOn("", start, before, downstream.received);
      if upload.Failure? {
        status := Some(
          if upload.error.code == TimedOut then 504 else if upload.error.code == Protocol then 400 else 502);
        cause := BodyCause(upload.error, upstream);
        return;
      }
      return None, NoRoute;
    }

    /** The one fault of an upload is a cause. */
    ghost method BodyCause(error: Error, upstream: Socket) returns (cause: Cause)
      requires OneFault([], downstream.faults, [], upstream.faults, error)
      ensures UploadFailed(BodyStatus(error), cause, upstream)
    {
      if downstream.faults == [] {
        cause := BodyNotSent(error);
      } else {
        var e :| downstream.faults == [] + [e] && error == InBody(e);
        cause := BodyNotRead(e);
      }
    }

    /** Everything the upstream needs has been sent; the next request is untouched in the buffer. */
    ghost predicate Answering(headBytes: string, request: RequestHead, upstream: Socket)
      reads this, downstream`received, downstreamInput, downstreamInput.buffer, upstreamInput, upstream`sent
    {
      && RequestRead(headBytes, request) && request.contentLength <= |Stream(headBytes)|
      && downstreamInput.Contents() == Stream(headBytes)[request.contentLength..]
      && upstream.sent == request.forwardHead + Stream(headBytes)[..request.contentLength]
    }

    /** The head of the response has been read; it is at the front of `answer`. */
    ghost predicate Relaying(headBytes: string, request: RequestHead, upstream: Socket, answer: string,
                             response: ResponseHead, keepAlive: bool)
      reads this, downstream`received, downstreamInput, downstreamInput.buffer, upstreamInput, upstream
    {
      && Answering(headBytes, request, upstream) && answer <= upstream.received
      && keepAlive == (request.keepAlive && response.keepAlive) && HeadOf(answer, response, limits)
    }

    /** Relays the response whose head has been read: the client gets the rewritten head and the
    announced body, or a front part of them. Only with a connection that lives on for both sides there
    will be another request. */
    method Download(request: RequestHead, response: ResponseHead, upstream: Socket, ghost headBytes: string)
      returns (again: bool)
      requires Answering(headBytes, request, upstream) && downstream.sent == Replies(exchanges)
      requires upstream.faults == downstream.faults == []
      requires Settled() && Apart(upstream) && HeadOf(upstream.received, response, limits)
      requires upstreamInput.Contents() == BodyOf(upstream.received, upstream.received, limits)
      modifies this`responseStarted, this`exchanges, this`ending, this`peers, this`kept, downstream`sent
      modifies downstream`faults, upstream`received, upstream`faults, upstreamInput`readIndex
      ensures Valid() && Handled(old(exchanges), headBytes, request) && peers == old(peers) + [upstream]
      ensures old(upstream.received) <= upstream.received && (ending.Open? || ending.Cut?)
      ensures ending.Open? <==> upstream.faults == downstream.faults == []
      ensures var body := BodyOf(old(upstream.received), upstream.received, limits);
        var all := Relayed(response, request.keepAlive && response.keepAlive, body);
        && old(downstream.sent) <= downstream.sent <= old(downstream.sent) + all
        && (ending.Open? ==> response.contentLength <= |body| && downstream.sent == old(downstream.sent) + all)
      ensures again <==> ending.Open? && request.keepAlive && response.keepAlive
      ensures kept == old(kept) + if again then {upstream} else {}
      ensures again <==> Idle()
    {
      hide LogOk, RequestOk, NormalizeConnection, ParseResponse, PeersOk, KeptOk, InOk;
      ghost var answer := upstream.received;
      var keepAlive := request.keepAlive && response.keepAlive;
      var head := NormalizeConnection(response.forwardHead, keepAlive);
      responseStarted := true;
      var downstreamHead := downstream.WriteAll(head);
      if downstreamHead.Failure? {
        FrontOf(Replies(exchanges), head, Take(BodyOf(answer, answer, limits), response.contentLength), downstream.sent);
        CutOff(headBytes, request, upstream, answer, response, keepAlive);
        return false;
      }
      again := DownloadBody(request, response, upstream, keepAlive, headBytes);
    }

    method DownloadBody(request: RequestHead, response: ResponseHead, upstream: Socket, keepAlive: bool,
                        ghost headBytes: string) returns (again: bool)
      requires Relaying(headBytes, request, upstream, upstream.received, response, keepAlive)
      requires Settled() && Apart(upstream) && upstream.faults == downstream.faults == []
      requires downstream.sent == Replies(exchanges) + NormalizeConnection(response.forwardHead, keepAlive)
      requires upstreamInput.Contents() == BodyOf(upstream.received, upstream.received, limits)
      modifies this`exchanges, this`ending, this`peers, this`kept, downstream`sent
      modifies downstream`faults, upstream`received, upstream`faults, upstreamInput`readIndex
      ensures Valid() && Handled(old(exchanges), headBytes, request) && peers == old(peers) + [upstream]
      ensures old(upstream.received) <= upstream.received && (ending.Open? || ending.Cut?)
      ensures ending.Open? <==> upstream.faults == downstream.faults == []
      ensures var body := BodyOf(old(upstream.received), upstream.received, limits);
        var all := Relayed(response, keepAlive, body);
        && old(Replies(exchanges)) <= downstream.sent <= old(Replies(exchanges)) + all
        && (ending.Open? ==> response.contentLength <= |body| && downstream.sent == old(Replies(exchanges)) + all)
      ensures again <==> ending.Open? && keepAlive
      ensures kept == old(kept) + if again then {upstream} else {}
      ensures again <==> Idle()
    {
      hide LogOk, RequestOk, NormalizeConnection, ParseResponse, PeersOk, FaultsOk, AllAlive, Consumed, Replies, Take;
      ghost var answer, replies := upstream.received, Replies(exchanges);
      var download := StreamExact(upstream, upstreamInput, downstream, response.contentLength);
      ghost var body := BodyOf(answer, upstream.received, limits);
      BodyReadOn(answer, upstream.received, ParseResponse(answer, limits).headerBytes);
      RelayedText(replies, response, keepAlive, body);
      if download.Failure? {
        CutOff(headBytes, request, upstream, answer, response, keepAlive);
        return false;
      }
      if keepAlive {
        MarkReusable(upstream);
      }
      FinishBody(headBytes, request, upstream, answer, response, keepAlive);
      return keepAlive;
    }

    method MarkReusable(upstream: Socket)
      requires Settled() && Apart(upstream)
      modifies this`kept
      ensures kept == old(kept) + {upstream} && SettledWith(kept - {upstream})
    {
      kept := kept + {upstream};
      assert kept - {upstream} == old(kept);
    }

    /** Gives up a request when its response has been started. */
    ghost method CutOff(headBytes: string, request: RequestHead, upstream: Socket, answer: string,
                        response: ResponseHead, keepAlive: bool)
      requires Relaying(headBytes, request, upstream, answer, response, keepAlive) && Settled() && Apart(upstream)
      requires upstream.faults != [] || downstream.faults != []
      requires Replies(exchanges) <= downstream.sent
        <= Replies(exchanges) + Relayed(response, keepAlive, BodyOf(answer, upstream.received, limits))
      modifies this`ending, this`peers
      ensures Valid() && ending.Cut? && Handled(old(exchanges), headBytes, request) && peers == old(peers) + [upstream]
    {
      hide LogOk, RequestOk, Relayed, ParseResponse, PeersOk, Consumed, Replies;
      var part := downstream.sent[|Replies(exchanges)|..];
      StillHead(answer, upstream.received, response, limits);
      ending := Cut(headBytes, request, Stream(headBytes), upstream.sent, upstream.received, keepAlive, part);
      GiveUp(headBytes, request);
      Involve(upstream);
    }

    /** A complete response is out. */
    ghost method FinishBody(headBytes: string, request: RequestHead, upstream: Socket, answer: string,
                            response: ResponseHead, keepAlive: bool)
      requires Relaying(headBytes, request, upstream, answer, response, keepAlive) && Apart(upstream)
      requires upstream.faults == downstream.faults == []
      requires SettledWith(kept - {upstream}) && (upstream in kept <==> keepAlive)
      requires response.contentLength <= |BodyOf(answer, upstream.received, limits)|
      requires downstream.sent ==
        Replies(exchanges) + Relayed(response, keepAlive, BodyOf(answer, upstream.received, limits))
      modifies this`exchanges, this`peers
      ensures Valid() && ending.Open? && Handled(old(exchanges), headBytes, request)
      ensures (Idle() <==> keepAlive) && peers == old(peers) + [upstream]
    {
      hide LogOk, RequestOk, ExchangeOk, NormalizeConnection, ParseResponse, PeersOk, AllAlive, Consumed, Replies;
      var n := ParseResponse(answer, limits).headerBytes;
      var whole := upstream.received[..n + response.contentLength];
      AnswerParses(answer, n, upstream.received, response.contentLength, limits);
      assert whole[n..] == BodyOf(answer, upstream.received, limits)[..response.contentLength];
      var e := Exchange(headBytes, request, Stream(headBytes)[..request.contentLength], upstream.sent,
                        whole, keepAlive, Relayed(response, keepAlive, BodyOf(answer, upstream.received, limits)));
      Concluded(e, n, response, limits);
      Conclude(headBytes, request, upstream, e);
    }

    ghost method Conclude(headBytes: string, request: RequestHead, upstream: Socket, e: Exchange)
      requires Answering(headBytes, request, upstream) && Apart(upstream) && ExchangeOk(e, limits)
      requires upstream.faults == downstream.faults == []
      requires SettledWith(kept - {upstream}) && (upstream in kept <==> e.keepAlive)
      requires e.headBytes == headBytes && e.request == request && e.body == Stream(headBytes)[..request.contentLength]
      requires e.upstream == upstream.sent && e.answer <= upstream.received
      requires downstream.sent == Replies(exchanges) + e.reply
      modifies this`exchanges, this`peers
      ensures Valid() && ending.Open? && exchanges == old(exchanges) + [e] && (Idle() <==> e.keepAlive)
      ensures peers == old(peers) + [upstream]
    {
      hide RequestOk, ExchangeOk, PeersOk, LogOk, AllAlive, Consumed, Replies;
      LogGrows(exchanges, e, limits);
      PeersGrow(peers, exchanges, upstream, e);
      KeptGrow(kept, peers, exchanges, upstream, e);
      ConsumedGrows(downstream.received, Consumed(exchanges), e.headBytes, e.body, downstreamInput.Contents());
      RepliesGrow(Replies(exchanges), e.reply);
      exchanges, peers := exchanges + [e], peers + [upstream];
    }

    /** The log of a session that ends at this request. */
    lemma GiveUp(headBytes: string, request: RequestHead)
      requires AllAlive(exchanges) && LogOk(exchanges, Open, limits)
      requires Consumed(exchanges) + headBytes <= downstream.received && downstreamInput.Valid()
      requires ending.Failed? || ending.Cut?
      requires ending.headBytes == headBytes && ending.stream == Stream(headBytes) && EndingOk(ending, limits)
      ensures LogOk(exchanges, ending, limits) && InOk()
    {
      hide RequestOk, ExchangeOk, EndingOk, Consumed;
      var received, start := downstream.received, Consumed(exchanges) + headBytes;
      assert received == start + Stream(headBytes);
    }

    /** Reads the head of the response to a request that has been sent. */
    method AwaitResponse(request: RequestHead, upstream: Socket, ghost headBytes: string) returns (again: bool)
      requires InRequest(headBytes, request) && Answering(headBytes, request, upstream) && !responseStarted
      requires Settled() && Apart(upstream) && upstream.received == "" && upstream.faults == downstream.faults == []
      modifies this`responseStarted, this`exchanges, this`ending, this`peers, this`kept, downstream`sent
      modifies downstream`faults, upstream`received, upstream`faults, upstreamInput, upstreamInput.buffer
      ensures Valid() && Handled(old(exchanges), headBytes, request) && peers == old(peers) + [upstream]
      ensures again <==> Idle()
      ensures ending.Failed? ==> ending.cause.NoResponse? || ending.cause.BadResponse?
      ensures upstreamInput.buffer == old(upstreamInput.buffer) || fresh(upstreamInput.buffer)
    {
      hide LogOk, RequestOk, ParseResponse, PeersOk, KeptOk, FaultsOk, InOk, OutOk, AllAlive;
      upstreamInput.Reset();
      var response := ReadResponseHead(upstream, upstreamInput, limits);
      assert "" + NewlyRead(upstream, "") == upstream.received;
      if response.Failure? {
        GiveUpUnanswered(response.error, request, upstream, headBytes);
        return false;
      }
      again := Download(request, response.value, upstream, headBytes);
    }

    /** Gives up a request to which the upstream sent no head of a response, or a wrong one. */
    method GiveUpUnanswered(error: Error, request: RequestHead, upstream: Socket, ghost headBytes: string)
      requires InRequest(headBytes, request) && Answering(headBytes, request, upstream) && !responseStarted
      requires Settled() && Apart(upstream) && downstream.faults == []
      requires var p := ParseResponse(upstream.received, limits);
        && !p.Complete? && (p.Malformed? ==> error == ParserError(p.error))
        && upstream.faults == if p.Malformed? then [] else [error]
      modifies this`responseStarted, this`ending, this`peers, downstream`sent, downstream`faults
      ensures Valid() && Handled(old(exchanges), headBytes, request) && peers == old(peers) + [upstream]
      ensures ending.Failed? && (ending.cause.NoResponse? || ending.cause.BadResponse?)
    {
      hide RequestRead, ParseResponse, SettledWith, Valid, Handled, Take;
      var status := if error.code == TimedOut then 504 else 502;
      ghost var p := ParseResponse(upstream.received, limits);
      FrontOfRequest(headBytes, request, upstream);
      FailWith(status, request, headBytes, upstream, if p.Malformed? then BadResponse(p.error) else NoResponse(error));
    }

    lemma FrontOfRequest(headBytes: string, request: RequestHead, upstream: Socket)
      requires Answering(headBytes, request, upstream)
      ensures Consumed(exchanges) + headBytes <= downstream.received
      ensures upstream.sent <= request.forwardHead + Take(Stream(headBytes), request.contentLength)
    {
      hide RequestOk, LogOk;
    }

    /** What the supply has to do with the cause for which a request was given up. */
    ghost predicate Supplied(supply: Supply)
      reads this`ending
    {
      match supply
      case Unrouted => ending.Failed? && ending.cause == NoRoute
      case Unavailable => ending.Failed? && ending.cause == NoEndpoint
      case Refusing(e) => ending.Failed? && ending.cause == NotAcquired(e)
      case Connected =>
        ending.Failed? ==> !ending.cause.NoRoute? && !ending.cause.NoEndpoint? && !ending.cause.NotAcquired?
    }

    /** Serves a request that has been read. Routes, endpoints and the pool may or may not provide an
    upstream connection. */
    method Serve(request: RequestHead, supply: Supply, ghost headBytes: string) returns (again: bool)
      requires InRequest(headBytes, request) && downstreamInput.Contents() == Stream(headBytes)
      requires Settled() && !responseStarted && downstream.faults == []
      modifies this`responseStarted, this`exchanges, this`ending, this`peers, this`kept, downstream
      modifies downstreamInput`readIndex, upstreamInput, upstreamInput.buffer
      ensures Valid() && Handled(old(exchanges), headBytes, request) && (again <==> Idle()) && Supplied(supply)
      ensures old(peers) <= peers && |peers| == |old(peers)| + if supply.Connected? then 1 else 0
      ensures upstreamInput.buffer == old(upstreamInput.buffer) || fresh(upstreamInput.buffer)
    {
      hide InRequest, Valid, Settled, Handled;
      if supply.Connected? {
        again := ServeConnected(request, headBytes);
      } else {
        GiveUpUnserved(request, supply, headBytes);
        again := false;
      }
    }

    method GiveUpUnserved(request: RequestHead, supply: Supply, ghost headBytes: string)
      requires InRequest(headBytes, request) && Settled() && !responseStarted && downstream.faults == []
      requires !supply.Connected?
      modifies this`responseStarted, this`ending, this`peers, downstream`sent, downstream`faults
      ensures Valid() && Handled(old(exchanges), headBytes, request) && !Idle() && Supplied(supply)
      ensures peers == old(peers)
    {
      hide InRequest, Valid, Settled, Handled;
      match supply
      case Unrouted => FailWith(404, request, headBytes, null, NoRoute);
      case Unavailable => FailWith(503, request, headBytes, null, NoEndpoint);
      case Refusing(e) =>
        var status := if e.code == TimedOut then 504 else if e.code == ResourceExhausted then 503 else 502;
        FailWith(status, request, headBytes, null, NotAcquired(e));
    }

    method ServeConnected(request: RequestHead, ghost headBytes: string) returns (again: bool)
      requires InRequest(headBytes, request) && downstreamInput.Contents() == Stream(headBytes)
      requires Settled() && !responseStarted && downstream.faults == []
      modifies this`responseStarted, this`exchanges, this`ending, this`peers, this`kept, downstream
      modifies downstreamInput`readIndex, upstreamInput, upstreamInput.buffer
      ensures Valid() && Handled(old(exchanges), headBytes, request) && (again <==> Idle()) && Supplied(Connected)
      ensures old(peers) <= peers && |peers| == |old(peers)| + 1
      ensures upstreamInput.buffer == old(upstreamInput.buffer) || fresh(upstreamInput.buffer)
    {
      hide RequestRead, Valid, SettledWith, Handled;
      var upstream := new Socket();
      again := Transact(request, upstream, headBytes);
    }

    /** Sends the request to an upstream and relays its response. */
    method Transact(request: RequestHead, upstream: Socket, ghost headBytes: string) returns (again: bool)
      requires InRequest(headBytes, request) && downstreamInput.Contents() == Stream(headBytes)
      requires Settled() && !responseStarted && downstream.faults == []
      requires Apart(upstream) && upstream.sent == upstream.received == "" && upstream.faults == []
      modifies this`responseStarted, this`exchanges, this`ending, this`peers, this`kept, downstream, upstream
      modifies downstreamInput`readIndex, upstreamInput, upstreamInput.buffer
      ensures Valid() && Handled(old(exchanges), headBytes, request) && (again <==> Idle()) && Supplied(Connected)
      ensures peers == old(peers) + [upstream]
      ensures upstreamInput.buffer == old(upstreamInput.buffer) || fresh(upstreamInput.buffer)
    {
      hide LogOk, RequestOk, PeersOk, KeptOk, FaultsOk, InOk, OutOk, AllAlive, StatusOf;
      var status, cause := Upload(request, upstream, headBytes);
      if status.Some? {
        NothingIsNoHead(limits);
        FailWith(status.value, request, headBytes, upstream, cause);
        return false;
      }
      again := AwaitResponse(request, upstream, headBytes);
    }

    /** What became of a turn that found these bytes in the buffer: a request that is complete there is
    answered or given up, bytes that are no request are refused, and otherwise more was read first. */
    twostate predicate Answered(buffered: string)
      reads this`exchanges, this`ending, downstream`faults
    {
      match ParseRequest(buffered, limits)
      case Complete(request, n) => n <= |buffered| && Handled(old(exchanges), buffered[..n], request)
      case Malformed(e) =>
        && exchanges == old(exchanges) && ending.Refused? && ending.bytes == buffered
        && ending.error == ParserError(e)
      case NeedMore =>
        || (exists headBytes, request :: Handled(old(exchanges), headBytes, request))
        || (exchanges == old(exchanges) && ending.Refused?)
        || (exchanges == old(exchanges) && ending.Open? && ClientLeft())
    }

    /** The client's socket reported its end, or that the session was cancelled, between two requests. */
    ghost predicate ClientLeft()
      reads downstream`faults
    {
      |downstream.faults| == 1 && downstream.faults[0].code in {Eof, Cancelled}
    }

    /** One turn of the session: one request, or the end. */
    method ServeOne(supply: Supply) returns (again: bool)
      requires Valid() && Idle()
      modifies this`responseStarted, this`exchanges, this`ending, this`peers, this`kept, downstream
      modifies downstreamInput, downstreamInput.buffer, upstreamInput, upstreamInput.buffer
      ensures Valid() && old(exchanges) <= exchanges && |exchanges| <= |old(exchanges)| + 1
      ensures again <==> Idle()
      ensures Answered(old(downstreamInput.Contents()))
      ensures ending.Open? && exchanges == old(exchanges) ==> ClientLeft()
      ensures ending.Failed? || ending.Cut? || |exchanges| > |old(exchanges)| ==> Supplied(supply)
      ensures old(peers) <= peers
      ensures downstreamInput.buffer == old(downstreamInput.buffer) || fresh(downstreamInput.buffer)
      ensures upstreamInput.buffer == old(upstreamInput.buffer) || fresh(upstreamInput.buffer)
    {
      hide LogOk, RequestOk, InOk, OutOk, ExchangePeers, Supplied, EndFaults, ParseRequest;
      responseStarted := false;
      var read, headBytes := NextRequest();
      if read.Failure? {
        if read.error.code != Eof && read.error.code != Cancelled {
          Refuse(read.error);
        }
        return false;
      }
      again := Serve(read.value, supply, headBytes);
    }

    method NextRequest() returns (read: Result<RequestHead, Error>, ghost headBytes: string)
      requires Valid() && Idle()
      modifies downstream`received, downstream`faults, downstreamInput, downstreamInput.buffer
      ensures downstreamInput.buffer == old(downstreamInput.buffer) || fresh(downstreamInput.buffer)
      ensures read.Failure? ==> Valid() && ending.Open? && AllAlive(exchanges)
      ensures read.Failure? ==> var p := ParseRequest(downstreamInput.Contents(), limits);
        && !p.Complete? && (p.Malformed? ==> read.error == ParserError(p.error))
        && downstream.faults == if p.Malformed? then [] else [read.error]
      ensures read.Success? ==> InRequest(headBytes, read.value) && downstreamInput.Contents() == Stream(headBytes)
      ensures read.Success? ==> downstream.faults == []
      ensures var before := old(downstreamInput.Contents());
        match ParseRequest(before, limits)
        case Complete(request, n) => read == Success(request) && n <= |before| && headBytes == before[..n]
        case Malformed(e) => read.Failure? && downstreamInput.Contents() == before
        case NeedMore => true
    {
      hide LogOk, ParseRequest, RequestOk, AllAlive, Replies, Consumed, PeersOk, KeptOk, FaultsOk;
      headBytes := "";
      ghost var buffered, before := downstreamInput.Contents(), downstream.received;
      read := ReadRequestHead(downstream, downstreamInput, limits);
      ghost var all := buffered + NewlyRead(downstream, before);
      assert downstream.received == Consumed(exchanges) + all;
      FaultsWhileOpen(peers, exchanges, [], downstream.faults, limits);
      if read.Success? {
        ghost var n := ParseRequest(all, limits).headerBytes;
        HeadParses(all, limits);
        headBytes := all[..n];
        SplitStream(downstream.received, Consumed(exchanges), all, n);
      }
      if !ParseRequest(buffered, limits).NeedMore? {
        assert all == buffered;
      }
    }

    /** Between any two turns: each upstream got exactly its request, as it reads it itself. */
    lemma PeersReadTheirRequests(i: nat, wide: HttpLimits)
      requires Valid() && i < |exchanges| && wide.maxBodyBytes == limits.maxBodyBytes
      requires wide.maxHeaderBytes >= |exchanges[i].headBytes| + 24
      ensures i < |peers| && exchanges[i].answer <= peers[i].received
      ensures var e, sent := exchanges[i], peers[i].sent;
        ParseRequest(sent, wide) == Complete(e.request, |sent| - |e.body|) && sent[|sent| - |e.body|..] == e.body
    {
      hide ParseRequest, ParseResponse, NormalizeConnection, InOk, OutOk, EndingOk, AllAlive;
      assert peers[..|exchanges|][i] == peers[i];
      UpstreamReadsTheRequest(exchanges[i], limits, wide);
    }

    /** Between any two turns: a connection is marked reusable exactly when it carried a complete exchange
    that both sides keep the connection after. The connection of a request that was given up never is. */
    lemma ReusedExactlyWhen(i: nat)
      requires Valid() && i < |peers|
      ensures i < |exchanges| ==> ParseResponse(exchanges[i].answer, limits).Complete?
      ensures peers[i] in kept <==>
        && i < |exchanges| && exchanges[i].request.keepAlive
        && ParseResponse(exchanges[i].answer, limits).head.keepAlive
    {
      hide ParseResponse, NormalizeConnection, InOk, OutOk, EndingOk, AllAlive, PeersOk;
      if i < |exchanges| {
        assert ExchangeOk(exchanges[i], limits);
      }
    }

    /** Between any two turns: what the client got splits into the responses of the exchanges and at most
    one more, which is all that the last request got. */
    lemma ClientReadsReplies(wide: HttpLimits)
      requires Valid() && wide.maxBodyBytes == limits.maxBodyBytes && wide.maxHeaderBytes >= |downstream.sent|
      ensures var found := SplitResponses(downstream.sent, wide);
        || found == ReplyList(exchanges)
        || (!ending.Open? && found == ReplyList(exchanges) + [ReplyOf(ending)])
    {
      hide LogOk, InOk, PeersOk, SplitResponses, Replies;
      OneResponseEach(exchanges, ending, limits, wide);
    }

    /** No socket failed: then every request that was read was answered in full, but for those that found no
    route, no endpoint or no connection, or whose upstream sent no head of a response. */
    lemma WithoutFaults()
      requires Valid() && downstream.faults == [] && forall s :: s in peers ==> s.faults == []
      ensures ending.Open? || (ending.Refused? && ParseRequest(ending.bytes, limits).Malformed?)
        || (ending.Failed?
            && (ending.cause.NoRoute? || ending.cause.NoEndpoint? || ending.cause.NotAcquired?
                || ending.cause.BadResponse?))
      ensures ending.Refused? || ending.Failed? ==>
        ending.status in OWN_STATUSES && ending.reply == ErrorResponse(ending.status)
    {
      hide LogOk, InOk, OutOk, ParseRequest, ErrorResponse;
    }

    /** A run of the turns of a plan: what supplies each request, or that the session is cancelled. It goes on
    until the plan is done, the session is cancelled, a response announces the close, the session has ended
    or the client has left. */
    method RunLoop(plan: seq<Option<Supply>>) returns (turns: nat)
      requires Valid() && Idle()
      modifies this`responseStarted, this`exchanges, this`ending, this`peers, this`kept, downstream
      modifies downstreamInput, downstreamInput.buffer, upstreamInput, upstreamInput.buffer
      ensures Valid() && old(exchanges) <= exchanges && old(peers) <= peers
      ensures turns <= |plan| && forall i :: 0 <= i < turns ==> plan[i].Some?
      ensures turns < |plan| ==> plan[turns].None? || !Idle()
      ensures |exchanges| - |old(exchanges)| <= turns
      ensures Idle() ==> |exchanges| == |old(exchanges)| + turns
      ensures |exchanges| < |old(exchanges)| + turns ==>
        |exchanges| == |old(exchanges)| + turns - 1 && (!ending.Open? || ClientLeft())
    {
      hide LogOk, InOk, OutOk, PeersOk, KeptOk, FaultsOk, AllAlive, Answered, Supplied;
      turns := 0;
      var again := true;
      while turns < |plan| && again && plan[turns].Some?
        invariant Valid() && old(exchanges) <= exchanges && old(peers) <= peers && (again <==> Idle())
        invariant turns <= |plan| && forall i :: 0 <= i < turns ==> plan[i].Some?
        invariant again ==> |exchanges| == |old(exchanges)| + turns
        invariant |exchanges| - |old(exchanges)| <= turns
        invariant |exchanges| < |old(exchanges)| + turns ==>
          |exchanges| == |old(exchanges)| + turns - 1 && (!ending.Open? || ClientLeft())
        invariant downstreamInput.buffer == old(downstreamInput.buffer) || fresh(downstreamInput.buffer)
        invariant upstreamInput.buffer == old(upstreamInput.buffer) || fresh(upstreamInput.buffer)
        decreases |plan| - turns
      {
        again := ServeOne(plan[turns].value);
        turns := turns + 1;
      }
    }
  }

  lemma ConsumedGrows(received: string, consumed: string, headBytes: string, body: string, rest: string)
    requires consumed + headBytes <= received
    requires var stream := received[|consumed + headBytes|..];
      |body| <= |stream| && body == stream[..|body|] && rest == stream[|body|..]
    ensures received == consumed + (headBytes + body) + rest
  {
    var stream := received[|consumed + headBytes|..];
    assert received == consumed + headBytes + stream && stream == body + rest;
  }

  lemma RepliesGrow(replies: string, reply: string)
    ensures replies + reply == replies + reply + ""
  {
  }

  lemma BodyReadOn(before: string, now: string, n: nat)
    requires before <= now && n <= |before|
    ensures now[n..] == before[n..] + now[|before|..]
  {
  }

  lemma RelayedText(front: string, response: ResponseHead, keepAlive: bool, body: string)
    ensures front + Relayed(response, keepAlive, body)
         == front + NormalizeConnection(response.forwardHead, keepAlive) + Take(body, response.contentLength)
    ensures response.contentLength <= |body| ==> Take(body, response.contentLength) == body[..response.contentLength]
  {
    hide NormalizeConnection;
  }

  lemma PeersGrow(peers: seq<Socket>, exchanges: seq<Exchange>, upstream: Socket, e: Exchange)
    requires PeersOk(peers, exchanges, Open) && e.upstream == upstream.sent && e.answer <= upstream.received
    ensures PeersOk(peers + [upstream], exchanges + [e], Open)
  {
    assert peers[..|exchanges|] == peers;
    assert (peers + [upstream])[..|exchanges + [e]|] == peers + [upstream];
  }

  lemma KeptGrow(kept: set<Socket>, peers: seq<Socket>, exchanges: seq<Exchange>, upstream: Socket, e: Exchange)
    requires KeptOk(kept - {upstream}, peers, exchanges) && |peers| == |exchanges|
    requires upstream !in peers && (upstream in kept <==> e.keepAlive)
    ensures KeptOk(kept, peers + [upstream], exchanges + [e])
  {
  }

  /** While the session goes on, the client's errors say nothing about the log. */
  lemma FaultsWhileOpen(peers: seq<Socket>, exchanges: seq<Exchange>, before: seq<Error>, client: seq<Error>,
                        limits: HttpLimits)
    requires FaultsOk(peers, exchanges, Open, before, limits)
    ensures FaultsOk(peers, exchanges, Open, client, limits)
  {
  }

  lemma NothingIsNoHead(limits: HttpLimits)
    ensures !ParseResponse("", limits).Complete?
  {
  }

  /** Later bytes do not change which head is at the front. */
  lemma StillHead(answer: string, received: string, response: ResponseHead, limits: HttpLimits)
    requires HeadOf(answer, response, limits) && answer <= received
    ensures HeadOf(received, response, limits)
    ensures ParseResponse(received, limits).headerBytes == ParseResponse(answer, limits).headerBytes
  {
    hide ParseResponse;
    ResponseVerdictIsStable(answer, received[|answer|..], limits);
    assert answer + received[|answer|..] == received;
  }

  lemma FrontOf(front: string, head: string, more: string, sent: string)
    requires sent <= front + head
    ensures sent <= front + (head + more)
  {
    assert front + (head + more) == front + head + more;
  }

  lemma SplitStream(stream: string, front: string, all: string, n: nat)
    requires stream == front + all && n <= |all|
    ensures front + all[..n] <= stream && stream[|front + all[..n]|..] == all[n..]
  {
    assert stream == front + all[..n] + all[n..];
  }

  lemma HeadParses(bytes: string, limits: HttpLimits)
    requires ParseRequest(bytes, limits).Complete?
    ensures var p := ParseRequest(bytes, limits);
      p.headerBytes <= |bytes| && RequestOk(bytes[..p.headerBytes], p.head, limits)
  {
    BlockAlone(bytes, limits);
    FoundIsHead(bytes, limits);
  }

  lemma Concluded(e: Exchange, n: nat, response: ResponseHead, limits: HttpLimits)
    requires RequestOk(e.headBytes, e.request, limits)
    requires |e.body| == e.request.contentLength && e.upstream == e.request.forwardHead + e.body
    requires ParseResponse(e.answer, limits) == Complete(response, n) && |e.answer| == n + response.contentLength
    requires e.keepAlive == (e.request.keepAlive && response.keepAlive)
    requires e.reply == NormalizeConnection(response.forwardHead, e.keepAlive) + e.answer[n..]
    ensures ExchangeOk(e, limits)
  {
  }

  /** The answer cut off behind its body still begins with the same head. */
  lemma AnswerParses(received: string, n: nat, now: string, length: nat, limits: HttpLimits)
    requires ParseResponse(received, limits).Complete? && ParseResponse(received, limits).headerBytes == n
    requires received <= now && n + length <= |now|
    ensures n <= |received| && ParseResponse(now[..n + length], limits) == ParseResponse(received, limits)
  {
    hide ParseResponse, FindBlock;
    ParsedIsFound(received, limits);
    BlockAlone(received, limits);
    assert n <= |received| by {
      FoundIsHead(received, limits);
    }
    BlockIsStable(received[..n], now[n..n + length], limits);
    assert now[..n + length] == received[..n] + now[n..n + length];
    SameBlockSameResponse(now[..n + length], received, limits);
  }

  lemma SameBlockSameResponse(a: string, b: string, limits: HttpLimits)
    requires FindBlock(a, limits) == FindBlock(b, limits)
    ensures ParseResponse(a, limits) == ParseResponse(b, limits)
  {
  }

  // ---------- What the two peers can read off the wire ----------

  /** What the upstream got for an exchange is again that request, with its body behind the head. */
  lemma UpstreamReadsTheRequest(e: Exchange, limits: HttpLimits, wide: HttpLimits)
    requires ExchangeOk(e, limits) && wide.maxBodyBytes == limits.maxBodyBytes
    requires wide.maxHeaderBytes >= |e.headBytes| + 24
    ensures ParseRequest(e.upstream, wide) == Complete(e.request, |e.upstream| - e.request.contentLength)
    ensures e.upstream[|e.upstream| - e.request.contentLength..] == e.body
  {
    hide ParseRequest, ParseResponse, NormalizeConnection;
    RequestForwardLength(e.headBytes, limits);
    RequestFixpoint(e.headBytes, limits, e.body, wide);
  }

  lemma ReplyIsOneResponse(e: Exchange, limits: HttpLimits)
    requires ExchangeOk(e, limits)
    ensures OneResponse(e.reply, e.keepAlive, limits)
  {
    hide ParseRequest, ParseResponse, NormalizeConnection, OneResponse;
    var p := ParseResponse(e.answer, limits);
    RelayedIsOneResponse(e.answer, limits, e.keepAlive, e.answer[p.headerBytes..]);
  }

  /** Whatever ends a session, the client got a front part of one response and not more. */
  lemma EndingIsOnePart(e: Ending, limits: HttpLimits)
    requires EndingOk(e, limits) && !e.Open?
    ensures PartOfResponse(e.reply, limits)
  {
    hide ParseRequest, ParseResponse, NormalizeConnection, PartOfResponse, ErrorResponse, RequestOk;
    if e.Cut? {
      var p := ParseResponse(e.answer, limits);
      CutResponse(e.answer, limits, e.keepAlive, Take(e.answer[p.headerBytes..], p.head.contentLength), e.reply);
    } else {
      ErrorPart(e.status, e.reply, limits);
    }
  }

  /** In a response that was cut, every byte behind the head is the upstream's, at its place in the
  announced body. So no error response, and no second status line of the session, is behind it. */
  lemma CutIsRelayed(e: Ending, limits: HttpLimits, k: nat)
    requires EndingOk(e, limits) && e.Cut? && k < |e.reply|
    ensures ParseResponse(e.answer, limits).Complete?
    ensures var p := ParseResponse(e.answer, limits);
      var head := NormalizeConnection(p.head.forwardHead, e.keepAlive);
      if k < |head| then e.reply[k] == head[k]
      else
        && k < |head| + p.head.contentLength && p.headerBytes + k - |head| < |e.answer|
        && e.reply[k] == e.answer[p.headerBytes + k - |head|]
  {
    hide ParseRequest, ParseResponse, NormalizeConnection, RequestOk;
  }

  /** How a client splits what it gets into responses, by their heads and lengths alone. */
  ghost function SplitResponses(bytes: string, limits: HttpLimits): seq<string>
    decreases |bytes|
  {
    var p := ParseResponse(bytes, limits);
    if !p.Complete? || p.headerBytes == 0 || p.headerBytes + p.head.contentLength > |bytes| then []
    else
      var size := p.headerBytes + p.head.contentLength;
      [bytes[..size]] + SplitResponses(bytes[size..], limits)
  }

  lemma SplitsFirst(reply: string, keepAlive: bool, rest: string, limits: HttpLimits, wide: HttpLimits)
    requires OneResponse(reply, keepAlive, limits)
    requires wide.maxBodyBytes == limits.maxBodyBytes && wide.maxHeaderBytes >= |reply|
    ensures SplitResponses(reply + rest, wide) == [reply] + SplitResponses(rest, wide)
  {
    hide ParseResponse;
    ResponseInWider(reply, rest, HttpLimits(|reply|, limits.maxBodyBytes), wide);
    assert (reply + rest)[..|reply|] == reply && (reply + rest)[|reply|..] == rest;
  }

  /** A front part of a response is split into nothing, or it is all of the response. */
  lemma SplitsPart(part: string, limits: HttpLimits, wide: HttpLimits)
    requires PartOfResponse(part, limits) && wide.maxBodyBytes == limits.maxBodyBytes
    ensures SplitResponses(part, wide) == [] || SplitResponses(part, wide) == [part]
  {
    hide ParseResponse, OneResponse;
    var p := ParseResponse(part, wide);
    if p.Complete? && 0 < p.headerBytes && p.headerBytes + p.head.contentLength <= |part| {
      var message, keepAlive :| OneResponse(message, keepAlive, limits) && part <= message;
      WholePart(part, message, keepAlive, limits, wide);
      assert part[..|part|] == part && part[|part|..] == "";
      NothingIsNoHead(wide);
    }
  }

  /** A front part that is long enough for its own head is the whole message. */
  lemma WholePart(part: string, message: string, keepAlive: bool, limits: HttpLimits, wide: HttpLimits)
    requires OneResponse(message, keepAlive, limits) && part <= message && wide.maxBodyBytes == limits.maxBodyBytes
    requires var p := ParseResponse(part, wide); p.Complete? && p.headerBytes + p.head.contentLength <= |part|
    ensures var p := ParseResponse(part, wide); part == message && p.headerBytes + p.head.contentLength == |part|
  {
    hide ParseResponse;
    var own := HttpLimits(|message|, limits.maxBodyBytes);
    var longest := if |message| < wide.maxHeaderBytes then wide.maxHeaderBytes else |message|;
    var wider := HttpLimits(longest, limits.maxBodyBytes);
    ResponseInWider(message, "", own, wider);
    ResponseInWider(part, message[|part|..], wide, wider);
    assert part + message[|part|..] == message == message + "";
  }

  ghost function ReplyList(exchanges: seq<Exchange>): seq<string> {
    seq(|exchanges|, i requires 0 <= i < |exchanges| => exchanges[i].reply)
  }

  lemma {:induction false} RepliesFromFront(exchanges: seq<Exchange>)
    requires exchanges != []
    ensures Replies(exchanges) == exchanges[0].reply + Replies(exchanges[1..])
  {
    hide Replies;
    var front, rest, last := exchanges[..|exchanges| - 1], exchanges[1..], exchanges[|exchanges| - 1];
    RepliesLast(exchanges);
    if front == [] {
      assert front == rest;
      RepliesOfNone(front);
    } else {
      RepliesFromFront(front);
      RepliesLast(rest);
      assert rest[..|rest| - 1] == front[1..];
      Regroup(exchanges[0].reply, Replies(front[1..]), last.reply);
    }
  }

  lemma RepliesOfNone(none: seq<Exchange>)
    requires none == []
    ensures Replies(none) == ""
  {
  }

  lemma RepliesLast(exchanges: seq<Exchange>)
    requires exchanges != []
    ensures Replies(exchanges) == Replies(exchanges[..|exchanges| - 1]) + exchanges[|exchanges| - 1].reply
  {
  }

  /** The client finds the complete responses, in the order of the requests, in what it got; behind
  them it finds what it finds in the last part alone. */
  lemma {:induction false} ClientSplitsReplies(exchanges: seq<Exchange>, tail: string, limits: HttpLimits, wide: HttpLimits)
    requires forall e :: e in exchanges ==> ExchangeOk(e, limits)
    requires wide.maxBodyBytes == limits.maxBodyBytes && wide.maxHeaderBytes >= |Replies(exchanges)|
    ensures SplitResponses(Replies(exchanges) + tail, wide) == ReplyList(exchanges) + SplitResponses(tail, wide)
    decreases |exchanges|
  {
    hide OneResponse, ExchangeOk, SplitResponses, Replies;
    if exchanges == [] {
      NoReplies(tail);
    } else {
      var first, rest := exchanges[0], exchanges[1..];
      FirstReply(exchanges, tail);
      ReplyIsOneResponse(first, limits);
      SplitsFirst(first.reply, first.keepAlive, Replies(rest) + tail, limits, wide);
      ClientSplitsReplies(rest, tail, limits, wide);
      Regroup([first.reply], ReplyList(rest), SplitResponses(tail, wide));
    }
  }

  lemma NoReplies(tail: string)
    ensures Replies([]) + tail == tail && ReplyList([]) == []
  {
  }

  lemma FirstReply(exchanges: seq<Exchange>, tail: string)
    requires exchanges != []
    ensures Replies(exchanges) + tail == exchanges[0].reply + (Replies(exchanges[1..]) + tail)
    ensures ReplyList(exchanges) == [exchanges[0].reply] + ReplyList(exchanges[1..])
    ensures |exchanges[0].reply| <= |Replies(exchanges)| && |Replies(exchanges[1..])| <= |Replies(exchanges)|
  {
    hide Replies;
    RepliesFromFront(exchanges);
  }

  /** A client that splits what it got finds one response for each exchange, in the order of the
  requests, and at most one more: all that it got for the request that ended the session. */
  lemma OneResponseEach(exchanges: seq<Exchange>, ending: Ending, limits: HttpLimits, wide: HttpLimits)
    requires LogOk(exchanges, ending, limits) && wide.maxBodyBytes == limits.maxBodyBytes
    requires wide.maxHeaderBytes >= |Replies(exchanges)|
    ensures var found := SplitResponses(Replies(exchanges) + ReplyOf(ending), wide);
      || found == ReplyList(exchanges)
      || (!ending.Open? && found == ReplyList(exchanges) + [ReplyOf(ending)])
  {
    hide ExchangeOk, EndingOk, AllAlive, SplitResponses, PartOfResponse, Replies;
    ClientSplitsReplies(exchanges, ReplyOf(ending), limits, wide);
    if ending.Open? {
      SplitsNothing(wide);
    } else {
      EndingIsOnePart(ending, limits);
      SplitsPart(ending.reply, limits, wide);
    }
  }

  lemma SplitsNothing(limits: HttpLimits)
    ensures SplitResponses("", limits) == []
  {
    NothingIsNoHead(limits);
  }

  /** Only the last response may announce the close, and then nothing follows it. */
  lemma CloseComesLast(exchanges: seq<Exchange>, ending: Ending, limits: HttpLimits, i: nat)
    requires LogOk(exchanges, ending, limits) && i < |exchanges|
    ensures OneResponse(exchanges[i].reply, exchanges[i].keepAlive, limits)
    ensures !exchanges[i].keepAlive ==> i == |exchanges| - 1 && ReplyOf(ending) == ""
  {
    hide ExchangeOk, OneResponse, EndingOk;
    ReplyIsOneResponse(exchanges[i], limits);
    if i < |exchanges| - 1 {
      assert exchanges[i] in exchanges[..|exchanges| - 1];
    }
  }
}

/** Reading heads and moving bodies between two sockets, whatever the sizes of reads and writes. */
module BodyPump {
  import opened AsyncSocket
  import opened Buffer
  import opened HttpForwarding
  import opened HttpFramer
  import opened IoOperation
  import opened Wrappers

  const SCRATCH_SIZE: nat := 16 * 1024

  function ErrorNumber(e: HttpParseError): int {
    match e
    case BadSyntax => 1
    case HeaderTooLarge => 2
    case BodyTooLarge => 3
    case UnsupportedMethod => 4
    case UnsupportedFraming => 5
  }

  function ParserError(e: HttpParseError): Error {
    Error(Protocol, ErrorNumber(e))
  }

  /** What was read from a socket since it had received `before`. */
  ghost function NewlyRead(source: Socket, before: string): string
    reads source
    requires before <= source.received
  {
    source.received[|before|..]
  }

  method ReadRequestHead(source: Socket, input: Buffer<char>, limits: HttpLimits)
    returns (r: Result<RequestHead, Error>)
    requires input.Valid()
    modifies source`received, source`faults, input, input.buffer
    ensures input.Valid() && (input.buffer == old(input.buffer) || fresh(input.buffer))
    ensures old(source.received) <= source.received
    ensures |old(input.Contents())| <= limits.maxHeaderBytes ==> |input.Contents()| <= limits.maxHeaderBytes
    ensures var all := old(input.Contents()) + NewlyRead(source, old(source.received));
            var p := ParseRequest(all, limits);
      match r
      case Success(head) => p.Complete? && p.head == head && p.headerBytes <= |all| && input.Contents() == all[p.headerBytes..]
      case Failure(error) => !p.Complete? && input.Contents() == all && (p.Malformed? ==> error == ParserError(p.error))
    ensures var p := ParseRequest(old(input.Contents()) + NewlyRead(source, old(source.received)), limits);
      source.faults == if r.Failure? && p.NeedMore? then old(source.faults) + [r.error] else old(source.faults)
    ensures !ParseRequest(old(input.Contents()), limits).NeedMore? ==> source.received == old(source.received)
  {
    hide ParseRequest;
    ghost var before, pre := source.received, input.Contents();
    while true
      invariant input.Valid() && (input.buffer == old(input.buffer) || fresh(input.buffer))
      invariant before <= source.received && input.Contents() == pre + NewlyRead(source, before)
      invariant source.faults == old(source.faults)
      invariant source.received == before || ParseRequest(pre, limits).NeedMore?
      invariant |pre| <= limits.maxHeaderBytes ==> |input.Contents()| <= limits.maxHeaderBytes
      decreases limits.maxHeaderBytes - |input.Contents()|
    {
      NeedMoreExactlyWhen(input.Contents(), limits);
      assert source.received == before ==> input.Contents() == pre;
      var parsed := ParseRequestHead(input, limits);
      if parsed.Complete? {
        return Success(parsed.head);
      }
      if parsed.Malformed? {
        return Failure(ParserError(parsed.error));
      }
      var buffered := input.ReadableBytes();
      if buffered >= limits.maxHeaderBytes {
        // The parser reports a buffer that reaches the limit without an empty line.
        assert false;
      }
      var available := Min(SCRATCH_SIZE, limits.maxHeaderBytes - buffered);
      var read := source.ReadSome(available);
      if read.Failure? {
        return Failure(read.error);
      }
      input.Append(read.value);
    }
  }

  method ReadResponseHead(source: Socket, input: Buffer<char>, limits: HttpLimits)
    returns (r: Result<ResponseHead, Error>)
    requires input.Valid()
    modifies source`received, source`faults, input, input.buffer
    ensures input.Valid() && (input.buffer == old(input.buffer) || fresh(input.buffer))
    ensures old(source.received) <= source.received
    ensures |old(input.Contents())| <= limits.maxHeaderBytes ==> |input.Contents()| <= limits.maxHeaderBytes
    ensures var all := old(input.Contents()) + NewlyRead(source, old(source.received));
            var p := ParseResponse(all, limits);
      match r
      case Success(head) => p.Complete? && p.head == head && p.headerBytes <= |all| && input.Contents() == all[p.headerBytes..]
      case Failure(error) => !p.Complete? && input.Contents() == all && (p.Malformed? ==> error == ParserError(p.error))
    ensures var p := ParseResponse(old(input.Contents()) + NewlyRead(source, old(source.received)), limits);
      source.faults == if r.Failure? && p.NeedMore? then old(source.faults) + [r.error] else old(source.faults)
    ensures !ParseResponse(old(input.Contents()), limits).NeedMore? ==> source.received == old(source.received)
  {
    hide ParseResponse;
    ghost var before, pre := source.received, input.Contents();
    while true
      invariant input.Valid() && (input.buffer == old(input.buffer) || fresh(input.buffer))
      invariant before <= source.received && input.Contents() == pre + NewlyRead(source, before)
      invariant source.faults == old(source.faults)
      invariant source.received == before || ParseResponse(pre, limits).NeedMore?
      invariant |pre| <= limits.maxHeaderBytes ==> |input.Contents()| <= limits.maxHeaderBytes
      decreases limits.maxHeaderBytes - |input.Contents()|
    {
      NeedMoreExactlyWhen(input.Contents(), limits);
      assert source.received == before ==> input.Contents() == pre;
      var parsed := ParseResponseHead(input, limits);
      if parsed.Complete? {
        return Success(parsed.head);
      }
      if parsed.Malformed? {
        return Failure(ParserError(parsed.error));
      }
      var buffered := input.ReadableBytes();
      if buffered >= limits.maxHeaderBytes {
        // The parser reports a buffer that reaches the limit without an empty line.
        assert false;
      }
      var available := Min(SCRATCH_SIZE, limits.maxHeaderBytes - buffered);
      var read := source.ReadSome(available);
      if read.Failure? {
        return Failure(read.error);
      }
      input.Append(read.value);
    }
  }

  function Take(s: string, n: nat): string {
    if n <= |s| then s[..n] else s
  }

  /** What an error of the source means in the middle of a body: its end comes too early, which is an error
  of the protocol. */
  function InBody(e: Error): Error {
    if e.code == Eof then Error(Protocol, 0) else e
  }

  /** Moves exactly `bytes` bytes, first those that are buffered, then those that arrive. On success the
  destination got them in order and what follows them stays in the buffer; on an error it got a front
  part of them. */
  method StreamExact(source: Socket, sourceBuffer: Buffer<char>, destination: Socket, bytes: nat)
    returns (r: Result<nat, Error>)
    requires sourceBuffer.Valid() && source != destination
    modifies source`received, source`faults, destination`sent, destination`faults, sourceBuffer`readIndex
    ensures sourceBuffer.Valid() && old(source.received) <= source.received
    ensures r.Success? ==> source.faults == old(source.faults) && destination.faults == old(destination.faults)
    ensures r.Failure? ==> OneFault(old(source.faults), source.faults, old(destination.faults), destination.faults, r.error)
    ensures |sourceBuffer.Contents()| <= |old(sourceBuffer.Contents())|
    ensures var all := old(sourceBuffer.Contents()) + NewlyRead(source, old(source.received));
      && old(destination.sent) <= destination.sent <= old(destination.sent) + Take(all, bytes)
      && (r.Success? ==> bytes <= |all| && destination.sent == old(destination.sent) + all[..bytes]
                         && sourceBuffer.Contents() == all[bytes..])
  {
    hide Moved, Take;
    ghost var pre, before, sent := sourceBuffer.Contents(), source.received, destination.sent;
    var transferred: nat := 0;
    assert pre + NewlyRead(source, before) == pre;
    NothingMoved(pre, sent);
    while transferred < bytes
      invariant sourceBuffer.Valid() && before <= source.received && transferred <= bytes
      invariant |sourceBuffer.Contents()| <= |pre|
      invariant source.faults == old(source.faults) && destination.faults == old(destination.faults)
      invariant Moved(pre + NewlyRead(source, before), transferred, sourceBuffer.Contents(), sent, destination.sent)
      decreases bytes - transferred
    {
      ghost var all, was := pre + NewlyRead(source, before), source.received;
      var step;
      if sourceBuffer.ReadableBytes() > 0 {
        step := SendBuffered(sourceBuffer, destination, bytes - transferred, all, transferred, sent);
      } else {
        step := Relay(source, sourceBuffer, destination, bytes - transferred, all, transferred, sent);
        ReadOn(pre, before, was, source.received);
      }
      if step.Failure? {
        return Failure(step.error);
      }
      transferred := transferred + step.value;
    }
    MovedIsFront(pre + NewlyRead(source, before), transferred, sourceBuffer.Contents(), sent, destination.sent, bytes);
    AllMoved(pre + NewlyRead(source, before), transferred, sourceBuffer.Contents(), sent, destination.sent);
    return Success(transferred);
  }

  /** Exactly one of two sockets failed, once: the destination with this error, or the source with one that
  means it. */
  ghost predicate OneFault(source: seq<Error>, source': seq<Error>, destination: seq<Error>, destination': seq<Error>,
                           error: Error) {
    || (source' == source && destination' == destination + [error])
    || (destination' == destination && exists e :: source' == source + [e] && error == InBody(e))
  }

  lemma ReadOn(pre: string, before: string, was: string, now: string)
    requires before <= was <= now
    ensures pre + now[|before|..] == pre + was[|before|..] + now[|was|..]
  {
    assert now[|before|..] == was[|before|..] + now[|was|..];
  }

  /** Writes what is buffered, as far as it is wanted. */
  method SendBuffered(sourceBuffer: Buffer<char>, destination: Socket, wanted: nat,
                      ghost all: string, ghost transferred: nat, ghost sent: string)
    returns (r: Result<nat, Error>)
    requires sourceBuffer.Valid() && sourceBuffer.ReadableBytes() > 0 && wanted > 0
    requires Moved(all, transferred, sourceBuffer.Contents(), sent, destination.sent)
    modifies destination`sent, destination`faults, sourceBuffer`readIndex
    ensures destination.faults == if r.Success? then old(destination.faults) else old(destination.faults) + [r.error]
    ensures sourceBuffer.Valid() && |sourceBuffer.Contents()| <= |old(sourceBuffer.Contents())|
    ensures sent <= destination.sent <= sent + Take(all, transferred + wanted)
    ensures r.Success? ==> 0 < r.value <= wanted
    ensures r.Success? ==> Moved(all, transferred + r.value, sourceBuffer.Contents(), sent, destination.sent)
  {
    hide Take;
    var count := Min(sourceBuffer.ReadableBytes(), wanted);
    var data := sourceBuffer.Readable()[..count];
    PartOf(all, transferred, count, transferred + wanted, sent, data);
    var write := destination.WriteAll(data);
    if write.Failure? {
      return Failure(write.error);
    }
    sourceBuffer.Retrieve(count);
    return Success(count);
  }

  /** Reads some bytes and writes them straight on. */
  method Relay(source: Socket, sourceBuffer: Buffer<char>, destination: Socket, wanted: nat,
               ghost all: string, ghost transferred: nat, ghost sent: string)
    returns (r: Result<nat, Error>)
    requires sourceBuffer.Valid() && sourceBuffer.Contents() == "" && wanted > 0 && source != destination
    requires Moved(all, transferred, "", sent, destination.sent)
    modifies source`received, source`faults, destination`sent, destination`faults
    ensures r.Success? ==> source.faults == old(source.faults) && destination.faults == old(destination.faults)
    ensures r.Failure? ==> OneFault(old(source.faults), source.faults, old(destination.faults), destination.faults, r.error)
    ensures old(source.received) <= source.received
    ensures var more := all + NewlyRead(source, old(source.received));
      && sent <= destination.sent <= sent + Take(more, transferred + wanted)
      && (r.Success? ==> 0 < r.value <= wanted && Moved(more, transferred + r.value, "", sent, destination.sent))
  {
    hide Moved, Take;
    var read := source.ReadSome(Min(SCRATCH_SIZE, wanted));
    if read.Failure? {
      assert all + NewlyRead(source, old(source.received)) == all;
      MovedIsFront(all, transferred, "", sent, destination.sent, transferred + wanted);
      return Failure(InBody(read.error));
    }
    assert NewlyRead(source, old(source.received)) == read.value;
    MovedOn(all, transferred, read.value, transferred + wanted, sent, destination.sent);
    var write := destination.WriteAll(read.value);
    if write.Failure? {
      return Failure(write.error);
    }
    return Success(|read.value|);
  }

  /** The first `transferred` bytes were sent and the others are still buffered. */
  ghost predicate Moved(all: string, transferred: nat, rest: string, before: string, now: string) {
    transferred <= |all| && rest == all[transferred..] && now == before + all[..transferred]
  }

  lemma MovedIsFront(all: string, transferred: nat, rest: string, before: string, now: string, bytes: nat)
    requires Moved(all, transferred, rest, before, now) && transferred <= bytes
    ensures before <= now <= before + Take(all, bytes)
  {
    assert all[..transferred] <= Take(all, bytes);
  }

  /** What is read on next is the next part to write. */
  lemma MovedOn(all: string, transferred: nat, data: string, bytes: nat, before: string, now: string)
    requires Moved(all, transferred, "", before, now) && transferred + |data| <= bytes
    ensures before <= now && now + data <= before + Take(all + data, bytes)
    ensures Moved(all + data, transferred + |data|, "", before, now + data)
  {
    assert all[..transferred] == all && (all + data)[..transferred + |data|] == all + data;
    assert now + data == before + (all + data);
  }

  lemma NothingMoved(all: string, before: string)
    ensures Moved(all, 0, all, before, before)
  {
  }

  lemma AllMoved(all: string, bytes: nat, rest: string, before: string, now: string)
    requires Moved(all, bytes, rest, before, now)
    ensures bytes <= |all| && now == before + all[..bytes] && rest == all[bytes..]
  {
  }

  /** The next part to write, and everything a failing write may have sent, is a front part of `all`. */
  lemma PartOf(all: string, transferred: nat, count: nat, bytes: nat, before: string, data: string)
    requires transferred + count <= |all| && transferred + count <= bytes
    requires data == all[transferred..transferred + count]
    ensures before + all[..transferred] + data == before + all[..transferred + count] <= before + Take(all, bytes)
    ensures all[transferred..][count..] == all[transferred + count..]
  {
    assert all[..transferred] + data == all[..transferred + count];
    assert all[..transferred + count] <= Take(all, bytes);
  }
}

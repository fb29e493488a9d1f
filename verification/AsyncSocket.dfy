/** A connected stream socket as a coroutine sees it: reads and writes of any size, or an error. */
module AsyncSocket {
  import opened IoOperation
  import opened Wrappers

  const EIO: int := 5

  class Socket {
    /** Everything read from the peer, and everything the socket took for the peer. */
    var received: string
    var sent: string
    /** The errors that its reads and writes have reported, in order. */
    ghost var faults: seq<Error>

    constructor ()
      ensures received == "" && sent == "" && faults == []
    {
      received, sent, faults := "", "", [];
    }

    /** Reads at least one byte and at most `capacity`, whatever the peer has sent; its end is an error. */
    method ReadSome(capacity: nat) returns (r: Result<string, Error>)
      requires capacity > 0
      modifies this`received, this`faults
      ensures match r
              case Success(data) => 0 < |data| <= capacity && received == old(received) + data && faults == old(faults)
              case Failure(e) => received == old(received) && faults == old(faults) + [e]
    {
      var fails: bool := *;
      if fails {
        var error: Error := *;
        faults := faults + [error];
        return Failure(error);
      }
      assert |"x"| <= capacity;
      var data: string :| 0 < |data| <= capacity;
      received := received + data;
      return Success(data);
    }

    /** Takes a part of the data and reports how much, as the kernel sees fit. */
    method WriteSome(data: string) returns (r: Result<nat, Error>)
      modifies this`sent, this`faults
      ensures r.Failure? ==> sent == old(sent) && faults == old(faults) + [r.error]
      ensures r.Success? ==> faults == old(faults)
      ensures r.Success? ==> sent == old(sent) + data[..if r.value <= |data| then r.value else |data|]
    {
      var fails: bool := *;
      if fails {
        var error: Error := *;
        faults := faults + [error];
        return Failure(error);
      }
      var count: nat :| true;
      sent := sent + data[..if count <= |data| then count else |data|];
      return Success(count);
    }

    /** Writes all of the data, or reports an error after some front part of it was taken. */
    method WriteAll(data: string) returns (r: Result<nat, Error>)
      modifies this`sent, this`faults
      ensures old(sent) <= sent <= old(sent) + data
      ensures r.Success? ==> r.value == |data| && sent == old(sent) + data
      ensures faults == if r.Success? then old(faults) else old(faults) + [r.error]
    {
      var written: nat := 0;
      var buffer := data;
      while buffer != ""
        invariant written + |buffer| == |data| && buffer == data[written..]
        invariant sent == old(sent) + data[..written] && faults == old(faults)
        decreases |buffer|
      {
        var result := WriteSome(buffer);
        if result.Failure? {
          return Failure(result.error);
        }
        var count := result.value;
        if count == 0 {
          faults := faults + [Error(ConnectionReset, ECONNRESET)];
          return Failure(Error(ConnectionReset, ECONNRESET));
        }
        if count > |buffer| {
          faults := faults + [Error(System, EIO)];
          return Failure(Error(System, EIO));
        }
        assert data[..written] + buffer[..count] == data[..written + count];
        written := written + count;
        buffer := buffer[count..];
      }
      return Success(written);
    }
  }
}

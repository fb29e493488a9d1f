/** The growing byte buffer behind every connection. Its contents are the bytes between the read and
the write index; eight bytes are always kept free in front. */
module Buffer {

  const HEADER_RESERVED: nat := 8

  function Max(a: nat, b: nat): nat {
    if a >= b then a else b
  }

  function Min(a: nat, b: nat): nat {
    if a <= b then a else b
  }

  class Buffer<T(0)> {
    var buffer: array<T>
    var readIndex: nat
    var writeIndex: nat

    ghost predicate Valid()
      reads this
    {
      HEADER_RESERVED <= readIndex <= writeIndex <= buffer.Length
    }

    /** The byte sequence the buffer stands for. */
    ghost function Contents(): seq<T>
      reads this, buffer
      requires Valid()
    {
      buffer[readIndex..writeIndex]
    }

    constructor (initialBufferSize: nat)
      ensures Valid() && fresh(buffer) && Contents() == [] && WriteableBytes() == initialBufferSize
    {
      buffer := new T[HEADER_RESERVED + initialBufferSize];
      readIndex, writeIndex := HEADER_RESERVED, HEADER_RESERVED;
    }

    function ReadableBytes(): (n: nat)
      reads this, buffer
      requires Valid()
      ensures n == |Contents()|
    {
      writeIndex - readIndex
    }

    function WriteableBytes(): nat
      reads this
      requires Valid()
    {
      buffer.Length - writeIndex
    }

    /** The first `n` bytes behind the write index. */
    ghost function Stored(n: nat): seq<T>
      reads this, buffer
      requires Valid() && n <= WriteableBytes()
    {
      buffer[writeIndex..writeIndex + n]
    }

    /** A copy of what can be read. */
    function Readable(): (s: seq<T>)
      reads this, buffer
      requires Valid()
      ensures s == Contents()
    {
      buffer[readIndex..writeIndex]
    }

    method Retrieve(len: nat)
      requires Valid()
      modifies this`readIndex
      ensures Valid() && Contents() == old(Contents())[Min(len, |old(Contents())|)..]
    {
      if len <= ReadableBytes() {
        readIndex := readIndex + len;
      } else {
        readIndex := writeIndex;
      }
    }

    /** Bytes that the caller put behind the write index become readable. */
    method HasWritten(len: nat)
      requires Valid() && len <= WriteableBytes()
      modifies this`writeIndex
      ensures Valid() && Contents() == old(Contents()) + old(Stored(len))
    {
      writeIndex := writeIndex + len;
    }

    method Reset()
      requires Valid()
      modifies this`readIndex, this`writeIndex
      ensures Valid() && Contents() == []
    {
      readIndex := HEADER_RESERVED;
      writeIndex := HEADER_RESERVED;
    }

    method ReadAllAsString() returns (result: seq<T>)
      requires Valid()
      modifies this`readIndex, this`writeIndex
      ensures Valid() && result == old(Contents()) && Contents() == []
    {
      result := buffer[readIndex..writeIndex];
      Reset();
    }

    method EnsureWritableBytes(len: nat)
      requires Valid()
      modifies this, buffer
      ensures Valid() && (buffer == old(buffer) || fresh(buffer))
      ensures Contents() == old(Contents()) && WriteableBytes() >= len
    {
      if WriteableBytes() < len {
        MakeSpace(len);
      }
    }

    /** Grows the storage, or moves the readable bytes to the front when that frees enough. */
    method MakeSpace(len: nat)
      requires Valid()
      modifies this, buffer
      ensures Valid() && (buffer == old(buffer) || fresh(buffer))
      ensures Contents() == old(Contents()) && WriteableBytes() >= len
    {
      if WriteableBytes() + readIndex < len + HEADER_RESERVED {
        // The storage may have been allocated larger than it is.
        var capacity: nat :| capacity >= buffer.Length;
        Resize(Max(capacity * 2, writeIndex + len));
      } else {
        MoveToFront();
      }
    }

    method Resize(size: nat)
      requires Valid() && size >= buffer.Length
      modifies this`buffer
      ensures Valid() && fresh(buffer) && buffer.Length == size && Contents() == old(Contents())
    {
      var larger := new T[size];
      var i := 0;
      while i < buffer.Length
        invariant unchanged(this) && i <= buffer.Length && larger[..i] == buffer[..i]
      {
        larger[i] := buffer[i];
        i := i + 1;
      }
      assert larger[..writeIndex] == buffer[..writeIndex];
      assert larger[readIndex..writeIndex] == larger[..writeIndex][readIndex..];
      assert buffer[readIndex..writeIndex] == buffer[..writeIndex][readIndex..];
      buffer := larger;
    }

    /** Copies front to back, which is right for overlapping ranges because the target is below. */
    method MoveToFront()
      requires Valid()
      modifies this`readIndex, this`writeIndex, buffer
      ensures Valid() && readIndex == HEADER_RESERVED && Contents() == old(Contents())
    {
      var readable := ReadableBytes();
      var i := 0;
      while i < readable
        invariant unchanged(this) && i <= readable
        invariant forall k :: 0 <= k < i ==> buffer[HEADER_RESERVED + k] == old(Contents())[k]
        invariant forall k :: i <= k < readable ==> buffer[readIndex + k] == old(Contents())[k]
      {
        buffer[HEADER_RESERVED + i] := buffer[readIndex + i];
        i := i + 1;
      }
      readIndex := HEADER_RESERVED;
      writeIndex := readIndex + readable;
    }

    /** Stores bytes behind the write index, `offset` bytes in. */
    method Store(offset: nat, data: seq<T>)
      requires Valid() && offset + |data| <= WriteableBytes()
      modifies buffer
      ensures Contents() == old(Contents())
      ensures Stored(offset + |data|) == old(Stored(offset)) + data
    {
      var start := writeIndex + offset;
      var i := 0;
      while i < |data|
        invariant i <= |data|
        invariant forall k :: 0 <= k < i ==> buffer[start + k] == data[k]
        invariant forall k :: 0 <= k < start ==> buffer[k] == old(buffer[k])
      {
        buffer[start + i] := data[i];
        i := i + 1;
      }
    }

    method Append(data: seq<T>)
      requires Valid()
      modifies this, buffer
      ensures Valid() && (buffer == old(buffer) || fresh(buffer))
      ensures Contents() == old(Contents()) + data
    {
      EnsureWritableBytes(|data|);
      label Made:
      Store(0, data);
      assert old@Made(Stored(0)) + data == data;
      HasWritten(|data|);
    }
  }
}

/** The byte FIFO behind each audio input: one array, its filled prefix, and moves in place. */
module RingBuffers {
  newtype byte = x: int | 0 <= x < 256

  function Min(a: int, b: int): int { if a < b then a else b }

  /** How many bytes `Ringbuffer.Dump(len)` removes: a length of 0 means everything. */
  function DumpCount(stored: nat, len: nat): nat {
    if len > stored || len == 0 then stored else len
  }

  class Ringbuffer {
    const buffer: array<byte>
    var length: nat

    ghost predicate Valid()
      reads this
    {
      length <= buffer.Length
    }

    /** The stored bytes, oldest first. */
    ghost function Contents(): (s: seq<byte>)
      requires Valid()
      reads this, buffer
    {
      buffer[..length]
    }

    constructor (size: nat)
      ensures Valid() && fresh(buffer)
      ensures buffer.Length == size && Contents() == []
    {
      buffer := new byte[size];
      length := 0;
    }

    method ReadSpace() returns (n: nat)
      requires Valid()
      ensures n == |Contents()|
    {
      n := length;
    }

    method WriteSpace() returns (n: nat)
      requires Valid()
      ensures n == buffer.Length - |Contents()|
    {
      n := buffer.Length - length;
    }

    /** Copies the oldest bytes out and leaves the buffer as it was. */
    method Peek(data: array<byte>, len: nat) returns (n: nat)
      requires Valid() && data != buffer
      requires Min(len, length) <= data.Length
      modifies data
      ensures n == Min(len, |Contents()|)
      ensures data[..] == Contents()[..n] + old(data[n..])
    {
      n := if len > length then length else len;
      forall k | 0 <= k < n {
        data[k] := buffer[k];
      }
    }

    /** Moves the oldest bytes out and closes the gap. */
    method Read(data: array<byte>, len: nat) returns (n: nat)
      requires Valid() && data != buffer
      requires Min(len, length) <= data.Length
      modifies this, buffer, data
      ensures Valid()
      ensures n == Min(len, |old(Contents())|)
      ensures data[..] == old(Contents())[..n] + old(data[n..])
      ensures Contents() == old(Contents())[n..]
    {
      n := if len > length then length else len;
      forall k | 0 <= k < n {
        data[k] := buffer[k];
      }
      forall k | 0 <= k < length - n {
        buffer[k] := buffer[k + n];
      }
      length := length - n;
    }

    /** Appends as much of the data as fits and drops the rest. */
    method Write(data: array<byte>, len: nat) returns (n: nat)
      requires Valid() && data != buffer
      requires Min(len, buffer.Length - length) <= data.Length
      modifies this, buffer
      ensures Valid()
      ensures n == Min(len, buffer.Length - |old(Contents())|)
      ensures Contents() == old(Contents()) + data[..n]
    {
      n := if len > buffer.Length - length then buffer.Length - length else len;
      forall k | 0 <= k < n {
        buffer[length + k] := data[k];
      }
      length := length + n;
    }

    /** Discards the oldest bytes; the whole tail of the array moves, not only the filled part. */
    method Dump(len: nat) returns (n: nat)
      requires Valid()
      modifies this, buffer
      ensures Valid()
      ensures n == DumpCount(|old(Contents())|, len)
      ensures Contents() == old(Contents())[n..]
    {
      n := if len > length || len == 0 then length else len;
      forall k | 0 <= k < buffer.Length - n {
        buffer[k] := buffer[k + n];
      }
      length := length - n;
    }
  }
}

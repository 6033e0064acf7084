/** The growing byte buffer: an array with a consumed front, behaving as a queue of octets. */
module Buffers {
  import opened Bytes

  const CHEAP_PREPEND: nat := 8
  const INITIAL_SIZE: nat := 1024

  class Buffer {
    var buffer: array<Byte>
    var readerIndex: nat
    var writerIndex: nat

    ghost predicate Valid()
      reads this
    {
      CHEAP_PREPEND <= readerIndex <= writerIndex <= buffer.Length
    }

    /** The queued octets. */
    ghost function Contents(): seq<Byte>
      requires Valid()
      reads this, buffer
    {
      buffer[readerIndex..writerIndex]
    }

    constructor (initialSize: nat)
      ensures Valid() && fresh(buffer) && Contents() == [] && WriteableBytes() == 1024 && readerIndex == 8
    {
      buffer := new Byte[CHEAP_PREPEND + INITIAL_SIZE](_ => 0);
      readerIndex, writerIndex := CHEAP_PREPEND, CHEAP_PREPEND;
    }

    function ReadableBytes(): (n: nat)
      requires Valid()
      reads this, buffer
      ensures n == |Contents()|
    {
      writerIndex - readerIndex
    }

    function WriteableBytes(): nat
      requires Valid()
      reads this
    {
      buffer.Length - writerIndex
    }

    /** The octets a caller sees through peek(). */
    method Peek() returns (s: seq<Byte>)
      requires Valid()
      ensures s == Contents()
    {
      s := buffer[readerIndex..writerIndex];
    }

    /** Drops `len` octets from the front, or all there are. */
    method Retrieve(len: nat)
      requires Valid()
      modifies this`readerIndex, this`writerIndex
      ensures Valid()
      ensures Contents() == if len < |old(Contents())| then old(Contents())[len..] else []
    {
      if len < ReadableBytes() {
        readerIndex := readerIndex + len;
      } else {
        RetrieveAll();
      }
    }

    method RetrieveAll()
      requires Valid()
      modifies this`readerIndex, this`writerIndex
      ensures Valid() && Contents() == []
    {
      readerIndex, writerIndex := CHEAP_PREPEND, CHEAP_PREPEND;
    }

    method RetrieveAllAsString(len: nat) returns (s: seq<Byte>)
      requires Valid() && len <= |Contents()|
      modifies this`readerIndex, this`writerIndex
      ensures Valid()
      ensures s + Contents() == old(Contents()) && |s| == len
    {
      s := buffer[readerIndex..readerIndex + len];
      Retrieve(len);
    }

    /** Makes room behind the queue, by compaction when the consumed front suffices and by growth otherwise. */
    method EnsureWriteableBytes(len: nat)
      requires Valid()
      modifies this, buffer
      ensures Valid() && (buffer == old(buffer) || fresh(buffer))
      ensures WriteableBytes() >= len && Contents() == old(Contents())
      ensures buffer != old(buffer) <==>
                old(WriteableBytes()) < len && |old(Contents())| + len + 8 > old(buffer.Length)
    {
      if WriteableBytes() < len {
        MakeSpace(len);
      }
    }

    method MakeSpace(len: nat)
      requires Valid()
      modifies this, buffer
      ensures Valid() && (buffer == old(buffer) || fresh(buffer))
      ensures WriteableBytes() >= len && Contents() == old(Contents())
      ensures buffer != old(buffer) <==> |old(Contents())| + len + 8 > old(buffer.Length)
    {
      if WriteableBytes() + readerIndex < len + CHEAP_PREPEND {
        Resize(writerIndex + len);
      } else {
        var readable := ReadableBytes();
        forall i | 0 <= i < readable {
          buffer[CHEAP_PREPEND + i] := buffer[readerIndex + i];
        }
        readerIndex := CHEAP_PREPEND;
        writerIndex := CHEAP_PREPEND + readable;
      }
    }

    /** std::vector::resize to a size that holds all that was written. */
    method Resize(size: nat)
      requires Valid() && writerIndex <= size
      modifies this`buffer
      ensures Valid() && fresh(buffer) && buffer.Length == size && Contents() == old(Contents())
    {
      var grown := new Byte[size](_ => 0);
      var n := if size < buffer.Length then size else buffer.Length;
      forall i | 0 <= i < n {
        grown[i] := buffer[i];
      }
      buffer := grown;
    }

    method Append(data: seq<Byte>)
      requires Valid()
      modifies this, buffer
      ensures Valid() && (buffer == old(buffer) || fresh(buffer))
      ensures Contents() == old(Contents()) + data
    {
      EnsureWriteableBytes(|data|);
      CopyIn(data);
    }

    method CopyIn(data: seq<Byte>)
      requires Valid() && |data| <= WriteableBytes()
      modifies this`writerIndex, buffer
      ensures Valid() && Contents() == old(Contents()) + data
    {
      forall i | 0 <= i < |data| {
        buffer[writerIndex + i] := data[i];
      }
      writerIndex := writerIndex + |data|;
    }

    /** readFd, for the octets `data` that readv scattered over the buffer's end and a spare 64 KB block. */
    method ReadFd(data: seq<Byte>)
      requires Valid()
      requires |data| <= WriteableBytes() + (if WriteableBytes() < 65536 then 65536 else 0)
      modifies this, buffer
      ensures Valid() && (buffer == old(buffer) || fresh(buffer))
      ensures Contents() == old(Contents()) + data
    {
      var writable := WriteableBytes();
      if |data| <= writable {
        CopyIn(data);
      } else {
        CopyIn(data[..writable]);
        Append(data[writable..]);
        assert data == data[..writable] + data[writable..];
      }
    }
  }
}

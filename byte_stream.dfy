/**
 * The benchmark's buffered byte streams: each `put` stages one byte in a
 * byte array, and the array is handed to the sink whole when it is full, or
 * partly on `flush`. One stream hands it to an output stream directly, the
 * other copies it into a direct ByteBuffer first and writes that to a
 * channel. The sink is modelled by what it has been given.
 */
module ByteStreams {
  import opened JavaTypes
  import opened ByteBuffers

  /** An output stream or a blocking channel: it takes every byte it is given. */
  class Sink {
    var written: seq<i8>

    constructor ()
      ensures written == []
    {
      written := [];
    }

    /** `write(buffer, 0, length)` on an output stream. */
    method Write(data: seq<i8>)
      modifies this
      ensures written == old(written) + data
    {
      written := written + data;
    }

    /** `write(byteBuffer)` on a blocking channel: everything between position and limit is written. */
    method WriteFrom(b: ByteBuffer) returns (n: int)
      requires b.Valid()
      modifies this, b
      ensures b.Valid() && b.position == old(b.limit) && b.limit == old(b.limit)
      ensures written == old(written) + old(b.store[b.position..b.limit])
      ensures n == old(b.Remaining())
    {
      n := b.limit - b.position;
      written := written + b.store[b.position..b.limit];
      b.position := b.limit;
    }
  }

  /** A byte array staged in front of an output stream. */
  class ByteArrayStream {
    var offset: int
    const buffer: array<i8>
    const stream: Sink

    ghost predicate Valid()
      reads this
    {
      0 <= offset <= buffer.Length
    }

    /** Everything put so far: the bytes the stream has been given, then the staged ones. */
    ghost function Contents(): seq<i8>
      reads this, buffer, stream
      requires Valid()
    {
      stream.written + buffer[..offset]
    }

    constructor (stream: Sink, bufferLength: nat)
      ensures Valid() && this.stream == stream && fresh(buffer) && buffer.Length == bufferLength
      ensures offset == 0 && Contents() == stream.written
    {
      buffer := new i8[bufferLength];
      this.stream := stream;
      offset := 0;
    }

    /**
     * `put(value)`: a full buffer is flushed first, so exactly
     * `buffer.length` bytes go to the stream, and the byte is staged. With a
     * zero-length buffer the store throws ArrayIndexOutOfBoundsException
     * (`false`) after the empty flush.
     */
    method Put(value: i8) returns (ok: bool)
      requires Valid()
      modifies this, buffer, stream
      ensures Valid()
      ensures ok <==> buffer.Length > 0
      ensures ok ==> Contents() == old(Contents()) + [value]
      ensures !ok ==> Contents() == old(Contents())
      ensures stream.written == old(stream.written) + (if old(offset) == buffer.Length then old(buffer[..]) else [])
    {
      if offset == buffer.Length {
        Flush();
        assert buffer[..] == buffer[..buffer.Length];
      }
      if offset == buffer.Length {
        return false;
      }
      ghost var staged := buffer[..offset];
      buffer[offset] := value;
      offset := offset + 1;
      assert buffer[..offset] == staged + [value];
      Regroup(stream.written, staged, [value]);
      ok := true;
    }

    /** `flush()`: the staged bytes go to the stream and the buffer is empty again. */
    method Flush()
      requires Valid()
      modifies this, stream
      ensures Valid() && offset == 0
      ensures stream.written == old(Contents())
    {
      stream.Write(buffer[..offset]);
      offset := 0;
    }
  }

  /** A byte array staged in front of a direct ByteBuffer and a channel. */
  class ByteBufferArrayStream {
    const writeBuffer: ByteBuffer
    var offset: int
    const buffer: array<i8>
    const channel: Sink

    ghost predicate Valid()
      reads this, writeBuffer
    {
      && writeBuffer.Valid() && writeBuffer.store != buffer
      && writeBuffer.store.Length == buffer.Length
      && 0 <= offset <= buffer.Length
    }

    /** Everything put so far: the bytes the channel has been given, then the staged ones. */
    ghost function Contents(): seq<i8>
      reads this, buffer, channel
      requires 0 <= offset <= buffer.Length
    {
      channel.written + buffer[..offset]
    }

    constructor (channel: Sink, bufferLength: nat)
      requires bufferLength <= MAX_LENGTH
      ensures Valid() && this.channel == channel && fresh(buffer) && fresh(writeBuffer) && fresh(writeBuffer.store)
      ensures buffer.Length == bufferLength && offset == 0 && Contents() == channel.written
    {
      writeBuffer := new ByteBuffer(bufferLength, BigEndianOrder);
      buffer := new i8[bufferLength];
      this.channel := channel;
      offset := 0;
    }

    /**
     * `put(value)`: the same as the plain stream's, with the flush written
     * out in place (clear, copy, flip, write), so a full buffer again sends
     * exactly `buffer.length` bytes.
     */
    method Put(value: i8) returns (ok: bool)
      requires Valid()
      modifies this, buffer, channel, writeBuffer, writeBuffer.store
      ensures Valid()
      ensures ok <==> buffer.Length > 0
      ensures ok ==> Contents() == old(Contents()) + [value]
      ensures !ok ==> Contents() == old(Contents())
      ensures channel.written == old(channel.written) + (if old(offset) == buffer.Length then old(buffer[..]) else [])
    {
      if offset == buffer.Length {
        writeBuffer.Clear();
        var copied := writeBuffer.Put(buffer, offset);
        assert writeBuffer.store[0..offset] == buffer[..];
        writeBuffer.Flip();
        var n := channel.WriteFrom(writeBuffer);
        assert channel.written == old(channel.written) + old(buffer[..]);
        offset := 0;
      }
      if offset == buffer.Length {
        return false;
      }
      ghost var staged := buffer[..offset];
      buffer[offset] := value;
      offset := offset + 1;
      assert buffer[..offset] == staged + [value];
      Regroup(channel.written, staged, [value]);
      ok := true;
    }

    /**
     * `flush()`: exactly `offset` bytes are staged in the ByteBuffer and the
     * channel takes all of them; the assertions of the Java code are proved
     * here.
     */
    method Flush()
      requires Valid()
      modifies this, channel, writeBuffer, writeBuffer.store
      ensures Valid() && offset == 0
      ensures channel.written == old(Contents())
    {
      writeBuffer.Clear();
      var copied := writeBuffer.Put(buffer, offset);
      assert writeBuffer.position == offset;
      assert writeBuffer.store[0..offset] == buffer[..offset];
      writeBuffer.Flip();
      assert writeBuffer.Remaining() == offset;
      var n := channel.WriteFrom(writeBuffer);
      assert writeBuffer.Remaining() == 0;
      offset := 0;
    }
  }
}

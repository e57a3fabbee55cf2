/**
 * The chunked read accumulator of edu.mit.net: it reads a non-blocking
 * channel into recyclable 4096-byte chunks and lets its owner take an exact
 * number of bytes, across chunk boundaries, once enough have arrived.
 *
 * State: a FIFO of readable chunks (`readBuffers`), at most one partially
 * filled chunk (`writeBuffer`), a LIFO pool of cleared chunks
 * (`emptyBuffers`) and the count of buffered, unconsumed bytes
 * (`totalAvailable`). Chunks are values here (see README, "Left out").
 */
module NIOReadStream {
  import opened JavaTypes
  import opened Channels

  const BUFFER_SIZE: nat := 4096

  /**
   * A ByteBuffer: its backing bytes, position and limit. While it is being
   * filled, `position` is the fill level and `limit` the capacity; after
   * `flip()`, `position` is the read cursor and `limit` the fill level.
   */
  datatype Chunk = Chunk(data: seq<i8>, position: nat, limit: nat)
  {
    predicate Sane()
    {
      position <= limit <= |data| == BUFFER_SIZE
    }

    function Remaining(): nat
      requires Sane()
    {
      limit - position
    }

    /** Read mode: the bytes not yet consumed. */
    function Unconsumed(): seq<i8>
      requires Sane()
    {
      data[position..limit]
    }

    /** Write mode: the bytes filled in so far. */
    function Filled(): seq<i8>
      requires Sane()
    {
      data[..position]
    }

    function Flip(): Chunk
    {
      Chunk(data, 0, position)
    }

    function Clear(): Chunk
    {
      Chunk(data, 0, |data|)
    }
  }

  /** `ByteBuffer.allocateDirect(BUFFER_SIZE)`: zero-filled, empty, in write mode. */
  function NewChunk(): Chunk
  {
    Chunk(seq(BUFFER_SIZE, _ => 0), 0, BUFFER_SIZE)
  }

  ghost predicate AllSane(cs: seq<Chunk>)
  {
    forall i :: 0 <= i < |cs| ==> cs[i].Sane()
  }

  /** The unconsumed bytes of a queue of chunks, oldest first. */
  function Concat(cs: seq<Chunk>): seq<i8>
    requires AllSane(cs)
  {
    if cs == [] then [] else cs[0].Unconsumed() + Concat(cs[1..])
  }

  /** Chunks queued for reading are flipped and each still holds at least one byte. */
  ghost predicate ReadQueueValid(rb: seq<Chunk>)
  {
    AllSane(rb) && forall i :: 0 <= i < |rb| ==> rb[i].position < rb[i].limit
  }

  /** The chunk being filled is in write mode and has room for at least one byte. */
  ghost predicate WriteChunkValid(wb: Option<Chunk>)
  {
    wb.Some? ==> wb.value.Sane() && wb.value.limit == BUFFER_SIZE && wb.value.position < BUFFER_SIZE
  }

  /** Pooled chunks are cleared. */
  ghost predicate PoolValid(pool: seq<Chunk>)
  {
    forall i :: 0 <= i < |pool| ==> pool[i].Sane() && pool[i].position == 0 && pool[i].limit == BUFFER_SIZE
  }

  /** The bytes filled into the write chunk, if there is one. */
  function Pending(wb: Option<Chunk>): seq<i8>
    requires WriteChunkValid(wb)
  {
    if wb.Some? then wb.value.Filled() else []
  }

  /** Appending a chunk to the tail of the queue appends its bytes. */
  lemma {:induction false} ConcatAppend(cs: seq<Chunk>, c: Chunk)
    requires AllSane(cs) && c.Sane()
    ensures AllSane(cs + [c])
    ensures Concat(cs + [c]) == Concat(cs) + c.Unconsumed()
  {
    if cs == [] {
      assert [c][1..] == [];
    } else {
      assert (cs + [c])[1..] == cs[1..] + [c];
      ConcatAppend(cs[1..], c);
    }
  }

  /**
   * Filling `data` into the write chunk: the filled chunk holds the old
   * pending bytes followed by `data`, and once full it joins the read queue
   * flipped, with the same bytes.
   */
  lemma FillStep(rb: seq<Chunk>, w: Chunk, data: seq<i8>)
    requires ReadQueueValid(rb) && WriteChunkValid(Some(w))
    requires 0 < |data| <= w.limit - w.position
    ensures var f := Filled(w, data);
      && f.Sane() && f.limit == BUFFER_SIZE && f.Filled() == w.Filled() + data
      && (f.position < BUFFER_SIZE ==> WriteChunkValid(Some(f)))
      && (f.position == BUFFER_SIZE ==>
            ReadQueueValid(rb + [f.Flip()]) && Concat(rb + [f.Flip()]) == Concat(rb) + w.Filled() + data)
  {
    var f := Filled(w, data);
    assert f.Filled() == w.Filled() + data;
    if f.position == BUFFER_SIZE {
      ConcatAppend(rb, f.Flip());
      assert f.Flip().Unconsumed() == f.Filled();
    }
  }

  /** The write chunk after a channel read has stored `data` at its position. */
  function Filled(w: Chunk, data: seq<i8>): (f: Chunk)
    requires w.Sane() && |data| <= w.limit - w.position
    ensures f.position == w.position + |data| && f.limit == w.limit && |f.data| == |w.data|
  {
    Chunk(w.data[..w.position] + data + w.data[w.position + |data|..], w.position + |data|, w.limit)
  }

  /** Stealing the write chunk: flipped, it is a one-chunk read queue with the same bytes. */
  lemma StealStep(w: Chunk)
    requires WriteChunkValid(Some(w)) && w.position > 0
    ensures ReadQueueValid([w.Flip()]) && Concat([w.Flip()]) == w.Filled()
  {
    assert Concat([w.Flip()]) == w.Flip().Unconsumed() + Concat([]);
  }

  /** The head chunk after `took` of its bytes are consumed. */
  function Advance(c: Chunk, took: nat): (a: Chunk)
    ensures a.data == c.data && a.limit == c.limit && a.position == c.position + took
  {
    c.(position := c.position + took)
  }

  /**
   * The first `took` bytes of the queue come from its head chunk.
   */
  lemma HeadBytes(rb: seq<Chunk>, pending: seq<i8>, took: nat)
    requires ReadQueueValid(rb) && rb != [] && took <= rb[0].Remaining()
    ensures (Concat(rb) + pending)[..took] == rb[0].Unconsumed()[..took]
  {
    assert Concat(rb) == rb[0].Unconsumed() + Concat(rb[1..]);
  }

  /** The first `took` bytes of the queue are the bytes at the head chunk's position. */
  lemma HeadSource(rb: seq<Chunk>, pending: seq<i8>, took: nat)
    requires ReadQueueValid(rb) && rb != [] && took <= rb[0].Remaining()
    ensures (Concat(rb) + pending)[..took] == rb[0].data[rb[0].position..rb[0].position + took]
  {
    HeadBytes(rb, pending, took);
    SliceTake(rb[0].data, rb[0].position, rb[0].limit, took);
  }

  /** Draining the head chunk: the queue loses it, the pool gains it cleared, and the bytes left are the rest. */
  lemma DrainWhole(rb: seq<Chunk>, pool: seq<Chunk>, pending: seq<i8>)
    requires ReadQueueValid(rb) && PoolValid(pool) && rb != []
    ensures ReadQueueValid(rb[1..]) && PoolValid(pool + [Advance(rb[0], rb[0].Remaining()).Clear()])
    ensures Concat(rb[1..]) + pending == (Concat(rb) + pending)[rb[0].Remaining()..]
  {
    var head := rb[0].Unconsumed();
    assert Concat(rb) + pending == head + (Concat(rb[1..]) + pending);
    assert |head| == rb[0].Remaining();
  }

  /** Taking part of the head chunk: the advanced head still has bytes, and the bytes left are the rest. */
  lemma DrainPart(rb: seq<Chunk>, pending: seq<i8>, took: nat)
    requires ReadQueueValid(rb) && rb != [] && took < rb[0].Remaining()
    ensures ReadQueueValid([Advance(rb[0], took)] + rb[1..])
    ensures Concat([Advance(rb[0], took)] + rb[1..]) + pending == (Concat(rb) + pending)[took..]
  {
    var adv := Advance(rb[0], took);
    var head := rb[0].Unconsumed();
    var tail := rb[1..];
    var q := [adv] + tail;
    ReplaceHeadValid(rb, adv);
    assert q[1..] == tail;
    assert Concat(q) == adv.Unconsumed() + Concat(tail);
    assert Concat(rb) == head + Concat(tail);
    assert adv.Unconsumed() == head[took..];
    var rest := Concat(tail) + pending;
    Regroup(head, Concat(tail), pending);
    Regroup(head[took..], Concat(tail), pending);
    DropFromFront(head, rest, took);
  }

  /** A queue whose head is replaced by a chunk that still has bytes stays a valid read queue. */
  lemma ReplaceHeadValid(rb: seq<Chunk>, c: Chunk)
    requires ReadQueueValid(rb) && rb != [] && c.Sane() && c.position < c.limit
    ensures ReadQueueValid([c] + rb[1..])
  {
    var q := [c] + rb[1..];
    forall i | 0 <= i < |q|
      ensures q[i].Sane() && q[i].position < q[i].limit
    {
      if i > 0 {
        assert q[i] == rb[i];
      }
    }
  }

  /** The bulk `get(output, at, |source|)` of a ByteBuffer: `source` lands at `at`, the rest of `output` stays. */
  method CopyOut(output: array<i8>, at: nat, source: seq<i8>)
    requires at + |source| <= output.Length
    modifies output
    ensures output[at..at + |source|] == source
    ensures output[..at] == old(output[..at]) && output[at + |source|..] == old(output[at + |source|..])
  {
    forall k | at <= k < at + |source| {
      output[k] := source[k - at];
    }
  }

  class ReadStream {
    const channel: Channel
    var readBuffers: seq<Chunk>
    var writeBuffer: Option<Chunk>
    var emptyBuffers: seq<Chunk>
    var totalAvailable: int
    /** Set by `Close`: the chunks are gone and no further call is allowed. */
    ghost var released: bool

    /** The chunk invariants: queued chunks hold unread bytes, the write chunk has room, pooled chunks are cleared. */
    ghost predicate ChunksValid()
      reads this
    {
      ReadQueueValid(readBuffers) && WriteChunkValid(writeBuffer) && PoolValid(emptyBuffers)
    }

    /** Every buffered byte not yet consumed, in channel order. */
    ghost function Unread(): seq<i8>
      reads this
      requires ChunksValid()
    {
      Concat(readBuffers) + Pending(writeBuffer)
    }

    /** The byte-accounting invariant: `totalAvailable` counts exactly the unread bytes. */
    ghost predicate Valid()
      reads this
    {
      && ChunksValid()
      && (!released ==> totalAvailable == |Unread()|)
      && (released ==> readBuffers == [] && writeBuffer.None? && emptyBuffers == [])
    }

    /** Everything obtainable without blocking: the buffered bytes, then what the channel has ready. */
    ghost function Available(): seq<i8>
      reads this, channel
      requires ChunksValid()
    {
      Unread() + Ready(channel.inbound)
    }

    ghost function ChunkCount(): nat
      reads this
    {
      |readBuffers| + (if writeBuffer.Some? then 1 else 0) + |emptyBuffers|
    }

    constructor (channel: Channel)
      ensures Valid() && !released && this.channel == channel
      ensures readBuffers == [] && writeBuffer.None? && emptyBuffers == [] && Unread() == []
    {
      this.channel := channel;
      readBuffers, writeBuffer, emptyBuffers := [], None, [];
      totalAvailable := 0;
      released := false;
    }

    /** `dataAvailable()`: the number of bytes that can be taken right now. */
    method DataAvailable() returns (r: int)
      requires Valid() && !released
      ensures r == |Unread()|
    {
      r := totalAvailable;
    }

    /** `getEmptyBuffer()`: reuse the most recently pooled chunk, else allocate a new one. */
    method GetEmptyBuffer() returns (c: Chunk)
      requires ChunksValid()
      modifies this
      ensures ChunksValid()
      ensures c.Sane() && c.position == 0 && c.limit == BUFFER_SIZE
      ensures old(emptyBuffers) == [] ==> c == NewChunk() && emptyBuffers == []
      ensures old(emptyBuffers) != [] ==>
                c == old(emptyBuffers)[|old(emptyBuffers)| - 1] && emptyBuffers == old(emptyBuffers)[..|old(emptyBuffers)| - 1]
      ensures readBuffers == old(readBuffers) && writeBuffer == old(writeBuffer)
      ensures totalAvailable == old(totalAvailable) && released == old(released)
    {
      var size := |emptyBuffers|;
      if size == 0 {
        c := NewChunk();
      } else {
        c := emptyBuffers[size - 1];
        emptyBuffers := emptyBuffers[..size - 1];
      }
    }

    /**
     * `tryRead(desiredAvailable)`: read until at least `desired` bytes are
     * buffered, or a read returns 0 (would block) or -1 (end-of-stream).
     * Returns -1 when fewer than `desired` bytes are buffered and the stream
     * has ended; otherwise the number of bytes buffered.
     */
    method TryRead(desired: int) returns (r: int)
      requires Valid() && !released && channel.open
      modifies this, channel
      ensures Valid() && !released
      ensures channel.open && channel.room == old(channel.room)
      ensures channel.sent == old(channel.sent) && channel.writes == old(channel.writes)
      // no byte is lost or reordered
      ensures Unread() + Bytes(channel.inbound) == old(Unread()) + Bytes(old(channel.inbound))
      // enough already buffered: nothing is read at all
      ensures |old(Unread())| >= desired ==>
                && Unread() == old(Unread()) && channel.inbound == old(channel.inbound) && r == |Unread()|
                && readBuffers == old(readBuffers) && writeBuffer == old(writeBuffer) && emptyBuffers == old(emptyBuffers)
      // reading stops at the first read that reaches `desired`, so it overshoots by less than one chunk
      ensures |old(Unread())| < desired ==> |Unread()| < desired + BUFFER_SIZE
      // enough was obtainable: read just until `desired` bytes are buffered
      ensures |old(Available())| >= desired ==>
                && Available() == old(Available()) && Stop(channel.inbound) == Stop(old(channel.inbound))
                && |Unread()| >= desired && r == |Unread()|
      // not enough: everything obtainable is buffered and the stop has been hit
      ensures |old(Available())| < desired ==>
                && Unread() == old(Available()) && channel.inbound == AfterStop(old(channel.inbound))
                && r == (if StopIsEof(old(channel.inbound)) then -1 else |Unread()|)
      // a chunk is allocated only when the pool is empty
      ensures ChunkCount() > old(ChunkCount()) ==> emptyBuffers == []
    {
      ghost var A0 := Available();
      ghost var S0 := channel.inbound;
      ghost var B0 := Unread() + Bytes(channel.inbound);
      var lastRead := 1;
      while lastRead > 0 && totalAvailable < desired
        invariant Valid() && !released
        invariant channel.open && channel.room == old(channel.room)
        invariant channel.sent == old(channel.sent) && channel.writes == old(channel.writes)
        invariant lastRead >= -1
        invariant Unread() + Bytes(channel.inbound) == B0
        invariant lastRead > 0 ==> Available() == A0 && Stop(channel.inbound) == Stop(S0)
        invariant lastRead <= 0 ==> Unread() == A0 && |A0| < desired
        invariant lastRead == 0 ==> !StopIsEof(S0) && channel.inbound == AfterStop(S0)
        invariant lastRead == -1 ==> StopIsEof(S0) && channel.inbound == AfterStop(S0)
        invariant ChunkCount() > old(ChunkCount()) ==> emptyBuffers == []
        invariant |old(Unread())| >= desired ==>
                    && lastRead == 1 && Unread() == old(Unread()) && channel.inbound == old(channel.inbound)
                    && readBuffers == old(readBuffers) && writeBuffer == old(writeBuffer) && emptyBuffers == old(emptyBuffers)
        invariant |old(Unread())| < desired ==> |Unread()| < desired + BUFFER_SIZE
        decreases desired - totalAvailable, if lastRead > 0 then 1 else 0
      {
        lastRead := ReadOnce();
      }
      if totalAvailable < desired && lastRead == -1 {
        r := -1;
      } else {
        r := totalAvailable;
      }
    }

    /**
     * `getBytes(output)`: fills `output` with the next `output.Length`
     * buffered bytes, spanning chunks; drained chunks go back to the pool.
     * Fails (IllegalStateException) without changing anything when fewer
     * bytes are buffered.
     */
    method GetBytes(output: array<i8>) returns (ok: bool)
      requires Valid() && !released
      modifies this, output
      ensures Valid() && !released
      ensures ok <==> old(totalAvailable) >= output.Length
      ensures !ok ==> output[..] == old(output[..]) && Unread() == old(Unread())
      ensures !ok ==> readBuffers == old(readBuffers) && writeBuffer == old(writeBuffer) && emptyBuffers == old(emptyBuffers)
      ensures ok ==> output[..] == old(Unread())[..output.Length] && Unread() == old(Unread())[output.Length..]
      ensures ChunkCount() == old(ChunkCount())
    {
      if totalAvailable < output.Length {
        return false;
      }
      ghost var U0 := Unread();
      var copied := 0;
      while copied < output.Length
        invariant 0 <= copied <= output.Length <= |U0|
        invariant Valid() && !released
        invariant Unread() == U0[copied..]
        invariant output[..copied] == U0[..copied]
        invariant ChunkCount() == old(ChunkCount())
        decreases output.Length - copied
      {
        var took := CopyStep(output, copied, U0);
        copied := copied + took;
      }
      ok := true;
    }

    /** One turn of `getBytes`' loop: the next chunk's worth of bytes moves from the stream to `output`. */
    method CopyStep(output: array<i8>, copied: nat, ghost U0: seq<i8>) returns (took: nat)
      requires Valid() && !released
      requires copied < output.Length <= |U0| && Unread() == U0[copied..] && output[..copied] == U0[..copied]
      modifies this, output
      ensures Valid() && !released && 0 < took <= output.Length - copied
      ensures Unread() == U0[copied + took..] && output[..copied + took] == U0[..copied + took]
      ensures ChunkCount() == old(ChunkCount())
    {
      if readBuffers == [] {
        StealWriteBuffer();
      }
      took := TakeFromHead(output, copied);
      PrefixExtend(output[..], U0, copied, took);
      AdvanceHead(took);
    }

    /**
     * The body of `tryRead`'s loop: make sure there is a write chunk, read
     * into its free space and, when bytes arrived, store them.
     */
    method ReadOnce() returns (n: int)
      requires Valid() && !released && channel.open
      modifies this, channel
      ensures Valid() && !released
      ensures channel.open && channel.room == old(channel.room)
      ensures channel.sent == old(channel.sent) && channel.writes == old(channel.writes)
      ensures -1 <= n <= BUFFER_SIZE
      ensures Unread() + Bytes(channel.inbound) == old(Unread()) + Bytes(old(channel.inbound))
      ensures n > 0 ==>
                && Available() == old(Available()) && Stop(channel.inbound) == Stop(old(channel.inbound))
                && |Unread()| == old(|Unread()|) + n
      ensures n <= 0 ==>
                && Ready(old(channel.inbound)) == [] && Unread() == old(Unread()) && channel.inbound == AfterStop(old(channel.inbound))
                && (n == -1 <==> StopIsEof(old(channel.inbound)))
      ensures |emptyBuffers| <= old(|emptyBuffers|)
      ensures ChunkCount() > old(ChunkCount()) ==> emptyBuffers == []
    {
      EnsureWriteBuffer();
      var w := writeBuffer.value;
      ghost var before := channel.inbound;
      ghost var U := Unread();
      var data;
      n, data := channel.Read(w.limit - w.position);
      if n > 0 {
        Store(data);
        Regroup(U, data, Ready(channel.inbound));
        Regroup(U, data, Bytes(channel.inbound));
      }
    }

    /** The first step of `tryRead`'s loop body: a missing write chunk is taken from the pool or allocated. */
    method EnsureWriteBuffer()
      requires Valid() && !released
      modifies this
      ensures Valid() && !released && writeBuffer.Some?
      ensures Unread() == old(Unread())
      ensures |emptyBuffers| <= old(|emptyBuffers|)
      ensures ChunkCount() > old(ChunkCount()) ==> emptyBuffers == []
    {
      if writeBuffer.None? {
        var c := GetEmptyBuffer();
        writeBuffer := Some(c);
        assert Pending(writeBuffer) == [];
      }
    }

    /** The fill step of `tryRead`: bytes just read land in the write chunk; a chunk that fills up is flipped onto the read queue. */
    method Store(data: seq<i8>)
      requires Valid() && !released && writeBuffer.Some?
      requires 0 < |data| <= writeBuffer.value.limit - writeBuffer.value.position
      modifies this
      ensures Valid() && !released
      ensures Unread() == old(Unread()) + data
      ensures emptyBuffers == old(emptyBuffers) && ChunkCount() == old(ChunkCount())
    {
      var w := writeBuffer.value;
      FillStep(readBuffers, w, data);
      var filled := Filled(w, data);
      totalAvailable := totalAvailable + |data|;
      if filled.position == BUFFER_SIZE {
        readBuffers := readBuffers + [filled.Flip()];
        writeBuffer := None;
      } else {
        writeBuffer := Some(filled);
      }
    }

    /** The steal step of `getBytes`: with the read queue empty, the partially filled write chunk is flipped and read from. */
    method StealWriteBuffer()
      requires Valid() && !released && readBuffers == [] && Unread() != []
      modifies this
      ensures Valid() && !released && readBuffers != [] && writeBuffer.None?
      ensures Unread() == old(Unread())
      ensures emptyBuffers == old(emptyBuffers) && ChunkCount() == old(ChunkCount())
    {
      var w := writeBuffer.value;
      StealStep(w);
      readBuffers := [w.Flip()];
      writeBuffer := None;
    }

    /**
     * The copy step of `getBytes`: copies from the head chunk as many bytes
     * as it holds or `output` still needs.
     */
    method TakeFromHead(output: array<i8>, copied: nat) returns (took: nat)
      requires Valid() && !released && readBuffers != []
      requires copied < output.Length && output.Length - copied <= |Unread()|
      modifies output
      ensures 0 < took <= output.Length - copied && took <= readBuffers[0].Remaining()
      ensures output[..copied] == old(output[..copied])
      ensures output[copied..copied + took] == Unread()[..took]
    {
      ghost var U := Unread();
      var first := readBuffers[0];
      took := output.Length - copied;
      if took > first.Remaining() {
        took := first.Remaining();
      }
      HeadSource(readBuffers, Pending(writeBuffer), took);
      var source := first.data[first.position..first.position + took];
      assert U[..took] == source;
      CopyOut(output, copied, source);
      assert Unread() == U;
    }

    /** The advance step of `getBytes`: consumes `took` bytes of the head chunk and pools it, cleared, once drained. */
    method AdvanceHead(took: nat)
      requires Valid() && !released && readBuffers != [] && 0 < took <= readBuffers[0].Remaining()
      modifies this
      ensures Valid() && !released
      ensures Unread() == old(Unread())[took..]
      ensures ChunkCount() == old(ChunkCount())
    {
      var first := readBuffers[0];
      totalAvailable := totalAvailable - took;
      var advanced := Advance(first, took);
      if advanced.Remaining() == 0 {
        DrainWhole(readBuffers, emptyBuffers, Pending(writeBuffer));
        readBuffers := readBuffers[1..];
        emptyBuffers := emptyBuffers + [advanced.Clear()];
      } else {
        DrainPart(readBuffers, Pending(writeBuffer), took);
        readBuffers := [advanced] + readBuffers[1..];
      }
    }

    /**
     * `getInt()`: takes four bytes and combines them least significant first
     * (`output <<= 8; output |= b & 0xff`, from the last byte down). Fails
     * (IllegalStateException) when fewer than four bytes are buffered.
     */
    method GetInt() returns (r: Option<i32>)
      requires Valid() && !released
      modifies this
      ensures Valid() && !released
      ensures old(totalAvailable) < 4 ==> r.None? && Unread() == old(Unread())
      ensures old(totalAvailable) >= 4 ==>
                r == Some(DecodeLE(old(Unread())[..4])) && Unread() == old(Unread())[4..]
      ensures ChunkCount() == old(ChunkCount())
    {
      var intbytes := new i8[4];
      var ok := GetBytes(intbytes);
      if !ok {
        return None;
      }
      var v := CombineBytes(intbytes);
      r := Some(v);
    }

    /** `close()`: closes the channel and drops every chunk; no call is allowed afterwards. */
    method Close()
      requires Valid()
      modifies this, channel
      ensures Valid() && released && !channel.open
      ensures readBuffers == [] && writeBuffer.None? && emptyBuffers == []
      ensures channel.inbound == old(channel.inbound) && channel.sent == old(channel.sent)
    {
      channel.Close();
      readBuffers, emptyBuffers, writeBuffer := [], [], None;
      released := true;
    }
  }

  /**
   * The loop of `getInt`: shifts the four bytes into a 32-bit int from the
   * last down, each masked to its unsigned value; the shifts wrap as Java
   * int arithmetic does.
   */
  method CombineBytes(intbytes: array<i8>) returns (r: i32)
    requires intbytes.Length == 4
    ensures r == DecodeLE(intbytes[..])
  {
    var output := 0;
    for i := 0 to 4
      invariant output == ShiftedIn(intbytes[..], i)
    {
      ShiftedInBound(intbytes[..], i + 1);
      output := (output * 0x100 + Unsigned(intbytes[4 - i - 1])) % TWO_32;
    }
    ShiftedInLE(intbytes[..]);
    r := ToInt32(output);
  }

  /** The bit pattern `getInt` has built after shifting in the last `i` of four bytes. */
  function ShiftedIn(b: seq<i8>, i: nat): int
    requires |b| == 4 && i <= 4
  {
    if i == 0 then 0 else ShiftedIn(b, i - 1) * 0x100 + Unsigned(b[4 - i])
  }

  /** Four shifted-in bytes still fit in 32 bits, so `getInt`'s shifts never drop a bit. */
  lemma {:induction false} ShiftedInBound(b: seq<i8>, i: nat)
    requires |b| == 4 && i <= 4
    ensures 0 <= ShiftedIn(b, i) < (if i == 0 then 1 else if i == 1 then 0x100 else if i == 2 then 0x1_0000
                                    else if i == 3 then 0x100_0000 else TWO_32)
  {
    if i > 0 {
      ShiftedInBound(b, i - 1);
    }
  }

  /** Four bytes shifted in from the last down make the little-endian reading of the four. */
  lemma ShiftedInLE(b: seq<i8>)
    requires |b| == 4
    ensures ShiftedIn(b, 4) == UnsignedLE(b)
  {
    var u0, u1, u2, u3 := Unsigned(b[0]), Unsigned(b[1]), Unsigned(b[2]), Unsigned(b[3]);
    assert ShiftedIn(b, 1) == u3;
    assert ShiftedIn(b, 2) == u3 * 0x100 + u2;
    assert ShiftedIn(b, 3) == (u3 * 0x100 + u2) * 0x100 + u1;
    assert ShiftedIn(b, 4) == ((u3 * 0x100 + u2) * 0x100 + u1) * 0x100 + u0;
  }
}

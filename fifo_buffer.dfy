/**
 * The C++ FIFO byte buffer of the thread server: a list of fixed-size
 * blocks, written at `writePosition` in the last block and read at
 * `readPosition` in the first. Blocks are values here (their bytes), so
 * `blocks` is a sequence of 4096-byte sequences that the methods reassign.
 */
module FifoBuffers {
  import opened JavaTypes

  const BLOCK_LENGTH: nat := 4096

  /** A block as `new Block()` makes it: value-initialised, all zero. */
  function NewBlock(): (b: seq<u8>)
    ensures |b| == BLOCK_LENGTH
  {
    seq(BLOCK_LENGTH, _ => 0)
  }

  /**
   * The cursor invariant: at least one block, all of the same size, the
   * write position inside the last block, the read position inside the
   * first, and behind the write position when they are the same block
   * (both back at 0 once everything written has been read).
   */
  ghost predicate Shape(blocks: seq<seq<u8>>, readPosition: int, writePosition: int)
  {
    && |blocks| > 0
    && (forall i :: 0 <= i < |blocks| ==> |blocks[i]| == BLOCK_LENGTH)
    && 0 <= writePosition <= BLOCK_LENGTH
    && 0 <= readPosition
    && (|blocks| == 1 ==> readPosition < writePosition || readPosition == writePosition == 0)
    && (|blocks| > 1 ==> readPosition < BLOCK_LENGTH)
  }

  /** Every byte written since the first block began: all earlier blocks whole, then the last up to the write position. */
  function Written(blocks: seq<seq<u8>>, writePosition: nat): (w: seq<u8>)
    requires |blocks| > 0 && (forall i :: 0 <= i < |blocks| ==> |blocks[i]| == BLOCK_LENGTH)
    requires writePosition <= BLOCK_LENGTH
    ensures |w| == (|blocks| - 1) * BLOCK_LENGTH + writePosition
  {
    if |blocks| == 1 then blocks[0][..writePosition] else blocks[0] + Written(blocks[1..], writePosition)
  }

  /** The bytes still to be read. */
  ghost function UnreadOf(blocks: seq<seq<u8>>, readPosition: int, writePosition: int): seq<u8>
    requires Shape(blocks, readPosition, writePosition)
  {
    Written(blocks, writePosition)[readPosition..]
  }

  /** `available()` as written: the whole blocks before the last, plus the write position. */
  function AvailableAsWritten(blockCount: nat, writePosition: int): int
  {
    (blockCount - 1) * BLOCK_LENGTH + writePosition
  }

  /** `available()` as its comment describes it: the number of bytes still to be read. */
  function AvailableCorrected(blockCount: nat, readPosition: int, writePosition: int): int
  {
    AvailableAsWritten(blockCount, writePosition) - readPosition
  }

  /** What `available()` as written counts: the unread bytes plus the bytes already read from the first block. */
  lemma AvailableCountsReadBytes(blocks: seq<seq<u8>>, readPosition: int, writePosition: int)
    requires Shape(blocks, readPosition, writePosition)
    ensures AvailableAsWritten(|blocks|, writePosition) == |UnreadOf(blocks, readPosition, writePosition)| + readPosition
    ensures AvailableAsWritten(|blocks|, writePosition) == |UnreadOf(blocks, readPosition, writePosition)| <==> readPosition == 0
  {
  }

  /** The corrected count is exactly the number of unread bytes. */
  lemma AvailableCorrectedCountsUnread(blocks: seq<seq<u8>>, readPosition: int, writePosition: int)
    requires Shape(blocks, readPosition, writePosition)
    ensures AvailableCorrected(|blocks|, readPosition, writePosition) == |UnreadOf(blocks, readPosition, writePosition)|
  {
  }

  /**
   * The discrepancy on a concrete state: ten bytes written into a fresh
   * buffer and four read leave six unread, but `available()` reports ten.
   */
  lemma AvailableOvercounts()
    ensures Shape([NewBlock()], 4, 10)
    ensures |UnreadOf([NewBlock()], 4, 10)| == 6
    ensures AvailableAsWritten(1, 10) == 10
    ensures AvailableCorrected(1, 4, 10) == 6
  {
  }

  /** Nothing is left to read exactly when a single block remains with both cursors reset to 0. */
  lemma DrainedMeansReset(blocks: seq<seq<u8>>, readPosition: int, writePosition: int)
    requires Shape(blocks, readPosition, writePosition)
    ensures UnreadOf(blocks, readPosition, writePosition) == [] <==> |blocks| == 1 && readPosition == 0 && writePosition == 0
  {
  }

  /** Appending a fresh block after a full last block adds no written byte. */
  lemma WrittenNewBlock(blocks: seq<seq<u8>>, b: seq<u8>)
    requires |blocks| > 0 && (forall i :: 0 <= i < |blocks| ==> |blocks[i]| == BLOCK_LENGTH) && |b| == BLOCK_LENGTH
    ensures Written(blocks + [b], 0) == Written(blocks, BLOCK_LENGTH)
    decreases |blocks|
  {
    if |blocks| == 1 {
      assert blocks[0][..BLOCK_LENGTH] == blocks[0];
      assert (blocks + [b])[1..] == [b];
    } else {
      assert (blocks + [b])[1..] == blocks[1..] + [b];
      WrittenNewBlock(blocks[1..], b);
    }
  }

  /** Writing `data` at the write position of the last block extends what was written by `data`. */
  lemma {:induction false} WrittenExtend(blocks: seq<seq<u8>>, writePosition: nat, data: seq<u8>)
    requires |blocks| > 0 && (forall i :: 0 <= i < |blocks| ==> |blocks[i]| == BLOCK_LENGTH)
    requires writePosition + |data| <= BLOCK_LENGTH
    ensures var last := blocks[|blocks| - 1];
      var blocks' := blocks[|blocks| - 1 := last[..writePosition] + data + last[writePosition + |data|..]];
      Written(blocks', writePosition + |data|) == Written(blocks, writePosition) + data
    decreases |blocks|
  {
    var last := blocks[|blocks| - 1];
    var filled := last[..writePosition] + data + last[writePosition + |data|..];
    var blocks' := blocks[|blocks| - 1 := filled];
    if |blocks| == 1 {
      assert blocks'[0][..writePosition + |data|] == last[..writePosition] + data;
    } else {
      var rest := blocks[1..];
      assert blocks'[1..] == rest[|rest| - 1 := filled];
      WrittenExtend(rest, writePosition, data);
      assert Written(blocks', writePosition + |data|) == blocks[0] + (Written(rest, writePosition) + data);
      Regroup(blocks[0], Written(rest, writePosition), data);
    }
  }

  class FifoBuffer {
    var blocks: seq<seq<u8>>
    var readPosition: int
    var writePosition: int

    ghost predicate Valid()
      reads this
    {
      Shape(blocks, readPosition, writePosition)
    }

    ghost function Unread(): seq<u8>
      reads this
      requires Valid()
    {
      UnreadOf(blocks, readPosition, writePosition)
    }

    /** A buffer with one zeroed block and both cursors at its start. */
    constructor ()
      ensures Valid() && Unread() == []
      ensures blocks == [NewBlock()] && readPosition == 0 && writePosition == 0
    {
      blocks := [NewBlock()];
      readPosition, writePosition := 0, 0;
    }

    /** `available()` as written; see `AvailableCountsReadBytes` for what it counts. */
    function Available(): (n: int)
      reads this
      requires Valid()
      ensures n == |Unread()| + readPosition
    {
      AvailableCountsReadBytes(blocks, readPosition, writePosition);
      AvailableAsWritten(|blocks|, writePosition)
    }

    /** `hasBytesAvailable()`: true exactly when some written byte is still unread. */
    function HasBytesAvailable(): (r: bool)
      reads this
      requires Valid()
      ensures r <==> Unread() != []
    {
      |blocks| > 1 || readPosition < writePosition
    }

    /**
     * `getWritePosition`: the room left in the last block, after appending
     * a fresh block when the last one is full. The returned room is never 0.
     */
    method GetWritePosition() returns (maxLength: nat)
      requires Valid()
      modifies this
      ensures Valid() && Unread() == old(Unread()) && readPosition == old(readPosition)
      ensures old(writePosition) == BLOCK_LENGTH ==> blocks == old(blocks) + [NewBlock()] && writePosition == 0
      ensures old(writePosition) < BLOCK_LENGTH ==> blocks == old(blocks) && writePosition == old(writePosition)
      ensures maxLength == BLOCK_LENGTH - writePosition && maxLength > 0
    {
      var remaining := BLOCK_LENGTH - writePosition;
      if remaining == 0 {
        WrittenNewBlock(blocks, NewBlock());
        blocks := blocks + [NewBlock()];
        writePosition := 0;
        remaining := BLOCK_LENGTH;
      }
      maxLength := remaining;
    }

    /**
     * The caller's copy into the memory `getWritePosition` returned,
     * followed by `advanceWritePosition(|data|)`. The caller may not copy
     * more than that call allowed.
     */
    method AdvanceWritePosition(data: seq<u8>)
      requires Valid() && writePosition + |data| <= BLOCK_LENGTH
      modifies this
      ensures Valid() && Unread() == old(Unread()) + data
      ensures |blocks| == |old(blocks)| && readPosition == old(readPosition)
      ensures writePosition == old(writePosition) + |data| <= BLOCK_LENGTH
    {
      var last := blocks[|blocks| - 1];
      ghost var W := Written(blocks, writePosition);
      WrittenExtend(blocks, writePosition, data);
      DropFromFront(W, data, readPosition);
      var filled := last[..writePosition] + data + last[writePosition + |data|..];
      assert |filled| == BLOCK_LENGTH;
      blocks := blocks[|blocks| - 1 := filled];
      writePosition := writePosition + |data|;
      assert Shape(blocks, readPosition, writePosition);
      assert Written(blocks, writePosition) == W + data;
    }

    /**
     * `read(buffer, length)`: copies the next unread bytes, up to `length`,
     * to the start of `buffer`, and returns how many it copied.
     */
    method Read(buffer: array<u8>, length: nat) returns (copied: int)
      requires Valid() && length <= buffer.Length
      modifies this, buffer
      ensures Valid()
      ensures copied == (if length < |old(Unread())| then length else |old(Unread())|)
      ensures buffer[..copied] == old(Unread())[..copied] && Unread() == old(Unread())[copied..]
      ensures buffer[copied..] == old(buffer[copied..])
    {
      ghost var U := Unread();
      ghost var O := buffer[..];
      copied := 0;
      while copied < length && HasBytesAvailable()
        invariant Valid() && 0 <= copied <= length && copied <= |U|
        invariant buffer[..copied] == U[..copied] && Unread() == U[copied..]
        invariant buffer[copied..] == O[copied..]
        decreases length - copied
      {
        var remainingInBlock;
        if |blocks| == 1 {
          remainingInBlock := writePosition - readPosition;
        } else {
          remainingInBlock := BLOCK_LENGTH - readPosition;
        }
        var toCopy := if length - copied < remainingInBlock then length - copied else remainingInBlock;
        ghost var B := buffer[..];
        ConsumeFront(buffer, copied, toCopy, remainingInBlock);
        Advanced(U, B, buffer[..], copied, toCopy);
        DropMore(B, O, copied, toCopy);
        copied := copied + toCopy;
      }
    }

    /** One pass of the copy loop: `toCopy` bytes from the front block, dropping or resetting it once consumed. */
    method ConsumeFront(buffer: array<u8>, copied: nat, toCopy: int, remainingInBlock: int)
      requires Valid() && copied + toCopy <= buffer.Length
      requires remainingInBlock == (if |blocks| == 1 then writePosition else BLOCK_LENGTH) - readPosition
      requires 0 < toCopy <= remainingInBlock
      modifies this, buffer
      ensures Valid() && toCopy <= |old(Unread())|
      ensures Unread() == old(Unread())[toCopy..]
      ensures buffer[copied..copied + toCopy] == old(Unread())[..toCopy]
      ensures buffer[..copied] == old(buffer[..copied]) && buffer[copied + toCopy..] == old(buffer[copied + toCopy..])
    {
      CopyFront(buffer, copied, toCopy, remainingInBlock);
      DropFront(toCopy, remainingInBlock);
    }

    /** The copy half of a pass: the front block's next `toCopy` bytes go to `buffer` at `copied`. */
    method CopyFront(buffer: array<u8>, copied: nat, toCopy: int, remainingInBlock: int)
      requires Valid() && copied + toCopy <= buffer.Length
      requires remainingInBlock == (if |blocks| == 1 then writePosition else BLOCK_LENGTH) - readPosition
      requires 0 < toCopy <= remainingInBlock
      modifies buffer
      ensures toCopy <= |Unread()| && buffer[copied..copied + toCopy] == Unread()[..toCopy]
      ensures buffer[..copied] == old(buffer[..copied]) && buffer[copied + toCopy..] == old(buffer[copied + toCopy..])
    {
      ghost var U := Unread();
      FrontBlock(blocks, readPosition, writePosition);
      forall k | 0 <= k < toCopy {
        buffer[copied + k] := blocks[0][readPosition + k];
      }
      assert buffer[copied..copied + toCopy] == U[..toCopy] by {
        assert forall k :: 0 <= k < toCopy ==> U[..toCopy][k] == U[..remainingInBlock][k];
      }
    }

    /** The cursor half of a pass: `toCopy` bytes are consumed, and a front block read to its end is dropped or reset. */
    method DropFront(toCopy: int, remainingInBlock: int)
      requires Valid()
      requires remainingInBlock == (if |blocks| == 1 then writePosition else BLOCK_LENGTH) - readPosition
      requires 0 < toCopy <= remainingInBlock
      modifies this
      ensures Valid() && toCopy <= |old(Unread())| && Unread() == old(Unread())[toCopy..]
    {
      ghost var W := Written(blocks, writePosition);
      ghost var U := W[readPosition..];
      FrontBlock(blocks, readPosition, writePosition);
      assert U[toCopy..] == W[readPosition + toCopy..];
      readPosition := readPosition + toCopy;
      if toCopy == remainingInBlock {
        if |blocks| > 1 {
          blocks := blocks[1..];
          assert Written(blocks, writePosition) == W[BLOCK_LENGTH..];
        } else {
          writePosition := 0;
        }
        readPosition := 0;
      }
    }
  }

  /** Copying the next `toCopy` unread bytes after the `copied` already copied extends the copied prefix. */
  lemma Advanced(u: seq<u8>, before: seq<u8>, after: seq<u8>, copied: nat, toCopy: nat)
    requires copied + toCopy <= |u| && copied + toCopy <= |before| == |after|
    requires before[..copied] == u[..copied]
    requires after[copied..copied + toCopy] == u[copied..][..toCopy]
    requires after[..copied] == before[..copied] && after[copied + toCopy..] == before[copied + toCopy..]
    ensures after[..copied + toCopy] == u[..copied + toCopy]
    ensures u[copied..][toCopy..] == u[copied + toCopy..]
    ensures after[copied + toCopy..] == before[copied + toCopy..]
  {
    assert after[..copied + toCopy] == after[..copied] + after[copied..copied + toCopy];
    assert u[..copied + toCopy] == u[..copied] + u[copied..][..toCopy];
  }

  /** The unread bytes begin with the unread part of the front block. */
  lemma FrontBlock(blocks: seq<seq<u8>>, readPosition: int, writePosition: int)
    requires Shape(blocks, readPosition, writePosition)
    ensures var end := if |blocks| == 1 then writePosition else BLOCK_LENGTH;
      UnreadOf(blocks, readPosition, writePosition)[..end - readPosition] == blocks[0][readPosition..end]
  {
  }
}

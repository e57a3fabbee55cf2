/**
 * The latency client's append-only record of measurements: values go into
 * fixed-size blocks kept in a list, a new block being opened only when the
 * current one is full, so that adding never copies. The record can be
 * sized and iterated in insertion order.
 */
module LatencyRecords {
  import opened JavaTypes

  /** `1 << 20` values per block. */
  const BLOCK_SIZE: nat := 0x10_0000

  /** The values of whole blocks, one block after another. */
  ghost function Flatten(bs: seq<array<i32>>): seq<i32>
    reads set a | a in bs
  {
    if bs == [] then [] else bs[0][..] + Flatten(bs[1..])
  }

  lemma {:induction false} FlattenAppend(bs: seq<array<i32>>, a: array<i32>)
    ensures Flatten(bs + [a]) == Flatten(bs) + a[..]
  {
    if bs == [] {
      assert [a][1..] == [];
    } else {
      assert (bs + [a])[1..] == bs[1..] + [a];
      FlattenAppend(bs[1..], a);
      Regroup(bs[0][..], Flatten(bs[1..]), a[..]);
    }
  }

  lemma {:induction false} FlattenLength(bs: seq<array<i32>>)
    requires forall a | a in bs :: a.Length == BLOCK_SIZE
    ensures |Flatten(bs)| == |bs| * BLOCK_SIZE
  {
    if bs != [] {
      FlattenLength(bs[1..]);
    }
  }

  class LatencyRecord {
    var blocks: seq<array<i32>>
    /** The block being filled: always the last of `blocks`. */
    var block: array<i32>
    /** The next free slot of `block`. */
    var nextIndex: int

    ghost predicate Valid()
      reads this, set a | a in blocks
    {
      && |blocks| > 0 && block == blocks[|blocks| - 1]
      && (forall a | a in blocks :: a.Length == BLOCK_SIZE)
      // the block being filled is none of the earlier ones
      && (forall i | 0 <= i < |blocks| - 1 :: blocks[i] != block)
      && 0 <= nextIndex <= BLOCK_SIZE
      // slots not yet written keep the zero a new Java array starts with
      && (forall k | nextIndex <= k < block.Length :: block[k] == 0)
    }

    /** Every value added, in order: all earlier blocks in full, then the filled part of the current one. */
    ghost function Values(): seq<i32>
      reads this, set a | a in blocks
      requires Valid()
    {
      Flatten(blocks[..|blocks| - 1]) + block[..nextIndex]
    }

    /** A record holds one empty block from the start. */
    constructor ()
      ensures Valid() && Values() == [] && |blocks| == 1 && fresh(block)
    {
      block := new i32[BLOCK_SIZE](_ => 0);
      blocks := [block];
      nextIndex := 0;
    }

    /** `add(value)`: append, opening a new block first when the current one is full. */
    method Add(value: i32)
      requires Valid()
      modifies this, block
      ensures Valid() && Values() == old(Values()) + [value]
      ensures old(nextIndex) == BLOCK_SIZE ==> |blocks| == |old(blocks)| + 1 && fresh(block) && nextIndex == 1
      ensures old(nextIndex) < BLOCK_SIZE ==> blocks == old(blocks) && nextIndex == old(nextIndex) + 1
    {
      if nextIndex == block.Length {
        NewBlock();
      }
      ghost var earlier := Flatten(blocks[..|blocks| - 1]);
      ghost var filled := block[..nextIndex];
      block[nextIndex] := value;
      nextIndex := nextIndex + 1;
      assert block[..nextIndex] == filled + [value];
      assert Flatten(blocks[..|blocks| - 1]) == earlier;
      Regroup(earlier, filled, [value]);
    }

    /** `newBlock()`: a fresh zeroed block becomes the current one. */
    method NewBlock()
      requires Valid() && nextIndex == BLOCK_SIZE
      modifies this
      ensures Valid() && Values() == old(Values()) && fresh(block) && nextIndex == 0
      ensures blocks == old(blocks) + [block]
    {
      ghost var full := blocks;
      assert block[..nextIndex] == block[..];
      FlattenAppend(blocks[..|blocks| - 1], block);
      assert blocks[..|blocks| - 1] + [block] == blocks;
      block := new i32[BLOCK_SIZE](_ => 0);
      blocks := blocks + [block];
      nextIndex := 0;
      assert blocks[..|blocks| - 1] == full;
    }

    /** Slot `i` of block `k` holds value `k * BLOCK_SIZE + i`, for every slot filled so far. */
    lemma ValueAt(k: nat, i: nat)
      requires Valid() && k < |blocks| && i < BLOCK_SIZE
      requires k == |blocks| - 1 ==> i < nextIndex
      ensures k * BLOCK_SIZE + i < |Values()| && Values()[k * BLOCK_SIZE + i] == blocks[k][i]
    {
      var earlier := blocks[..|blocks| - 1];
      FlattenLength(earlier);
      if k < |blocks| - 1 {
        FlattenAt(earlier, k, i);
      }
    }

    /** `size()`: the lengths of all blocks, less the unfilled part of the current one. */
    method Size() returns (s: int)
      requires Valid()
      ensures s == |Values()|
    {
      s := 0;
      for i := 0 to |blocks|
        invariant s == i * BLOCK_SIZE
      {
        s := s + blocks[i].Length;
      }
      s := s - block.Length;
      s := s + nextIndex;
      FlattenLength(blocks[..|blocks| - 1]);
    }
  }

  /** Position `k * BLOCK_SIZE + i` of the flattened blocks is slot `i` of block `k`. */
  lemma {:induction false} FlattenAt(bs: seq<array<i32>>, k: nat, i: nat)
    requires forall a | a in bs :: a.Length == BLOCK_SIZE
    requires k < |bs| && i < BLOCK_SIZE
    ensures k * BLOCK_SIZE + i < |Flatten(bs)| && Flatten(bs)[k * BLOCK_SIZE + i] == bs[k][i]
  {
    FlattenLength(bs);
    if k > 0 {
      FlattenAt(bs[1..], k - 1, i);
      FlattenLength(bs[1..]);
      assert k * BLOCK_SIZE + i == BLOCK_SIZE + ((k - 1) * BLOCK_SIZE + i);
    }
  }

  /**
   * The iterator of a record: it takes the blocks from the list one by one
   * and reads every slot of a block, except that in the last block it stops
   * at the record's `nextIndex`, read afresh at every call.
   */
  class LatencyIterator {
    const record: LatencyRecord
    /** How many blocks the list iterator has handed out; the current one is the last of them. */
    var taken: nat
    var block: array<i32>
    var index: int
    /**
     * The number of blocks when the iterator was made. Adding a block
     * afterwards would make the list iterator throw
     * ConcurrentModificationException, so the iterator is valid only while
     * the count is the same; values added to the last block stay visible.
     */
    ghost const blockCount: nat

    ghost predicate Valid()
      reads this, record, set a | a in record.blocks
    {
      && record.Valid() && |record.blocks| == blockCount
      && 1 <= taken <= blockCount && block == record.blocks[taken - 1]
      && 0 <= index <= BLOCK_SIZE
      && (taken < blockCount ==> index < BLOCK_SIZE)
    }

    /** How many values the iterator has stepped over. */
    ghost function Position(): int
      reads this
    {
      (taken - 1) * BLOCK_SIZE + index
    }

    /** `iterator()`: the list iterator has handed out the first block, and no value has been read. */
    constructor (record: LatencyRecord)
      requires record.Valid()
      ensures Valid() && this.record == record && Position() == 0
    {
      this.record := record;
      blockCount := |record.blocks|;
      block := record.blocks[0];
      taken := 1;
      index := 0;
    }

    /** `hasNext()`: true exactly while values the record holds have not been stepped over. */
    function HasNext(): (r: bool)
      reads this, record, set a | a in record.blocks
      requires Valid()
      ensures r <==> Position() < |record.Values()|
    {
      FlattenLength(record.blocks[..|record.blocks| - 1]);
      if taken < |record.blocks| then index < block.Length else index < record.nextIndex
    }

    /**
     * `next()`: the value at the current slot, then a step forward, moving
     * to the next block when the slot was the last of a block that is not
     * the last. Past the end it does not throw NoSuchElementException: it
     * reads an unwritten slot, which holds 0, or, when the last block is
     * full, fails with ArrayIndexOutOfBoundsException (`None`).
     */
    method Next() returns (r: Option<i32>)
      requires Valid()
      modifies this
      ensures Valid()
      ensures old(HasNext()) ==> r == Some(record.Values()[old(Position())]) && Position() == old(Position()) + 1
      ensures !old(HasNext()) && old(index) < BLOCK_SIZE ==> r == Some(0)
      ensures !old(HasNext()) && old(index) == BLOCK_SIZE ==> r == None
    {
      if index == block.Length {
        return None;
      }
      if taken < |record.blocks| || index < record.nextIndex {
        record.ValueAt(taken - 1, index);
      }
      var value := block[index];
      index := index + 1;
      if taken < |record.blocks| && index == block.Length {
        assert taken * BLOCK_SIZE == (taken - 1) * BLOCK_SIZE + BLOCK_SIZE;
        block := record.blocks[taken];
        taken := taken + 1;
        index := 0;
      }
      r := Some(value);
    }

    /** `remove()`: unsupported, so it always throws and nothing is removed. */
    method Remove() returns (removed: bool)
      ensures !removed
    {
      removed := false;
    }
  }

  /** The sum of the first `n` latencies of a sequence. */
  function SumTo(s: seq<i32>, n: nat): int
    requires n <= |s|
  {
    if n == 0 then 0 else SumTo(s, n - 1) + s[n - 1]
  }

  /** The sum of a sequence of latencies. */
  function Sum(s: seq<i32>): int
  {
    SumTo(s, |s|)
  }

  /** The client's inner report loop over one record: every value the iterator yields is added to the running sum. */
  method SumRecord(record: LatencyRecord) returns (sum: int)
    requires record.Valid()
    ensures sum == Sum(record.Values())
  {
    var it := new LatencyIterator(record);
    sum := 0;
    ghost var V := record.Values();
    ghost var n: nat := 0;
    while it.HasNext()
      invariant it.Valid() && it.record == record && record.Values() == V
      invariant it.Position() == n <= |V| && sum == SumTo(V, n)
      decreases |V| - n
    {
      var r := it.Next();
      assert r == Some(V[n]);
      sum := sum + r.value;
      n := n + 1;
    }
  }

  /** The client's report for one record: the sum of its values and, from `size()`, their count. */
  method SumLatencies(record: LatencyRecord) returns (sum: int, count: int)
    requires record.Valid()
    ensures sum == Sum(record.Values()) && count == |record.Values()|
  {
    sum := SumRecord(record);
    count := record.Size();
  }
}
